/**
 * The parser as the source runs it: the reader advances a position through
 * the input, each container loop appends to a buffer, and a nested value is
 * read by a recursive call. Every method is proved to return what the
 * corresponding function of `Bencode` specifies.
 */
module Reader {
  import opened Bytes
  import opened Errors
  import opened Values
  import opened Bencode

  /** `BValue.Parse(reader)`. */
  method ReadValue(input: seq<byte>, pos: nat, checkOrder: bool) returns (r: Outcome)
    requires pos <= |input|
    ensures r == Parse(input, pos, checkOrder)
    decreases |input| - pos, 1
  {
    if pos == |input| {
      return Rejected(UnexpectedEof());
    }
    var prefix := input[pos];
    if IsDigit(prefix) {
      r := ReadString(prefix, input, pos + 1);
    } else if prefix == LOWER_I {
      r := ReadBigInteger(input, pos + 1);
    } else if prefix == LOWER_L {
      r := ReadList(input, pos + 1, checkOrder);
    } else if prefix == LOWER_D {
      r := ReadDictionary(input, pos + 1, checkOrder);
    } else {
      r := Rejected(InvalidPrefixChar(CharOf(prefix)));
    }
  }

  /** `ParseString`: buffer the length text up to ':', then read that many bytes. */
  method ReadString(firstDigit: byte, input: seq<byte>, pos: nat) returns (r: Outcome)
    requires 1 <= pos <= |input| && input[pos - 1] == firstDigit && IsDigit(firstDigit)
    ensures r == ParseString(input, pos)
  {
    var buffer := [firstDigit];
    var p := pos;
    while p < |input| && input[p] != COLON
      invariant pos <= p <= |input|
      invariant buffer == input[pos - 1..p]
      invariant IndexOf(input, p, COLON) == IndexOf(input, pos, COLON)
      decreases |input| - p
    {
      buffer := buffer + [input[p]];
      p := p + 1;
    }
    if p == |input| {
      return Rejected(MissingColon);
    }
    if !IsLengthText(buffer) {
      return Threw(LengthNotNumeric);
    }
    var length := LengthValue(buffer);
    var start := p + 1;
    if |input| - start < length {
      return Rejected(UnexpectedEof());
    }
    r := Parsed(BString(input[start..start + length]), start + length);
  }

  /** `ParseBigInteger`: buffer the body up to 'e', then apply the canonical-form rules. */
  method ReadBigInteger(input: seq<byte>, pos: nat) returns (r: Outcome)
    requires pos <= |input|
    ensures r == ParseBigInteger(input, pos)
  {
    var chars: seq<byte> := [];
    var p := pos;
    while p < |input| && input[p] != LOWER_E
      invariant pos <= p <= |input|
      invariant chars == input[pos..p]
      invariant IndexOf(input, p, LOWER_E) == IndexOf(input, pos, LOWER_E)
      decreases |input| - p
    {
      chars := chars + [input[p]];
      p := p + 1;
    }
    if p == |input| {
      return Rejected(UnclosedPrefix('i'));
    }
    if chars == [] {
      r := Rejected(EmptyInteger);
    } else if chars[0] == ZERO && 2 <= |chars| {
      r := Rejected(LeadingZeros);
    } else if 2 <= |chars| && chars[0] == MINUS && chars[1] == ZERO {
      r := Rejected(MinusZero);
    } else if IsIntegerText(chars) {
      r := Parsed(BInteger(IntegerValue(chars)), p + 1);
    } else {
      r := Rejected(InvalidIntegerFormat);
    }
  }

  /** `ParseList`: append items until 'e' is peeked; the first item error is returned as is. */
  method ReadList(input: seq<byte>, pos: nat, checkOrder: bool) returns (r: Outcome)
    requires pos <= |input|
    ensures r == ParseList(input, pos, checkOrder)
    decreases |input| - pos, 3
  {
    var result: seq<BValue> := [];
    var p := pos;
    while p < |input| && input[p] != LOWER_E
      invariant pos <= p <= |input|
      invariant ListItems(input, p, result, checkOrder) == ParseList(input, pos, checkOrder)
      decreases |input| - p
    {
      var item := ReadValue(input, p, checkOrder);
      if !item.Parsed? {
        return item;
      }
      result := result + [item.value];
      p := item.next;
    }
    if p == |input| {
      return Rejected(UnclosedPrefix('l'));
    }
    r := Parsed(BList(result), p + 1);
  }

  /**
   * `ParseDictionary`: read a key, check it is a string (and, when asked, that
   * it is in order), read its value and add the pair, until 'e' is peeked.
   */
  method ReadDictionary(input: seq<byte>, pos: nat, checkOrder: bool) returns (r: Outcome)
    requires pos <= |input|
    ensures r == ParseDictionary(input, pos, checkOrder)
    decreases |input| - pos, 3
  {
    var result: seq<(seq<byte>, BValue)> := [];
    var p := pos;
    while p < |input| && input[p] != LOWER_E
      invariant pos <= p <= |input|
      invariant DictEntries(input, p, result, checkOrder) == ParseDictionary(input, pos, checkOrder)
      decreases |input| - p
    {
      var key := ReadValue(input, p, checkOrder);
      if !key.Parsed? {
        return key;
      }
      if !key.value.BString? {
        return Rejected(KeyIsNotString);
      }
      var keyString := key.value.bytes;
      if OutOfOrder(result, keyString, checkOrder) {
        return Rejected(UnorderedKeys);
      }
      var value := ReadValue(input, key.next, checkOrder);
      if value.Rejected? {
        if value.error == InvalidPrefixChar('e') {
          return Rejected(MissingDictionaryValues(Text(keyString)));
        }
        return value;
      }
      if value.Threw? {
        return value;
      }
      if HasKey(result, keyString) {
        return Threw(DuplicateKey(keyString));
      }
      result := Insert(result, keyString, value.value);
      p := value.next;
    }
    if p == |input| {
      return Rejected(UnclosedPrefix('d'));
    }
    r := Parsed(BDictionary(result), p + 1);
  }
}
