/**
 * The bencode parser as functions of the input bytes and a position: what
 * `BValue.Parse` and its helpers return when the reader stands at `pos`.
 *
 * Besides a value or a `ParsingError`, the parser as written can let a .NET
 * exception escape (`Threw`): the length text of a string that `int.Parse`
 * rejects (BValue.cs:87) and a repeated dictionary key that
 * `SortedDictionary.Add` refuses when key order is not checked (BValue.cs:202).
 */
module Bencode {
  import opened Bytes
  import opened Errors
  import opened Values

  datatype Unhandled =
    | LengthNotNumeric
    | DuplicateKey(key: seq<byte>)

  datatype Outcome =
    | Parsed(value: BValue, next: nat)
    | Rejected(error: ParsingError)
    | Threw(exception: Unhandled)

  /** The first index at or after `from` holding `b`, or the end of the input. */
  function IndexOf(input: seq<byte>, from: nat, b: byte): (k: nat)
    requires from <= |input|
    ensures from <= k <= |input|
    decreases |input| - from
  {
    if from == |input| then |input|
    else if input[from] == b then from
    else IndexOf(input, from + 1, b)
  }

  /** `IndexOf` stops at the first `b` at or after `from`, or at the end. */
  lemma {:induction false} IndexOfFirst(input: seq<byte>, from: nat, b: byte)
    requires from <= |input|
    ensures var k := IndexOf(input, from, b);
            && (forall i :: from <= i < k ==> input[i] != b)
            && (k < |input| ==> input[k] == b)
    decreases |input| - from
  {
    if from < |input| && input[from] != b {
      IndexOfFirst(input, from + 1, b);
    }
  }

  /** The number of leading decimal digits of `s`. */
  function LeadingDigits(s: seq<byte>): (k: nat)
    ensures k <= |s| && AllDigits(s[..k])
    ensures k < |s| ==> !IsDigit(s[k])
  {
    if s == [] || !IsDigit(s[0]) then 0
    else
      var k := 1 + LeadingDigits(s[1..]);
      assert s[..k] == [s[0]] + s[1..][..k - 1];
      k
  }

  /**
   * What `int.Parse` accepts of the text before ':' (its first byte is always
   * a digit): digits followed by optional white space.
   */
  predicate IsLengthText(s: seq<byte>) {
    var k := LeadingDigits(s);
    1 <= k && forall i :: k <= i < |s| ==> IsWhite(s[i])
  }

  function LengthValue(s: seq<byte>): nat
    requires IsLengthText(s)
  {
    DigitsValue(s[..LeadingDigits(s)])
  }

  /**
   * `s` without its trailing NUL bytes: .NET's number parser accepts a text
   * whose only characters after the number are NULs.
   */
  function WithoutTrailingNuls(s: seq<byte>): (r: seq<byte>)
    ensures r <= s && (r == [] || r[|r| - 1] != NUL)
    ensures forall i :: |r| <= i < |s| ==> s[i] == NUL
  {
    if s == [] || s[|s| - 1] != NUL then s else WithoutTrailingNuls(s[..|s| - 1])
  }

  /** An optional '-' followed by one or more digits. */
  predicate IsSignedNumeral(t: seq<byte>) {
    1 <= |t| &&
    if t[0] == MINUS then 2 <= |t| && AllDigits(t[1..]) else AllDigits(t)
  }

  /**
   * What `BigInteger.Parse` accepts with `AllowLeadingSign` and no positive
   * sign: an optional '-', one or more digits, then any number of NULs.
   */
  predicate IsIntegerText(body: seq<byte>) {
    IsSignedNumeral(WithoutTrailingNuls(body))
  }

  /** The signed value of an integer text, as `BigInteger.Parse` computes it. */
  function IntegerValue(body: seq<byte>): int
    requires IsIntegerText(body)
  {
    var t := WithoutTrailingNuls(body);
    if t[0] == MINUS then -(DigitsValue(t[1..]) as int) else DigitsValue(t)
  }

  /** `BValue.Parse(reader)`: dispatch on the first byte. */
  function Parse(input: seq<byte>, pos: nat, checkOrder: bool): (r: Outcome)
    requires pos <= |input|
    ensures r.Parsed? ==> pos < r.next <= |input|
    decreases |input| - pos, 1
  {
    if pos == |input| then Rejected(UnexpectedEof())
    else
      var prefix := input[pos];
      if IsDigit(prefix) then ParseString(input, pos + 1)
      else if prefix == LOWER_I then ParseBigInteger(input, pos + 1)
      else if prefix == LOWER_L then ParseList(input, pos + 1, checkOrder)
      else if prefix == LOWER_D then ParseDictionary(input, pos + 1, checkOrder)
      else Rejected(InvalidPrefixChar(CharOf(prefix)))
  }

  /**
   * `ParseString`: the first digit has been read (at `pos - 1`); the length
   * text runs up to the first ':', and that many bytes follow it.
   */
  function ParseString(input: seq<byte>, pos: nat): (r: Outcome)
    requires 1 <= pos <= |input| && IsDigit(input[pos - 1])
    ensures r.Parsed? ==> pos < r.next <= |input| && r.value.BString?
  {
    var colon := IndexOf(input, pos, COLON);
    if colon == |input| then Rejected(MissingColon)
    else
      var text := input[pos - 1..colon];
      if !IsLengthText(text) then Threw(LengthNotNumeric)
      else
        var length := LengthValue(text);
        var start := colon + 1;
        if |input| - start < length then Rejected(UnexpectedEof())
        else Parsed(BString(input[start..start + length]), start + length)
  }

  /** `ParseBigInteger`: the body runs from after 'i' up to the first 'e'. */
  function ParseBigInteger(input: seq<byte>, pos: nat): (r: Outcome)
    requires pos <= |input|
    ensures r.Parsed? ==> pos < r.next <= |input| && r.value.BInteger?
  {
    var end := IndexOf(input, pos, LOWER_E);
    if end == |input| then Rejected(UnclosedPrefix('i'))
    else
      var body := input[pos..end];
      if body == [] then Rejected(EmptyInteger)
      else if body[0] == ZERO && 2 <= |body| then Rejected(LeadingZeros)
      else if 2 <= |body| && body[0] == MINUS && body[1] == ZERO then Rejected(MinusZero)
      else if IsIntegerText(body) then Parsed(BInteger(IntegerValue(body)), end + 1)
      else Rejected(InvalidIntegerFormat)
  }

  /** `ParseList`: items until an 'e' is peeked. */
  function ParseList(input: seq<byte>, pos: nat, checkOrder: bool): (r: Outcome)
    requires pos <= |input|
    ensures r.Parsed? ==> pos < r.next <= |input| && r.value.BList?
    decreases |input| - pos, 3
  {
    ListItems(input, pos, [], checkOrder)
  }

  /** One turn of the list loop, with the items read so far. */
  function ListItems(input: seq<byte>, pos: nat, items: seq<BValue>, checkOrder: bool): (r: Outcome)
    requires pos <= |input|
    ensures r.Parsed? ==> pos < r.next <= |input| && r.value.BList?
    decreases |input| - pos, 2
  {
    if pos == |input| then Rejected(UnclosedPrefix('l'))
    else if input[pos] == LOWER_E then Parsed(BList(items), pos + 1)
    else
      match Parse(input, pos, checkOrder)
      case Parsed(item, next) => ListItems(input, next, items + [item], checkOrder)
      case Rejected(e) => Rejected(e)
      case Threw(x) => Threw(x)
  }

  /** `ParseDictionary`: key/value pairs until an 'e' is peeked. */
  function ParseDictionary(input: seq<byte>, pos: nat, checkOrder: bool): (r: Outcome)
    requires pos <= |input|
    ensures r.Parsed? ==> pos < r.next <= |input| && r.value.BDictionary?
    decreases |input| - pos, 3
  {
    DictEntries(input, pos, [], checkOrder)
  }

  /**
   * With key-order checking on, a key must compare strictly greater than the
   * last key stored.
   */
  predicate OutOfOrder(entries: seq<(seq<byte>, BValue)>, key: seq<byte>, checkOrder: bool) {
    checkOrder && |entries| > 0 && CompareBytes(entries[|entries| - 1].0, key) >= 0
  }

  /** One turn of the dictionary loop, with the entries stored so far. */
  function DictEntries(input: seq<byte>, pos: nat, entries: seq<(seq<byte>, BValue)>, checkOrder: bool)
    : (r: Outcome)
    requires pos <= |input|
    ensures r.Parsed? ==> pos < r.next <= |input| && r.value.BDictionary?
    decreases |input| - pos, 2
  {
    if pos == |input| then Rejected(UnclosedPrefix('d'))
    else if input[pos] == LOWER_E then Parsed(BDictionary(entries), pos + 1)
    else
      match Parse(input, pos, checkOrder)
      case Rejected(e) => Rejected(e)
      case Threw(x) => Threw(x)
      case Parsed(key, afterKey) =>
        if !key.BString? then Rejected(KeyIsNotString)
        else if OutOfOrder(entries, key.bytes, checkOrder) then Rejected(UnorderedKeys)
        else
          match Parse(input, afterKey, checkOrder)
          case Rejected(e) =>
            if e == InvalidPrefixChar('e') then Rejected(MissingDictionaryValues(Text(key.bytes)))
            else Rejected(e)
          case Threw(x) => Threw(x)
          case Parsed(value, next) =>
            if HasKey(entries, key.bytes) then Threw(DuplicateKey(key.bytes))
            else DictEntries(input, next, Insert(entries, key.bytes, value), checkOrder)
  }
}
