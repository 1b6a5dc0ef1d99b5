/**
 * A bencode encoder, used only to state what the parser does with canonical
 * input: it has no counterpart in the code, which never writes bencode.
 *
 * The central fact is the round trip: parsing the encoding of a value whose
 * dictionaries are strictly sorted gives back that value and stops right
 * after the encoding, whatever follows it and whether or not key order is
 * checked.
 */
module Encoding {
  import opened Bytes
  import opened Errors
  import opened Values
  import opened Bencode

  /** The canonical integer text: an optional '-' and the decimal text of the magnitude. */
  ghost function IntText(n: int): (r: seq<byte>)
    ensures 1 <= |r| && IsDigit(r[|r| - 1])
  {
    if n < 0 then [MINUS] + DecimalText(-n) else DecimalText(n)
  }

  ghost function EncodeString(b: seq<byte>): seq<byte> {
    DecimalText(|b|) + [COLON] + b
  }

  ghost function Encode(v: BValue): (r: seq<byte>)
    ensures 1 <= |r|
    decreases v
  {
    match v
    case BString(b) => EncodeString(b)
    case BInteger(n) => [LOWER_I] + IntText(n) + [LOWER_E]
    case BList(items) => [LOWER_L] + EncodeItems(items) + [LOWER_E]
    case BDictionary(entries) => [LOWER_D] + EncodeEntries(entries) + [LOWER_E]
  }

  /** The encodings of the items, one after the other. */
  ghost function EncodeItems(items: seq<BValue>): seq<byte>
    decreases items
  {
    if items == [] then [] else Encode(items[0]) + EncodeItems(items[1..])
  }

  /** Each entry's key encoding followed by its value encoding, in the given order. */
  ghost function EncodeEntries(entries: seq<(seq<byte>, BValue)>): seq<byte>
    decreases entries
  {
    if entries == [] then []
    else
      var e := entries[0];
      assert e.1 < e;
      EncodeString(e.0) + Encode(e.1) + EncodeEntries(entries[1..])
  }

  /** `s` occurs in `input` at `pos`. */
  ghost predicate At(input: seq<byte>, pos: nat, s: seq<byte>) {
    pos + |s| <= |input| && input[pos..pos + |s|] == s
  }

  lemma AtSplit(input: seq<byte>, pos: nat, s: seq<byte>, t: seq<byte>)
    requires At(input, pos, s + t)
    ensures At(input, pos, s) && At(input, pos + |s|, t)
  {
    assert input[pos..pos + |s|] == (s + t)[..|s|];
    assert input[pos + |s|..pos + |s| + |t|] == (s + t)[|s|..];
  }

  lemma {:induction false} IndexOfIs(input: seq<byte>, from: nat, b: byte, k: nat)
    requires from <= k < |input| && input[k] == b
    requires forall i :: from <= i < k ==> input[i] != b
    ensures IndexOf(input, from, b) == k
    decreases k - from
  {
    if from < k {
      IndexOfIs(input, from + 1, b, k);
    }
  }

  lemma LeadingDigitsOfDigits(s: seq<byte>)
    requires AllDigits(s)
    ensures LeadingDigits(s) == |s|
  {
  }

  /** A length-prefixed string with enough bytes behind it parses to exactly those bytes. */
  lemma ParseEncodedString(b: seq<byte>, input: seq<byte>, pos: nat, checkOrder: bool)
    requires At(input, pos, EncodeString(b))
    ensures Parse(input, pos, checkOrder) == Parsed(BString(b), pos + |EncodeString(b)|)
  {
    var d := DecimalText(|b|);
    AtSplit(input, pos, d + [COLON], b);
    var colon := LengthTextAt(|b|, input, pos);
    var start := pos + |d| + 1;
    StringAfterLength(input, pos, colon, start, |b|, checkOrder);
    assert input[start..start + |b|] == b;
  }

  /** The length text "<n>:" at `pos`: its digits run up to the first ':' and have value n. */
  lemma LengthTextAt(n: nat, input: seq<byte>, pos: nat) returns (colon: nat)
    requires At(input, pos, DecimalText(n) + [COLON])
    ensures colon == pos + |DecimalText(n)| && colon < |input|
    ensures IsDigit(input[pos]) && IndexOf(input, pos + 1, COLON) == colon
    ensures IsLengthText(input[pos..colon]) && LengthValue(input[pos..colon]) == n
  {
    var d := DecimalText(n);
    AtSplit(input, pos, d, [COLON]);
    FirstByteAt(input, pos, d);
    colon := pos + |d|;
    ByteAt(input, colon, COLON);
    forall i | pos + 1 <= i < colon ensures input[i] != COLON {
      assert input[i] == d[i - pos];
    }
    IndexOfIs(input, pos + 1, COLON, colon);
    assert input[pos..colon] == d;
    LeadingDigitsOfDigits(d);
    assert d[..LeadingDigits(d)] == d;
    DigitsValueOfDecimalText(n);
  }

  /** Once the length text up to the first ':' reads n, the n bytes behind it are the string. */
  lemma StringAfterLength(input: seq<byte>, pos: nat, colon: nat, start: nat, n: nat, checkOrder: bool)
    requires pos < colon < |input| && IsDigit(input[pos]) && IndexOf(input, pos + 1, COLON) == colon
    requires IsLengthText(input[pos..colon]) && LengthValue(input[pos..colon]) == n
    requires start == colon + 1
    ensures Parse(input, pos, checkOrder)
            == if start + n <= |input| then Parsed(BString(input[start..start + n]), start + n)
               else Rejected(UnexpectedEof())
  {
    assert input[pos + 1 - 1..colon] == input[pos..colon];
  }

  /** The canonical text of an integer parses back to that integer. */
  lemma ParseEncodedInteger(n: int, input: seq<byte>, pos: nat, checkOrder: bool)
    requires At(input, pos, Encode(BInteger(n)))
    ensures Parse(input, pos, checkOrder) == Parsed(BInteger(n), pos + |Encode(BInteger(n))|)
  {
    var t := IntText(n);
    var end := IntegerBodyAt(n, input, pos);
    IntTextAccepted(n);
    assert ParseBigInteger(input, pos + 1) == Parsed(BInteger(n), end + 1);
  }

  /** After the 'i', the body runs up to the first 'e' and is the integer's text. */
  lemma IntegerBodyAt(n: int, input: seq<byte>, pos: nat) returns (end: nat)
    requires At(input, pos, Encode(BInteger(n)))
    ensures end == pos + 1 + |IntText(n)| && end + 1 == pos + |Encode(BInteger(n))|
    ensures input[pos] == LOWER_I && end < |input|
    ensures IndexOf(input, pos + 1, LOWER_E) == end && input[pos + 1..end] == IntText(n)
  {
    var t := IntText(n);
    AtSplit(input, pos, [LOWER_I] + t, [LOWER_E]);
    AtSplit(input, pos, [LOWER_I], t);
    end := pos + 1 + |t|;
    forall i | pos + 1 <= i < end ensures input[i] != LOWER_E {
      assert input[i] == t[i - pos - 1];
    }
    IndexOfIs(input, pos + 1, LOWER_E, end);
  }

  /** The canonical text passes every check of `ParseBigInteger` and has value n. */
  lemma IntTextAccepted(n: int)
    ensures var t := IntText(n);
            && !(t[0] == ZERO && 2 <= |t|) && !(2 <= |t| && t[0] == MINUS && t[1] == ZERO)
            && IsIntegerText(t) && IntegerValue(t) == n
  {
    var t := IntText(n);
    assert WithoutTrailingNuls(t) == t;
    if n < 0 {
      assert t[1..] == DecimalText(-n);
      DigitsValueOfDecimalText(-n);
    } else {
      DigitsValueOfDecimalText(n);
    }
  }

  /** The first byte of an encoding is never the terminator 'e'. */
  lemma EncodeStartsWithPrefix(v: BValue)
    ensures Encode(v)[0] != LOWER_E
    ensures v.BString? ==> IsDigit(Encode(v)[0])
  {
  }

  /** Round trip: the parser reads back any well-formed value from its encoding. */
  lemma {:induction false} ParseEncoding(v: BValue, input: seq<byte>, pos: nat, checkOrder: bool)
    requires WellFormed(v) && At(input, pos, Encode(v))
    ensures Parse(input, pos, checkOrder) == Parsed(v, pos + |Encode(v)|)
    decreases v, 1
  {
    match v
    case BString(b) => ParseEncodedString(b, input, pos, checkOrder);
    case BInteger(n) => ParseEncodedInteger(n, input, pos, checkOrder);
    case BList(items) => ParseEncodedList(items, input, pos, checkOrder);
    case BDictionary(entries) => ParseEncodedDictionary(entries, input, pos, checkOrder);
  }

  lemma {:induction false} ParseEncodedList(items: seq<BValue>, input: seq<byte>, pos: nat, checkOrder: bool)
    requires forall i :: 0 <= i < |items| ==> WellFormed(items[i])
    requires At(input, pos, Encode(BList(items)))
    ensures Parse(input, pos, checkOrder) == Parsed(BList(items), pos + |Encode(BList(items))|)
    decreases BList(items), 0
  {
    var body := EncodeItems(items);
    assert Encode(BList(items)) == [LOWER_L] + body + [LOWER_E];
    var q := EnclosedAt(input, pos, LOWER_L, body);
    OpenList(input, pos, checkOrder);
    var end := ReadAllItems(items, input, pos + 1, checkOrder);
    CloseList(input, q, items, checkOrder);
  }

  /** From an empty list, the loop reads all of the encoded items. */
  lemma ReadAllItems(items: seq<BValue>, input: seq<byte>, start: nat, checkOrder: bool) returns (end: nat)
    requires forall i :: 0 <= i < |items| ==> WellFormed(items[i])
    requires At(input, start, EncodeItems(items))
    ensures end == start + |EncodeItems(items)|
    ensures ListItems(input, start, [], checkOrder) == ListItems(input, end, items, checkOrder)
    decreases items, 1
  {
    var none: seq<BValue> := [];
    assert none + items == items;
    SkipEncodedItems(items, none, input, start, checkOrder);
    end := start + |EncodeItems(items)|;
  }

  lemma {:induction false} ParseEncodedDictionary(entries: seq<(seq<byte>, BValue)>, input: seq<byte>,
                                                  pos: nat, checkOrder: bool)
    requires StrictlySorted(entries)
    requires forall i :: 0 <= i < |entries| ==> WellFormed(entries[i].1)
    requires At(input, pos, Encode(BDictionary(entries)))
    ensures Parse(input, pos, checkOrder)
         == Parsed(BDictionary(entries), pos + |Encode(BDictionary(entries))|)
    decreases BDictionary(entries), 0
  {
    var body := EncodeEntries(entries);
    assert Encode(BDictionary(entries)) == [LOWER_D] + body + [LOWER_E];
    var q := EnclosedAt(input, pos, LOWER_D, body);
    OpenDictionary(input, pos, checkOrder);
    var end := ReadAllEntries(entries, input, pos + 1, checkOrder);
    CloseDictionary(input, q, entries, checkOrder);
  }

  /** From an empty dictionary, the loop reads all of the encoded sorted entries. */
  lemma ReadAllEntries(entries: seq<(seq<byte>, BValue)>, input: seq<byte>, start: nat, checkOrder: bool)
      returns (end: nat)
    requires StrictlySorted(entries)
    requires forall i :: 0 <= i < |entries| ==> WellFormed(entries[i].1)
    requires At(input, start, EncodeEntries(entries))
    ensures end == start + |EncodeEntries(entries)|
    ensures DictEntries(input, start, [], checkOrder) == DictEntries(input, end, entries, checkOrder)
    decreases entries, 2
  {
    var none: seq<(seq<byte>, BValue)> := [];
    assert none + entries == entries;
    SkipEncodedEntries(entries, none, input, start, checkOrder);
    end := start + |EncodeEntries(entries)|;
  }

  /** A bracketed encoding: its opening byte, its body, and the 'e' that closes it. */
  lemma EnclosedAt(input: seq<byte>, pos: nat, open: byte, body: seq<byte>) returns (q: nat)
    requires At(input, pos, [open] + body + [LOWER_E])
    ensures q == pos + 1 + |body| && q < |input|
    ensures input[pos] == open && input[q] == LOWER_E && At(input, pos + 1, body)
  {
    AtSplit(input, pos, [open] + body, [LOWER_E]);
    AtSplit(input, pos, [open], body);
    q := pos + 1 + |body|;
    ByteAt(input, pos, open);
    ByteAt(input, q, LOWER_E);
  }

  lemma FirstByteAt(input: seq<byte>, q: nat, s: seq<byte>)
    requires |s| > 0 && At(input, q, s)
    ensures q < |input| && input[q] == s[0]
  {
    assert input[q..q + |s|][0] == input[q];
  }

  lemma ByteAt(input: seq<byte>, q: nat, b: byte)
    requires At(input, q, [b])
    ensures q < |input| && input[q] == b
  {
    assert input[q..q + 1][0] == input[q];
  }

  /** An `l` starts the list loop with nothing read. */
  lemma OpenList(input: seq<byte>, pos: nat, checkOrder: bool)
    requires pos < |input| && input[pos] == LOWER_L
    ensures Parse(input, pos, checkOrder) == ListItems(input, pos + 1, [], checkOrder)
  {
  }

  /** An 'e' where an item may start ends the list. */
  lemma CloseList(input: seq<byte>, q: nat, items: seq<BValue>, checkOrder: bool)
    requires q < |input| && input[q] == LOWER_E
    ensures ListItems(input, q, items, checkOrder) == Parsed(BList(items), q + 1)
  {
  }

  /** A `d` starts the dictionary loop with nothing stored. */
  lemma OpenDictionary(input: seq<byte>, pos: nat, checkOrder: bool)
    requires pos < |input| && input[pos] == LOWER_D
    ensures Parse(input, pos, checkOrder) == DictEntries(input, pos + 1, [], checkOrder)
  {
  }

  /** An 'e' where a key may start ends the dictionary. */
  lemma CloseDictionary(input: seq<byte>, q: nat, entries: seq<(seq<byte>, BValue)>, checkOrder: bool)
    requires q < |input| && input[q] == LOWER_E
    ensures DictEntries(input, q, entries, checkOrder) == Parsed(BDictionary(entries), q + 1)
  {
  }

  /** The list loop consumes encoded items one by one, in order. */
  lemma {:induction false} SkipEncodedItems(items: seq<BValue>, acc: seq<BValue>, input: seq<byte>,
                                            pos: nat, checkOrder: bool)
    requires forall i :: 0 <= i < |items| ==> WellFormed(items[i])
    requires At(input, pos, EncodeItems(items))
    ensures ListItems(input, pos, acc, checkOrder)
         == ListItems(input, pos + |EncodeItems(items)|, acc + items, checkOrder)
    decreases items, 0
  {
    if items == [] {
      assert acc + items == acc;
    } else {
      var item := items[0];
      var rest := items[1..];
      var first := Encode(item);
      assert EncodeItems(items) == first + EncodeItems(rest);
      AtSplit(input, pos, first, EncodeItems(rest));
      EncodeStartsWithPrefix(item);
      assert input[pos] == first[0];
      ParseEncoding(item, input, pos, checkOrder);
      var next := pos + |first|;
      ListStep(input, pos, acc, item, next, checkOrder);
      SkipEncodedItems(rest, acc + [item], input, next, checkOrder);
      assert acc + [item] + rest == acc + items;
    }
  }

  /** One turn of the list loop that reads an item. */
  lemma ListStep(input: seq<byte>, pos: nat, acc: seq<BValue>, item: BValue, next: nat, checkOrder: bool)
    requires pos < |input| && input[pos] != LOWER_E
    requires Parse(input, pos, checkOrder) == Parsed(item, next)
    ensures ListItems(input, pos, acc, checkOrder) == ListItems(input, next, acc + [item], checkOrder)
  {
  }

  /** One turn of the dictionary loop that stores a fresh, in-order key. */
  lemma DictStep(input: seq<byte>, pos: nat, acc: seq<(seq<byte>, BValue)>, key: seq<byte>,
                 afterKey: nat, value: BValue, next: nat, checkOrder: bool)
    requires pos < |input| && input[pos] != LOWER_E
    requires Parse(input, pos, checkOrder) == Parsed(BString(key), afterKey)
    requires afterKey <= |input| && Parse(input, afterKey, checkOrder) == Parsed(value, next)
    requires !OutOfOrder(acc, key, checkOrder) && !HasKey(acc, key)
    ensures DictEntries(input, pos, acc, checkOrder)
         == DictEntries(input, next, Insert(acc, key, value), checkOrder)
  {
  }

  /** In a strictly sorted `acc + [e] + rest`, the key of `e` continues the order of `acc`. */
  lemma SortedNext(acc: seq<(seq<byte>, BValue)>, entries: seq<(seq<byte>, BValue)>)
    requires StrictlySorted(acc + entries) && entries != []
    ensures StrictlySorted(acc) && StrictlySorted(acc + [entries[0]] + entries[1..])
    ensures |acc| > 0 ==> Less(acc[|acc| - 1].0, entries[0].0)
    ensures acc + [entries[0]] + entries[1..] == acc + entries
  {
    var all := acc + entries;
    assert acc + [entries[0]] + entries[1..] == all;
    assert forall i :: 0 <= i < |acc| ==> all[i] == acc[i];
    if |acc| > 0 {
      assert all[|acc| - 1] == acc[|acc| - 1] && all[|acc|] == entries[0];
    }
  }

  /** The first of the remaining sorted entries passes the order check and is appended. */
  lemma EntryInOrder(acc: seq<(seq<byte>, BValue)>, entries: seq<(seq<byte>, BValue)>, checkOrder: bool)
    requires entries != [] && StrictlySorted(acc + entries)
    ensures !OutOfOrder(acc, entries[0].0, checkOrder) && !HasKey(acc, entries[0].0)
    ensures Insert(acc, entries[0].0, entries[0].1) == acc + [entries[0]]
    ensures StrictlySorted(acc + [entries[0]] + entries[1..])
  {
    var e := entries[0];
    SortedNext(acc, entries);
    if |acc| > 0 {
      CompareBytesSign(acc[|acc| - 1].0, e.0);
    }
    GreaterKeyIsAbsent(acc, e.0);
    InsertGreatest(acc, e.0, e.1);
  }

  /** The dictionary loop stores the first encoded entry and stands after it. */
  lemma {:induction false} SkipEncodedEntry(entries: seq<(seq<byte>, BValue)>,
                                            acc: seq<(seq<byte>, BValue)>, input: seq<byte>,
                                            pos: nat, checkOrder: bool)
      returns (next: nat)
    requires entries != [] && StrictlySorted(acc + entries)
    requires WellFormed(entries[0].1)
    requires At(input, pos, EncodeEntries(entries))
    ensures next + |EncodeEntries(entries[1..])| == pos + |EncodeEntries(entries)|
    ensures At(input, next, EncodeEntries(entries[1..]))
    ensures StrictlySorted(acc + [entries[0]] + entries[1..])
    ensures DictEntries(input, pos, acc, checkOrder) == DictEntries(input, next, acc + [entries[0]], checkOrder)
    decreases entries, 0
  {
    var e := entries[0];
    assert e.1 < e;
    var keyText := EncodeString(e.0);
    var valueText := Encode(e.1);
    assert EncodeEntries(entries) == keyText + valueText + EncodeEntries(entries[1..]);
    AtSplit(input, pos, keyText + valueText, EncodeEntries(entries[1..]));
    AtSplit(input, pos, keyText, valueText);
    assert input[pos] == keyText[0];
    assert pos < |input| && input[pos] != LOWER_E;
    ParseEncodedString(e.0, input, pos, checkOrder);
    var afterKey := pos + |keyText|;
    ParseEncoding(e.1, input, afterKey, checkOrder);
    EntryInOrder(acc, entries, checkOrder);
    next := afterKey + |valueText|;
    assert Parse(input, pos, checkOrder) == Parsed(BString(e.0), afterKey);
    assert afterKey <= |input| && Parse(input, afterKey, checkOrder) == Parsed(e.1, next);
    DictStep(input, pos, acc, e.0, afterKey, e.1, next, checkOrder);
  }

  /**
   * The dictionary loop consumes encoded entries one by one when their keys
   * continue the strictly ascending order of the entries already stored.
   */
  lemma {:induction false} SkipEncodedEntries(entries: seq<(seq<byte>, BValue)>,
                                              acc: seq<(seq<byte>, BValue)>, input: seq<byte>,
                                              pos: nat, checkOrder: bool)
    requires StrictlySorted(acc + entries)
    requires forall i :: 0 <= i < |entries| ==> WellFormed(entries[i].1)
    requires At(input, pos, EncodeEntries(entries))
    ensures DictEntries(input, pos, acc, checkOrder)
         == DictEntries(input, pos + |EncodeEntries(entries)|, acc + entries, checkOrder)
    decreases entries, 1
  {
    if entries == [] {
      assert acc + entries == acc;
      assert |EncodeEntries(entries)| == 0;
    } else {
      var next := SkipEncodedEntry(entries, acc, input, pos, checkOrder);
      var rest := entries[1..];
      SortedNext(acc, entries);
      forall i | 0 <= i < |rest| ensures WellFormed(rest[i].1) {
        assert rest[i] == entries[i + 1];
      }
      var more := acc + [entries[0]];
      SkipEncodedEntries(rest, more, input, next, checkOrder);
      DictEntriesChain(input, pos, acc, next, more, pos + |EncodeEntries(entries)|, acc + entries, checkOrder);
    }
  }

  /** Two runs of the dictionary loop, one after the other. */
  lemma DictEntriesChain(input: seq<byte>, pos: nat, acc: seq<(seq<byte>, BValue)>,
                         mid: nat, midAcc: seq<(seq<byte>, BValue)>,
                         end: nat, endAcc: seq<(seq<byte>, BValue)>, checkOrder: bool)
    requires pos <= |input| && mid <= |input| && end <= |input|
    requires DictEntries(input, pos, acc, checkOrder) == DictEntries(input, mid, midAcc, checkOrder)
    requires DictEntries(input, mid, midAcc, checkOrder) == DictEntries(input, end, endAcc, checkOrder)
    ensures DictEntries(input, pos, acc, checkOrder) == DictEntries(input, end, endAcc, checkOrder)
  {
  }
}
