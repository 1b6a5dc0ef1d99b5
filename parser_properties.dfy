/**
 * What the bencode parser promises, stated against the ghost encoder of
 * `Encoding`: prefix dispatch, the string and integer rules, how errors
 * surface from inside lists and dictionaries, and how key order is treated.
 */
module ParserProperties {
  import opened Bytes
  import opened Errors
  import opened Values
  import opened Bencode
  import opened Encoding

  // ---------------------------------------------------------------------------
  // Dispatch on the first byte

  /**
   * An exhausted input is an end-of-stream error; a byte that starts no value
   * is an invalid prefix; and a value, when one is read, is of the kind its
   * first byte announces.
   */
  lemma Dispatch(input: seq<byte>, pos: nat, checkOrder: bool)
    requires pos <= |input|
    ensures pos == |input| ==> Parse(input, pos, checkOrder) == Rejected(UnexpectedEof())
    ensures pos < |input| && !IsDigit(input[pos])
            && input[pos] != LOWER_I && input[pos] != LOWER_L && input[pos] != LOWER_D
            ==> Parse(input, pos, checkOrder) == Rejected(InvalidPrefixChar(CharOf(input[pos])))
    ensures Parse(input, pos, checkOrder).Parsed? ==>
              var v := Parse(input, pos, checkOrder).value;
              && (v.BString? <==> IsDigit(input[pos]))
              && (v.BInteger? <==> input[pos] == LOWER_I)
              && (v.BList? <==> input[pos] == LOWER_L)
              && (v.BDictionary? <==> input[pos] == LOWER_D)
  {
  }

  // ---------------------------------------------------------------------------
  // Strings

  /**
   * After the length text "<n>:" the parser takes exactly the next n bytes
   * and stops behind them; with fewer than n bytes left it reports the end
   * of the stream.
   */
  lemma StringOfLength(n: nat, input: seq<byte>, pos: nat, checkOrder: bool)
    requires At(input, pos, DecimalText(n) + [COLON])
    ensures var start := pos + |DecimalText(n)| + 1;
            Parse(input, pos, checkOrder)
            == if start + n <= |input| then Parsed(BString(input[start..start + n]), start + n)
               else Rejected(UnexpectedEof())
  {
    var colon := LengthTextAt(n, input, pos);
    StringAfterLength(input, pos, colon, pos + |DecimalText(n)| + 1, n, checkOrder);
  }


  /** A string is rejected with MissingColon exactly when no ':' follows its first digit. */
  lemma MissingColonIff(input: seq<byte>, pos: nat, checkOrder: bool)
    requires pos < |input| && IsDigit(input[pos])
    ensures Parse(input, pos, checkOrder) == Rejected(MissingColon)
            <==> forall i :: pos < i < |input| ==> input[i] != COLON
  {
    var colon := IndexOf(input, pos + 1, COLON);
    IndexOfFirst(input, pos + 1, COLON);
    if colon < |input| {
      assert UnexpectedEof() != MissingColon;
    }
  }

  // ---------------------------------------------------------------------------
  // Integers

  /** Without a closing 'e' after it, an 'i' is an unclosed prefix. */
  lemma IntegerUnclosed(input: seq<byte>, pos: nat, checkOrder: bool)
    requires pos < |input| && input[pos] == LOWER_I
    requires forall i :: pos < i < |input| ==> input[i] != LOWER_E
    ensures Parse(input, pos, checkOrder) == Rejected(UnclosedPrefix('i'))
  {
    IndexOfFirst(input, pos + 1, LOWER_E);
  }

  /** k NUL bytes. */
  function Nuls(k: nat): (r: seq<byte>)
    ensures |r| == k && forall i :: 0 <= i < k ==> r[i] == NUL
  {
    seq(k, _ => NUL)
  }

  /**
   * The integer rules for a body between 'i' and the first 'e': empty,
   * leading-zero and minus-zero bodies have their own errors, any other
   * rejection is "Invalid integer format", and a body is accepted exactly
   * when it is the canonical text of its value followed by NULs, with zero
   * written as "0" alone.
   */
  lemma IntegerBody(body: seq<byte>, input: seq<byte>, pos: nat, checkOrder: bool)
    requires At(input, pos, [LOWER_I] + body + [LOWER_E])
    requires forall i :: 0 <= i < |body| ==> body[i] != LOWER_E
    ensures body == [] ==> Parse(input, pos, checkOrder) == Rejected(EmptyInteger)
    ensures 2 <= |body| && body[0] == ZERO ==> Parse(input, pos, checkOrder) == Rejected(LeadingZeros)
    ensures 2 <= |body| && body[0] == MINUS && body[1] == ZERO
            ==> Parse(input, pos, checkOrder) == Rejected(MinusZero)
    ensures Parse(input, pos, checkOrder).Rejected? ==>
              Parse(input, pos, checkOrder).error in {EmptyInteger, LeadingZeros, MinusZero, InvalidIntegerFormat}
    ensures Parse(input, pos, checkOrder).Parsed? ==>
              && Parse(input, pos, checkOrder).value.BInteger?
              && PaddedIntText(body, Parse(input, pos, checkOrder).value.n)
              && Parse(input, pos, checkOrder).next == pos + |body| + 2
    ensures forall n :: PaddedIntText(body, n) ==> Parse(input, pos, checkOrder) == Parsed(BInteger(n), pos + |body| + 2)
  {
    AtSplit(input, pos, [LOWER_I] + body, [LOWER_E]);
    AtSplit(input, pos, [LOWER_I], body);
    var end := pos + 1 + |body|;
    forall i | pos + 1 <= i < end ensures input[i] != LOWER_E {
      assert input[i] == body[i - pos - 1];
    }
    IndexOfIs(input, pos + 1, LOWER_E, end);
    assert input[pos + 1..end] == body;
    var r := Parse(input, pos, checkOrder);
    if r.Parsed? {
      CanonicalIntegerText(body);
    }
    forall n | PaddedIntText(body, n) ensures r == Parsed(BInteger(n), pos + |body| + 2) {
      PaddedIntTextAccepted(n, |body| - |IntText(n)|);
    }
  }

  /**
   * `body` is the canonical text of n followed by NULs only; zero takes no
   * NULs, since "0" followed by anything is a leading zero.
   */
  ghost predicate PaddedIntText(body: seq<byte>, n: int) {
    var t := IntText(n);
    |t| <= |body| && body == t + Nuls(|body| - |t|) && (n == 0 ==> body == t)
  }

  /** A body the parser accepts is the canonical text of the value it yields, padded with NULs. */
  lemma CanonicalIntegerText(body: seq<byte>)
    requires IsIntegerText(body) && body != []
    requires !(2 <= |body| && body[0] == ZERO)
    requires !(2 <= |body| && body[0] == MINUS && body[1] == ZERO)
    ensures PaddedIntText(body, IntegerValue(body))
  {
    var t := WithoutTrailingNuls(body);
    var n := IntegerValue(body);
    assert t[0] == body[0];
    if t[0] == MINUS {
      var digits := t[1..];
      assert digits[0] == body[1];
      assert IsCanonicalNumeral(digits);
      DecimalTextOfDigitsValue(digits);
      NonZeroLeadPositive(digits);
      assert t == [MINUS] + digits;
    } else {
      assert IsCanonicalNumeral(t);
      DecimalTextOfDigitsValue(t);
      if t[0] != ZERO {
        NonZeroLeadPositive(t);
      }
    }
    assert t == IntText(n);
    assert body == t + body[|t|..];
    assert body[|t|..] == Nuls(|body| - |t|);
  }

  /** NULs after a text that does not end in NUL are exactly what is stripped. */
  lemma {:induction false} StripPadding(t: seq<byte>, k: nat)
    requires t != [] && t[|t| - 1] != NUL
    ensures WithoutTrailingNuls(t + Nuls(k)) == t
  {
    if k > 0 {
      assert (t + Nuls(k))[..|t| + k - 1] == t + Nuls(k - 1);
      StripPadding(t, k - 1);
    }
  }

  /** The canonical text of n, padded with NULs (none for zero), passes every check with value n. */
  lemma PaddedIntTextAccepted(n: int, k: nat)
    requires n == 0 ==> k == 0
    ensures var body := IntText(n) + Nuls(k);
            && body != []
            && !(2 <= |body| && body[0] == ZERO)
            && !(2 <= |body| && body[0] == MINUS && body[1] == ZERO)
            && IsIntegerText(body) && IntegerValue(body) == n
  {
    var t := IntText(n);
    IntTextAccepted(n);
    StripPadding(t, k);
    assert WithoutTrailingNuls(t) == t;
  }


  // ---------------------------------------------------------------------------
  // Lists

  /** End of input after some complete items, before the 'e', is an unclosed list. */
  lemma ListUnclosed(items: seq<BValue>, input: seq<byte>, pos: nat, checkOrder: bool)
    requires forall i :: 0 <= i < |items| ==> WellFormed(items[i])
    requires At(input, pos, [LOWER_L] + EncodeItems(items))
    requires |input| == pos + 1 + |EncodeItems(items)|
    ensures Parse(input, pos, checkOrder) == Rejected(UnclosedPrefix('l'))
  {
    AtSplit(input, pos, [LOWER_L], EncodeItems(items));
    assert input[pos] == LOWER_L;
    SkipEncodedItems(items, [], input, pos + 1, checkOrder);
  }

  /** The first item that fails decides the list's outcome, unchanged. */
  lemma ListFirstError(items: seq<BValue>, input: seq<byte>, pos: nat, checkOrder: bool)
    requires forall i :: 0 <= i < |items| ==> WellFormed(items[i])
    requires At(input, pos, [LOWER_L] + EncodeItems(items))
    requires pos + 1 + |EncodeItems(items)| < |input|
    requires input[pos + 1 + |EncodeItems(items)|] != LOWER_E
    requires !Parse(input, pos + 1 + |EncodeItems(items)|, checkOrder).Parsed?
    ensures Parse(input, pos, checkOrder) == Parse(input, pos + 1 + |EncodeItems(items)|, checkOrder)
  {
    AtSplit(input, pos, [LOWER_L], EncodeItems(items));
    assert input[pos] == LOWER_L;
    SkipEncodedItems(items, [], input, pos + 1, checkOrder);
  }

  // ---------------------------------------------------------------------------
  // Dictionaries

  /**
   * Entries that are in order, stored so far, and the position behind them:
   * the common shape of the dictionary lemmas below.
   */
  ghost predicate EntriesRead(entries: seq<(seq<byte>, BValue)>, input: seq<byte>, pos: nat) {
    && StrictlySorted(entries)
    && (forall i :: 0 <= i < |entries| ==> WellFormed(entries[i].1))
    && At(input, pos, [LOWER_D] + EncodeEntries(entries))
  }

  lemma EnterDictionary(entries: seq<(seq<byte>, BValue)>, input: seq<byte>, pos: nat, checkOrder: bool)
      returns (q: nat)
    requires EntriesRead(entries, input, pos)
    ensures q == pos + 1 + |EncodeEntries(entries)|
    ensures Parse(input, pos, checkOrder) == DictEntries(input, q, entries, checkOrder)
  {
    AtSplit(input, pos, [LOWER_D], EncodeEntries(entries));
    ByteAt(input, pos, LOWER_D);
    OpenDictionary(input, pos, checkOrder);
    q := ReadAllEntries(entries, input, pos + 1, checkOrder);
  }

  /** End of input after complete entries, before the 'e', is an unclosed dictionary. */
  lemma DictionaryUnclosed(entries: seq<(seq<byte>, BValue)>, input: seq<byte>, pos: nat, checkOrder: bool)
    requires EntriesRead(entries, input, pos)
    requires |input| == pos + 1 + |EncodeEntries(entries)|
    ensures Parse(input, pos, checkOrder) == Rejected(UnclosedPrefix('d'))
  {
    var q := EnterDictionary(entries, input, pos, checkOrder);
  }

  /** A key that is not a byte string is rejected, whatever follows it. */
  lemma DictionaryKeyNotString(entries: seq<(seq<byte>, BValue)>, key: BValue, input: seq<byte>,
                               pos: nat, checkOrder: bool)
    requires EntriesRead(entries, input, pos) && WellFormed(key) && !key.BString?
    requires At(input, pos + 1 + |EncodeEntries(entries)|, Encode(key))
    ensures Parse(input, pos, checkOrder) == Rejected(KeyIsNotString)
  {
    var q := EnterDictionary(entries, input, pos, checkOrder);
    EncodeStartsWithPrefix(key);
    FirstByteAt(input, q, Encode(key));
    ParseEncoding(key, input, q, checkOrder);
  }

  /**
   * A key followed directly by 'e' is a key without a value; the error names
   * the key.
   */
  lemma DictionaryMissingValue(entries: seq<(seq<byte>, BValue)>, key: seq<byte>, input: seq<byte>,
                               pos: nat, checkOrder: bool)
    requires EntriesRead(entries, input, pos)
    requires !checkOrder || entries == [] || Less(entries[|entries| - 1].0, key)
    requires At(input, pos + 1 + |EncodeEntries(entries)|, EncodeString(key) + [LOWER_E])
    ensures Parse(input, pos, checkOrder) == Rejected(MissingDictionaryValues(Text(key)))
  {
    var q := EnterDictionary(entries, input, pos, checkOrder);
    MissingValueAt(entries, key, input, q, checkOrder);
  }

  /** A fresh, in-order key read at `q` passes the order check. */
  lemma KeyAt(entries: seq<(seq<byte>, BValue)>, key: seq<byte>, input: seq<byte>, q: nat, checkOrder: bool)
    requires !checkOrder || entries == [] || Less(entries[|entries| - 1].0, key)
    requires At(input, q, EncodeString(key))
    ensures q < |input| && input[q] != LOWER_E
    ensures Parse(input, q, checkOrder) == Parsed(BString(key), q + |EncodeString(key)|)
    ensures !OutOfOrder(entries, key, checkOrder)
  {
    EncodeStartsWithPrefix(BString(key));
    FirstByteAt(input, q, EncodeString(key));
    ParseEncodedString(key, input, q, checkOrder);
    if entries != [] {
      CompareBytesSign(entries[|entries| - 1].0, key);
    }
  }

  lemma MissingValueAt(entries: seq<(seq<byte>, BValue)>, key: seq<byte>, input: seq<byte>, q: nat,
                       checkOrder: bool)
    requires !checkOrder || entries == [] || Less(entries[|entries| - 1].0, key)
    requires At(input, q, EncodeString(key) + [LOWER_E])
    ensures DictEntries(input, q, entries, checkOrder) == Rejected(MissingDictionaryValues(Text(key)))
  {
    AtSplit(input, q, EncodeString(key), [LOWER_E]);
    KeyAt(entries, key, input, q, checkOrder);
    var v := q + |EncodeString(key)|;
    assert input[v] == LOWER_E;
    assert CharOf(LOWER_E) == 'e';
    assert Parse(input, v, checkOrder) == Rejected(InvalidPrefixChar('e'));
  }

  /**
   * Any other failure of a value is the dictionary's outcome, unchanged; only
   * the invalid prefix 'e' is rewritten.
   */
  lemma DictionaryValueError(entries: seq<(seq<byte>, BValue)>, key: seq<byte>, input: seq<byte>,
                             pos: nat, checkOrder: bool)
    requires EntriesRead(entries, input, pos)
    requires !checkOrder || entries == [] || Less(entries[|entries| - 1].0, key)
    requires At(input, pos + 1 + |EncodeEntries(entries)|, EncodeString(key))
    requires ValueFails(input, pos + 1 + |EncodeEntries(entries)| + |EncodeString(key)|, checkOrder)
    ensures Parse(input, pos, checkOrder)
         == Parse(input, pos + 1 + |EncodeEntries(entries)| + |EncodeString(key)|, checkOrder)
  {
    var q := EnterDictionary(entries, input, pos, checkOrder);
    ValueErrorAt(entries, key, input, q, pos + 1 + |EncodeEntries(entries)| + |EncodeString(key)|, checkOrder);
  }

  /** The value read at `v` fails with something other than the invalid prefix 'e'. */
  ghost predicate ValueFails(input: seq<byte>, v: nat, checkOrder: bool) {
    v <= |input| && !Parse(input, v, checkOrder).Parsed?
    && Parse(input, v, checkOrder) != Rejected(InvalidPrefixChar('e'))
  }

  lemma ValueErrorAt(entries: seq<(seq<byte>, BValue)>, key: seq<byte>, input: seq<byte>, q: nat, v: nat,
                     checkOrder: bool)
    requires !checkOrder || entries == [] || Less(entries[|entries| - 1].0, key)
    requires At(input, q, EncodeString(key)) && v == q + |EncodeString(key)|
    requires ValueFails(input, v, checkOrder)
    ensures DictEntries(input, q, entries, checkOrder) == Parse(input, v, checkOrder)
  {
    KeyAt(entries, key, input, q, checkOrder);
  }

  /**
   * With key order checked, a key that is not strictly greater than the one
   * before it is rejected as soon as it is read.
   */
  lemma DictionaryUnorderedKey(entries: seq<(seq<byte>, BValue)>, key: seq<byte>, input: seq<byte>,
                               pos: nat)
    requires EntriesRead(entries, input, pos) && entries != []
    requires !Less(entries[|entries| - 1].0, key)
    requires At(input, pos + 1 + |EncodeEntries(entries)|, EncodeString(key))
    ensures Parse(input, pos, true) == Rejected(UnorderedKeys)
  {
    var q := EnterDictionary(entries, input, pos, true);
    EncodeStartsWithPrefix(BString(key));
    FirstByteAt(input, q, EncodeString(key));
    ParseEncodedString(key, input, q, true);
    CompareBytesSign(entries[|entries| - 1].0, key);
  }

  /**
   * A repeated key: with key order checked it is an unordered key; without the
   * check, `SortedDictionary.Add` throws once its value has been read.
   */
  lemma DictionaryRepeatedKey(entries: seq<(seq<byte>, BValue)>, key: seq<byte>, value: BValue,
                              input: seq<byte>, pos: nat)
    requires EntriesRead(entries, input, pos) && HasKey(entries, key) && WellFormed(value)
    requires At(input, pos + 1 + |EncodeEntries(entries)|, EncodeString(key) + Encode(value))
    ensures Parse(input, pos, true) == Rejected(UnorderedKeys)
    ensures Parse(input, pos, false) == Threw(DuplicateKey(key))
  {
    RepeatedKeyChecked(entries, key, value, input, pos);
    RepeatedKeyUnchecked(entries, key, value, input, pos);
  }

  lemma RepeatedKeyChecked(entries: seq<(seq<byte>, BValue)>, key: seq<byte>, value: BValue,
                           input: seq<byte>, pos: nat)
    requires EntriesRead(entries, input, pos) && HasKey(entries, key) && WellFormed(value)
    requires At(input, pos + 1 + |EncodeEntries(entries)|, EncodeString(key) + Encode(value))
    ensures Parse(input, pos, true) == Rejected(UnorderedKeys)
  {
    AtSplit(input, pos + 1 + |EncodeEntries(entries)|, EncodeString(key), Encode(value));
    StoredKeyNotGreater(entries, key);
    DictionaryUnorderedKey(entries, key, input, pos);
  }

  lemma RepeatedKeyUnchecked(entries: seq<(seq<byte>, BValue)>, key: seq<byte>, value: BValue,
                             input: seq<byte>, pos: nat)
    requires EntriesRead(entries, input, pos) && HasKey(entries, key) && WellFormed(value)
    requires At(input, pos + 1 + |EncodeEntries(entries)|, EncodeString(key) + Encode(value))
    ensures Parse(input, pos, false) == Threw(DuplicateKey(key))
  {
    var q := EnterDictionary(entries, input, pos, false);
    RepeatedKeyAt(entries, key, value, input, q);
  }

  lemma RepeatedKeyAt(entries: seq<(seq<byte>, BValue)>, key: seq<byte>, value: BValue,
                      input: seq<byte>, q: nat)
    requires HasKey(entries, key) && WellFormed(value)
    requires At(input, q, EncodeString(key) + Encode(value))
    ensures DictEntries(input, q, entries, false) == Threw(DuplicateKey(key))
  {
    AtSplit(input, q, EncodeString(key), Encode(value));
    KeyAt(entries, key, input, q, false);
    var afterKey := q + |EncodeString(key)|;
    ParseEncoding(value, input, afterKey, false);
    DictDuplicate(input, q, entries, key, afterKey, value, afterKey + |Encode(value)|);
  }

  /** One turn of the unchecked dictionary loop whose key is already stored. */
  lemma DictDuplicate(input: seq<byte>, q: nat, entries: seq<(seq<byte>, BValue)>, key: seq<byte>,
                      afterKey: nat, value: BValue, next: nat)
    requires q < |input| && input[q] != LOWER_E
    requires Parse(input, q, false) == Parsed(BString(key), afterKey)
    requires afterKey <= |input| && Parse(input, afterKey, false) == Parsed(value, next)
    requires HasKey(entries, key)
    ensures DictEntries(input, q, entries, false) == Threw(DuplicateKey(key))
  {
  }

  /** A key already stored in a sorted dictionary is not greater than its last key. */
  lemma StoredKeyNotGreater(entries: seq<(seq<byte>, BValue)>, key: seq<byte>)
    requires StrictlySorted(entries) && HasKey(entries, key)
    ensures !Less(entries[|entries| - 1].0, key)
  {
    var i :| 0 <= i < |entries| && entries[i].0 == key;
    var last := entries[|entries| - 1].0;
    if i < |entries| - 1 {
      LessTrichotomy(key, last);
    } else {
      LessIrreflexive(key);
    }
  }
}
