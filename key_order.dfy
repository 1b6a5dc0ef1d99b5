/**
 * How the dictionary parser treats key order. Every dictionary it yields is
 * strictly sorted by raw key bytes, in either mode. With the order check on,
 * the only outcome that differs from the unchecked parse is UnorderedKeys,
 * and encoded entries are accepted exactly when they come in ascending key
 * order. With the check off, distinct keys are accepted in any order and
 * stored sorted, as a `SortedDictionary` filled in input order stores them.
 */
module KeyOrder {
  import opened Bytes
  import opened Errors
  import opened Values
  import opened Bencode
  import opened Encoding
  import opened ParserProperties

  // ---------------------------------------------------------------------------
  // Every parsed value is well formed

  /** Every dictionary the parser yields, at any depth, has strictly ascending keys. */
  lemma {:induction false} ParsedWellFormed(input: seq<byte>, pos: nat, checkOrder: bool)
    requires pos <= |input|
    ensures Parse(input, pos, checkOrder).Parsed? ==> WellFormed(Parse(input, pos, checkOrder).value)
    decreases |input| - pos, 1
  {
    if pos < |input| {
      if input[pos] == LOWER_L {
        ListItemsWellFormed(input, pos + 1, [], checkOrder);
      } else if input[pos] == LOWER_D {
        DictEntriesWellFormed(input, pos + 1, [], checkOrder);
      }
    }
  }

  lemma {:induction false} ListItemsWellFormed(input: seq<byte>, pos: nat, items: seq<BValue>, checkOrder: bool)
    requires pos <= |input|
    requires forall i :: 0 <= i < |items| ==> WellFormed(items[i])
    ensures ListItems(input, pos, items, checkOrder).Parsed? ==>
              WellFormed(ListItems(input, pos, items, checkOrder).value)
    decreases |input| - pos, 2
  {
    if pos < |input| && input[pos] != LOWER_E {
      var r := Parse(input, pos, checkOrder);
      if r.Parsed? {
        ParsedWellFormed(input, pos, checkOrder);
        var more := items + [r.value];
        assert forall i :: 0 <= i < |more| ==> WellFormed(more[i]) by {
          forall i | 0 <= i < |more| ensures WellFormed(more[i]) {
            if i < |items| {
              assert more[i] == items[i];
            }
          }
        }
        ListItemsWellFormed(input, r.next, more, checkOrder);
      }
    }
  }

  lemma {:induction false} DictEntriesWellFormed(input: seq<byte>, pos: nat, entries: seq<(seq<byte>, BValue)>,
                                                 checkOrder: bool)
    requires pos <= |input|
    requires StrictlySorted(entries) && forall i :: 0 <= i < |entries| ==> WellFormed(entries[i].1)
    ensures DictEntries(input, pos, entries, checkOrder).Parsed? ==>
              WellFormed(DictEntries(input, pos, entries, checkOrder).value)
    decreases |input| - pos, 2
  {
    if pos < |input| && input[pos] != LOWER_E {
      var k := Parse(input, pos, checkOrder);
      if k.Parsed? && k.value.BString? && !OutOfOrder(entries, k.value.bytes, checkOrder) {
        var v := Parse(input, k.next, checkOrder);
        if v.Parsed? && !HasKey(entries, k.value.bytes) {
          ParsedWellFormed(input, k.next, checkOrder);
          InsertSorted(entries, k.value.bytes, v.value);
          var more := Insert(entries, k.value.bytes, v.value);
          forall i | 0 <= i < |more| ensures WellFormed(more[i].1) {
            assert more[i] in more;
            if more[i] != (k.value.bytes, v.value) {
              var j :| 0 <= j < |entries| && entries[j] == more[i];
            }
          }
          DictEntriesWellFormed(input, v.next, more, checkOrder);
        }
      }
    }
  }

  // ---------------------------------------------------------------------------
  // Checked and unchecked parses agree except for UnorderedKeys

  /**
   * Turning the order check on changes nothing but the outcome UnorderedKeys:
   * any other checked outcome, a value included, is also the unchecked one.
   */
  lemma {:induction false} CheckedAgreesWithUnchecked(input: seq<byte>, pos: nat)
    requires pos <= |input|
    ensures Parse(input, pos, true) != Rejected(UnorderedKeys) ==> Parse(input, pos, false) == Parse(input, pos, true)
    decreases |input| - pos, 1
  {
    if pos < |input| {
      if input[pos] == LOWER_L {
        ListItemsAgree(input, pos + 1, []);
      } else if input[pos] == LOWER_D {
        DictEntriesAgree(input, pos + 1, []);
      }
    }
  }

  lemma {:induction false} ListItemsAgree(input: seq<byte>, pos: nat, items: seq<BValue>)
    requires pos <= |input|
    ensures ListItems(input, pos, items, true) != Rejected(UnorderedKeys) ==>
              ListItems(input, pos, items, false) == ListItems(input, pos, items, true)
    decreases |input| - pos, 2
  {
    if pos < |input| && input[pos] != LOWER_E {
      CheckedAgreesWithUnchecked(input, pos);
      var r := Parse(input, pos, true);
      if r.Parsed? {
        ListItemsAgree(input, r.next, items + [r.value]);
      }
    }
  }

  lemma {:induction false} DictEntriesAgree(input: seq<byte>, pos: nat, entries: seq<(seq<byte>, BValue)>)
    requires pos <= |input|
    ensures DictEntries(input, pos, entries, true) != Rejected(UnorderedKeys) ==>
              DictEntries(input, pos, entries, false) == DictEntries(input, pos, entries, true)
    decreases |input| - pos, 2
  {
    if pos < |input| && input[pos] != LOWER_E {
      CheckedAgreesWithUnchecked(input, pos);
      var k := Parse(input, pos, true);
      if k.Parsed? && k.value.BString? && !OutOfOrder(entries, k.value.bytes, true) {
        CheckedAgreesWithUnchecked(input, k.next);
        var v := Parse(input, k.next, true);
        if v.Rejected? {
          FixedErrorsDistinct();
          OnlyPrefixEIsRewritten('e', Text(k.value.bytes));
        }
        if v.Parsed? && !HasKey(entries, k.value.bytes) {
          DictEntriesAgree(input, v.next, Insert(entries, k.value.bytes, v.value));
        }
      }
    }
  }

  // ---------------------------------------------------------------------------
  // With the check on, no key is ever added twice

  /** With key order checked, `SortedDictionary.Add` is never handed a repeated key. */
  lemma {:induction false} CheckedNeverDuplicates(input: seq<byte>, pos: nat)
    requires pos <= |input|
    ensures forall k :: Parse(input, pos, true) != Threw(DuplicateKey(k))
    decreases |input| - pos, 1
  {
    if pos < |input| {
      if input[pos] == LOWER_L {
        ListItemsNeverDuplicate(input, pos + 1, []);
      } else if input[pos] == LOWER_D {
        DictEntriesNeverDuplicate(input, pos + 1, []);
      }
    }
  }

  lemma {:induction false} ListItemsNeverDuplicate(input: seq<byte>, pos: nat, items: seq<BValue>)
    requires pos <= |input|
    ensures forall k :: ListItems(input, pos, items, true) != Threw(DuplicateKey(k))
    decreases |input| - pos, 2
  {
    if pos < |input| && input[pos] != LOWER_E {
      CheckedNeverDuplicates(input, pos);
      var r := Parse(input, pos, true);
      if r.Parsed? {
        ListItemsNeverDuplicate(input, r.next, items + [r.value]);
      }
    }
  }

  lemma {:induction false} DictEntriesNeverDuplicate(input: seq<byte>, pos: nat, entries: seq<(seq<byte>, BValue)>)
    requires pos <= |input| && StrictlySorted(entries)
    ensures forall k :: DictEntries(input, pos, entries, true) != Threw(DuplicateKey(k))
    decreases |input| - pos, 2
  {
    if pos < |input| && input[pos] != LOWER_E {
      CheckedNeverDuplicates(input, pos);
      var k := Parse(input, pos, true);
      if k.Parsed? && k.value.BString? && !OutOfOrder(entries, k.value.bytes, true) {
        var key := k.value.bytes;
        CheckedNeverDuplicates(input, k.next);
        var v := Parse(input, k.next, true);
        if v.Parsed? {
          if HasKey(entries, key) {
            StoredKeyNotGreater(entries, key);
            CompareBytesSign(entries[|entries| - 1].0, key);
            assert false;
          }
          InsertSorted(entries, key, v.value);
          DictEntriesNeverDuplicate(input, v.next, Insert(entries, key, v.value));
        }
      }
    }
  }

  // ---------------------------------------------------------------------------
  // With the check off: any order of distinct keys

  /** Keys pairwise distinct. */
  ghost predicate DistinctKeys(entries: seq<(seq<byte>, BValue)>) {
    forall i, j :: 0 <= i < j < |entries| ==> entries[i].0 != entries[j].0
  }

  /** No key of `entries` is stored in `acc`. */
  ghost predicate FreshKeys(acc: seq<(seq<byte>, BValue)>, entries: seq<(seq<byte>, BValue)>) {
    forall i :: 0 <= i < |entries| ==> !HasKey(acc, entries[i].0)
  }

  /** `SortedDictionary.Add` of each entry in turn, starting from `acc`. */
  ghost function InsertAll(acc: seq<(seq<byte>, BValue)>, entries: seq<(seq<byte>, BValue)>)
    : seq<(seq<byte>, BValue)>
    decreases entries
  {
    if entries == [] then acc
    else InsertAll(Insert(acc, entries[0].0, entries[0].1), entries[1..])
  }

  /** The keys after an insertion are the old keys and the inserted one. */
  lemma InsertedKeys(acc: seq<(seq<byte>, BValue)>, key: seq<byte>, value: BValue, x: seq<byte>)
    requires StrictlySorted(acc) && !HasKey(acc, key)
    ensures HasKey(Insert(acc, key, value), x) ==> HasKey(acc, x) || x == key
  {
    InsertSorted(acc, key, value);
    var more := Insert(acc, key, value);
    if HasKey(more, x) {
      var j :| 0 <= j < |more| && more[j].0 == x;
      assert more[j] in more;
    }
  }

  /** After inserting the first entry, the other keys are still fresh. */
  lemma FreshAfterInsert(acc: seq<(seq<byte>, BValue)>, entries: seq<(seq<byte>, BValue)>)
    requires entries != [] && StrictlySorted(acc) && DistinctKeys(entries) && FreshKeys(acc, entries)
    ensures FreshKeys(Insert(acc, entries[0].0, entries[0].1), entries[1..])
    ensures DistinctKeys(entries[1..])
  {
    var e := entries[0];
    var rest := entries[1..];
    InsertSorted(acc, e.0, e.1);
    var more := Insert(acc, e.0, e.1);
    forall i | 0 <= i < |rest| ensures !HasKey(more, rest[i].0) {
      assert rest[i] == entries[i + 1];
      InsertedKeys(acc, e.0, e.1, rest[i].0);
    }
  }

  /** Filling a sorted dictionary keeps it sorted and stores exactly the entries given. */
  lemma {:induction false} InsertAllSorted(acc: seq<(seq<byte>, BValue)>, entries: seq<(seq<byte>, BValue)>)
    requires StrictlySorted(acc) && DistinctKeys(entries) && FreshKeys(acc, entries)
    ensures StrictlySorted(InsertAll(acc, entries))
    ensures forall e :: e in InsertAll(acc, entries) <==> e in acc || e in entries
    decreases entries
  {
    if entries != [] {
      var e := entries[0];
      InsertSorted(acc, e.0, e.1);
      FreshAfterInsert(acc, entries);
      InsertAllSorted(Insert(acc, e.0, e.1), entries[1..]);
      assert entries == [e] + entries[1..];
    }
  }

  /** Without the order check, the dictionary loop adds the encoded entries in turn. */
  lemma {:induction false} SkipUncheckedEntries(entries: seq<(seq<byte>, BValue)>, acc: seq<(seq<byte>, BValue)>,
                                                input: seq<byte>, pos: nat)
    requires StrictlySorted(acc) && DistinctKeys(entries) && FreshKeys(acc, entries)
    requires forall i :: 0 <= i < |entries| ==> WellFormed(entries[i].1)
    requires At(input, pos, EncodeEntries(entries))
    ensures DictEntries(input, pos, acc, false)
         == DictEntries(input, pos + |EncodeEntries(entries)|, InsertAll(acc, entries), false)
    decreases entries
  {
    if entries == [] {
      assert |EncodeEntries(entries)| == 0;
    } else {
      var next := SkipUncheckedEntry(entries, acc, input, pos);
      InsertSorted(acc, entries[0].0, entries[0].1);
      FreshAfterInsert(acc, entries);
      var rest := entries[1..];
      forall i | 0 <= i < |rest| ensures WellFormed(rest[i].1) {
        assert rest[i] == entries[i + 1];
      }
      var more := Insert(acc, entries[0].0, entries[0].1);
      SkipUncheckedEntries(rest, more, input, next);
      assert InsertAll(acc, entries) == InsertAll(more, rest);
      DictEntriesChain(input, pos, acc, next, more, pos + |EncodeEntries(entries)|, InsertAll(acc, entries), false);
    }
  }

  lemma SkipUncheckedEntry(entries: seq<(seq<byte>, BValue)>, acc: seq<(seq<byte>, BValue)>,
                           input: seq<byte>, pos: nat)
      returns (next: nat)
    requires entries != [] && FreshKeys(acc, entries) && WellFormed(entries[0].1)
    requires At(input, pos, EncodeEntries(entries))
    ensures next + |EncodeEntries(entries[1..])| == pos + |EncodeEntries(entries)|
    ensures At(input, next, EncodeEntries(entries[1..]))
    ensures DictEntries(input, pos, acc, false)
         == DictEntries(input, next, Insert(acc, entries[0].0, entries[0].1), false)
  {
    var e := entries[0];
    assert e.1 < e;
    var entryText := EncodeString(e.0) + Encode(e.1);
    assert EncodeEntries(entries) == entryText + EncodeEntries(entries[1..]);
    AtSplit(input, pos, entryText, EncodeEntries(entries[1..]));
    assert !HasKey(acc, e.0);
    next := StoreUncheckedEntry(acc, e.0, e.1, input, pos);
  }

  /** An encoded entry whose key is not yet stored is added, with the order check off. */
  lemma StoreUncheckedEntry(acc: seq<(seq<byte>, BValue)>, key: seq<byte>, value: BValue, input: seq<byte>, pos: nat)
      returns (next: nat)
    requires !HasKey(acc, key) && WellFormed(value)
    requires At(input, pos, EncodeString(key) + Encode(value))
    ensures next == pos + |EncodeString(key) + Encode(value)|
    ensures DictEntries(input, pos, acc, false) == DictEntries(input, next, Insert(acc, key, value), false)
  {
    var keyText := EncodeString(key);
    var valueText := Encode(value);
    AtSplit(input, pos, keyText, valueText);
    KeyAt(acc, key, input, pos, false);
    var afterKey := pos + |keyText|;
    ParseEncoding(value, input, afterKey, false);
    next := afterKey + |valueText|;
    DictStep(input, pos, acc, key, afterKey, value, next, false);
  }

  /**
   * Without the order check, encoded entries with distinct keys are accepted
   * in any order; the dictionary holds exactly those entries, sorted.
   */
  lemma UncheckedAcceptsAnyOrder(entries: seq<(seq<byte>, BValue)>, input: seq<byte>, pos: nat)
    requires DistinctKeys(entries) && forall i :: 0 <= i < |entries| ==> WellFormed(entries[i].1)
    requires At(input, pos, [LOWER_D] + EncodeEntries(entries) + [LOWER_E])
    ensures Parse(input, pos, false).Parsed?
    ensures Parse(input, pos, false).next == pos + |EncodeEntries(entries)| + 2
    ensures var v := Parse(input, pos, false).value;
            && v.BDictionary? && StrictlySorted(v.entries)
            && forall e :: e in v.entries <==> e in entries
  {
    var q := ParseUnchecked(entries, input, pos);
    InsertAllSorted([], entries);
  }

  /** Without the order check, an encoded dictionary parses to its entries inserted in turn. */
  lemma ParseUnchecked(entries: seq<(seq<byte>, BValue)>, input: seq<byte>, pos: nat) returns (q: nat)
    requires DistinctKeys(entries) && forall i :: 0 <= i < |entries| ==> WellFormed(entries[i].1)
    requires At(input, pos, [LOWER_D] + EncodeEntries(entries) + [LOWER_E])
    ensures q == pos + 1 + |EncodeEntries(entries)|
    ensures Parse(input, pos, false) == Parsed(BDictionary(InsertAll([], entries)), q + 1)
  {
    var filled := InsertAll([], entries);
    q := EnclosedAt(input, pos, LOWER_D, EncodeEntries(entries));
    OpenDictionary(input, pos, false);
    SkipUncheckedEntries(entries, [], input, pos + 1);
    CloseDictionary(input, q, filled, false);
    assert Parse(input, pos, false) == DictEntries(input, pos + 1, [], false);
    assert DictEntries(input, pos + 1, [], false) == DictEntries(input, q, filled, false);
    assert DictEntries(input, q, filled, false) == Parsed(BDictionary(filled), q + 1);
  }


  // ---------------------------------------------------------------------------
  // With the check on: exactly the ascending orders

  /** An unsorted sequence has a first adjacent pair out of order. */
  lemma {:induction false} FirstUnordered(entries: seq<(seq<byte>, BValue)>) returns (k: nat)
    requires !StrictlySorted(entries)
    ensures 0 < k < |entries| && !Less(entries[k - 1].0, entries[k].0)
    ensures StrictlySorted(entries[..k])
    decreases |entries|
  {
    var n := |entries|;
    var front := entries[..n - 1];
    if !StrictlySorted(front) {
      k := FirstUnordered(front);
      assert entries[..k] == front[..k];
    } else {
      k := n - 1;
      var i, j :| 0 <= i < j < n && !Less(entries[i].0, entries[j].0);
      assert front[..] == entries[..k];
      if Less(entries[k - 1].0, entries[k].0) && j == k && i < k - 1 {
        assert Less(front[i].0, front[k - 1].0);
        LessTransitive(entries[i].0, entries[k - 1].0, entries[k].0);
      }
    }
  }

  lemma EncodeEntriesAppend(a: seq<(seq<byte>, BValue)>, b: seq<(seq<byte>, BValue)>)
    ensures EncodeEntries(a + b) == EncodeEntries(a) + EncodeEntries(b)
    decreases a
  {
    if a == [] {
      assert a + b == b;
    } else {
      var e := a[0];
      assert e.1 < e;
      assert (a + b)[0] == e && (a + b)[1..] == a[1..] + b;
      EncodeEntriesAppend(a[1..], b);
      assert EncodeEntries(a) == EncodeString(e.0) + Encode(e.1) + EncodeEntries(a[1..]);
    }
  }

  /**
   * With the order check on, encoded entries are accepted exactly when their
   * keys are strictly ascending; otherwise the outcome is UnorderedKeys.
   */
  lemma CheckedAcceptsOnlyAscending(entries: seq<(seq<byte>, BValue)>, input: seq<byte>, pos: nat)
    requires forall i :: 0 <= i < |entries| ==> WellFormed(entries[i].1)
    requires At(input, pos, [LOWER_D] + EncodeEntries(entries) + [LOWER_E])
    ensures StrictlySorted(entries) ==>
              Parse(input, pos, true) == Parsed(BDictionary(entries), pos + |EncodeEntries(entries)| + 2)
    ensures !StrictlySorted(entries) ==> Parse(input, pos, true) == Rejected(UnorderedKeys)
  {
    if StrictlySorted(entries) {
      ParseEncoding(BDictionary(entries), input, pos, true);
    } else {
      var k := FirstUnordered(entries);
      AtSplit(input, pos, [LOWER_D] + EncodeEntries(entries), [LOWER_E]);
      var front := entries[..k];
      var e := entries[k];
      SplitAtUnordered(entries, k, input, pos);
      DictionaryUnorderedKey(front, e.0, input, pos);
    }
  }

  lemma Regroup(d: seq<byte>, f: seq<byte>, x: seq<byte>, y: seq<byte>, z: seq<byte>)
    ensures d + (f + (x + y + z)) == (d + f) + (x + (y + z))
  {
  }

  /** The encoding of the entries, cut before entry `k`: the entries before it, `k`'s key, the rest. */
  lemma EncodeEntriesCut(entries: seq<(seq<byte>, BValue)>, k: nat)
    requires k < |entries|
    ensures [LOWER_D] + EncodeEntries(entries)
            == ([LOWER_D] + EncodeEntries(entries[..k]))
               + (EncodeString(entries[k].0) + (Encode(entries[k].1) + EncodeEntries(entries[k + 1..])))
  {
    var front := entries[..k];
    var back := entries[k..];
    assert entries == front + back;
    EncodeEntriesAppend(front, back);
    assert back[0] == entries[k] && back[1..] == entries[k + 1..];
    var x := EncodeString(entries[k].0);
    var y := Encode(entries[k].1);
    var z := EncodeEntries(entries[k + 1..]);
    assert EncodeEntries(back) == x + y + z;
    Regroup([LOWER_D], EncodeEntries(front), x, y, z);
  }

  /** The encoding of the entries, cut before entry `k`, shows entry `k`'s key next. */
  lemma SplitAtUnordered(entries: seq<(seq<byte>, BValue)>, k: nat, input: seq<byte>, pos: nat)
    requires 0 < k < |entries| && StrictlySorted(entries[..k])
    requires forall i :: 0 <= i < |entries| ==> WellFormed(entries[i].1)
    requires At(input, pos, [LOWER_D] + EncodeEntries(entries))
    ensures EntriesRead(entries[..k], input, pos) && entries[..k] != []
    ensures entries[..k][k - 1] == entries[k - 1]
    ensures At(input, pos + 1 + |EncodeEntries(entries[..k])|, EncodeString(entries[k].0))
  {
    var front := entries[..k];
    var tail := Encode(entries[k].1) + EncodeEntries(entries[k + 1..]);
    EncodeEntriesCut(entries, k);
    AtSplit(input, pos, [LOWER_D] + EncodeEntries(front), EncodeString(entries[k].0) + tail);
    AtSplit(input, pos + 1 + |EncodeEntries(front)|, EncodeString(entries[k].0), tail);
    forall i | 0 <= i < |front| ensures WellFormed(front[i].1) {
      assert front[i] == entries[i];
    }
  }
}
