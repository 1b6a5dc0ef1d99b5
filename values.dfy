/**
 * The bencode value: a closed four-way sum of byte string, arbitrary-precision
 * integer, list, and dictionary whose entries are kept in ascending raw-byte
 * order of their keys. Also the byte-string order and the equality and lookup
 * operations the value types offer.
 */
module Values {
  import opened Bytes

  datatype Option<T> = None | Some(value: T)

  datatype BValue =
    | BString(bytes: seq<byte>)
    | BInteger(n: int)
    | BList(items: seq<BValue>)
    | BDictionary(entries: seq<(seq<byte>, BValue)>)

  // ---------------------------------------------------------------------------
  // Byte-string order

  /** Lexicographic byte order in which a proper prefix sorts first. */
  predicate Less(a: seq<byte>, b: seq<byte>) {
    |b| > 0 && (|a| == 0 || a[0] < b[0] || (a[0] == b[0] && Less(a[1..], b[1..])))
  }

  /**
   * `BString.CompareTo`: the span comparison returns the difference of the first
   * pair of bytes that differ, or else the difference of the lengths.
   */
  function CompareBytes(a: seq<byte>, b: seq<byte>): int {
    if a == [] || b == [] then |a| - |b|
    else if a[0] != b[0] then a[0] as int - b[0] as int
    else CompareBytes(a[1..], b[1..])
  }

  /** `BString.Equals`: the two byte sequences agree in length and at every index. */
  predicate BytesEqual(a: seq<byte>, b: seq<byte>) {
    |a| == |b| && forall i :: 0 <= i < |a| ==> a[i] == b[i]
  }

  lemma BytesEqualIsEquality(a: seq<byte>, b: seq<byte>)
    ensures BytesEqual(a, b) <==> a == b
  {
  }

  /** The sign of CompareTo is the byte order; zero exactly when Equals holds. */
  lemma {:induction false} CompareBytesSign(a: seq<byte>, b: seq<byte>)
    ensures CompareBytes(a, b) < 0 <==> Less(a, b)
    ensures CompareBytes(a, b) > 0 <==> Less(b, a)
    ensures CompareBytes(a, b) == 0 <==> BytesEqual(a, b)
  {
    if a != [] && b != [] && a[0] == b[0] {
      CompareBytesSign(a[1..], b[1..]);
      if BytesEqual(a[1..], b[1..]) {
        assert a == [a[0]] + a[1..] && b == [b[0]] + b[1..];
      }
      if BytesEqual(a, b) {
        assert BytesEqual(a[1..], b[1..]);
      }
    }
  }

  lemma {:induction false} LessIrreflexive(a: seq<byte>)
    ensures !Less(a, a)
  {
    if |a| > 0 {
      LessIrreflexive(a[1..]);
    }
  }

  lemma {:induction false} LessTransitive(a: seq<byte>, b: seq<byte>, c: seq<byte>)
    requires Less(a, b) && Less(b, c)
    ensures Less(a, c)
  {
    if |a| > 0 && a[0] == b[0] && b[0] == c[0] {
      LessTransitive(a[1..], b[1..], c[1..]);
    }
  }

  /** Any two distinct byte strings are ordered one way or the other, never both. */
  lemma {:induction false} LessTrichotomy(a: seq<byte>, b: seq<byte>)
    ensures a == b || Less(a, b) || Less(b, a)
    ensures !(Less(a, b) && Less(b, a))
  {
    if |a| > 0 && |b| > 0 && a[0] == b[0] {
      LessTrichotomy(a[1..], b[1..]);
      if a[1..] == b[1..] {
        assert a == [a[0]] + a[1..] && b == [b[0]] + b[1..];
      }
    }
  }

  /** A proper prefix sorts before the longer string. */
  lemma {:induction false} PrefixSortsFirst(a: seq<byte>, rest: seq<byte>)
    requires |rest| > 0
    ensures Less(a, a + rest)
  {
    if |a| > 0 {
      assert (a + rest)[1..] == a[1..] + rest;
      PrefixSortsFirst(a[1..], rest);
    }
  }

  // ---------------------------------------------------------------------------
  // Dictionaries

  /** Keys strictly ascending: this is how a SortedDictionary keeps its entries. */
  predicate StrictlySorted(entries: seq<(seq<byte>, BValue)>) {
    forall i, j :: 0 <= i < j < |entries| ==> Less(entries[i].0, entries[j].0)
  }

  predicate HasKey(entries: seq<(seq<byte>, BValue)>, key: seq<byte>) {
    exists i :: 0 <= i < |entries| && entries[i].0 == key
  }

  /** Every dictionary inside the value, at any depth, is strictly sorted. */
  predicate WellFormed(v: BValue) {
    match v
    case BString(_) => true
    case BInteger(_) => true
    case BList(items) => forall i :: 0 <= i < |items| ==> WellFormed(items[i])
    case BDictionary(entries) =>
      StrictlySorted(entries) && forall i :: 0 <= i < |entries| ==> WellFormed(entries[i].1)
  }

  lemma StrictlySortedKeysUnique(entries: seq<(seq<byte>, BValue)>, i: int, j: int)
    requires StrictlySorted(entries) && 0 <= i < |entries| && 0 <= j < |entries|
    requires entries[i].0 == entries[j].0
    ensures i == j
  {
    if i < j {
      LessIrreflexive(entries[i].0);
    } else if j < i {
      LessIrreflexive(entries[j].0);
    }
  }

  /**
   * The dictionary indexer `this[BString key]`, as intended: the value stored
   * under the key, or nothing when the key is absent.
   */
  function Lookup(entries: seq<(seq<byte>, BValue)>, key: seq<byte>): (r: Option<BValue>)
    ensures r.Some? <==> HasKey(entries, key)
    ensures r.Some? ==> exists i :: 0 <= i < |entries| && entries[i] == (key, r.value)
  {
    if entries == [] then None
    else if entries[0].0 == key then Some(entries[0].1)
    else
      var r := Lookup(entries[1..], key);
      assert r.Some? ==> exists i :: 0 <= i < |entries[1..]| && entries[1..][i] == (key, r.value);
      assert HasKey(entries[1..], key) ==> HasKey(entries, key) by {
        if HasKey(entries[1..], key) {
          var i :| 0 <= i < |entries| - 1 && entries[1..][i].0 == key;
          assert entries[i + 1].0 == key;
        }
      }
      assert HasKey(entries, key) ==> HasKey(entries[1..], key) by {
        if HasKey(entries, key) {
          var i :| 0 <= i < |entries| && entries[i].0 == key;
          assert i > 0 && entries[1..][i - 1].0 == key;
        }
      }
      r
  }

  /** In a sorted dictionary the lookup finds exactly the entry stored under the key. */
  lemma LookupSorted(entries: seq<(seq<byte>, BValue)>, i: int)
    requires StrictlySorted(entries) && 0 <= i < |entries|
    ensures Lookup(entries, entries[i].0) == Some(entries[i].1)
  {
    var r := Lookup(entries, entries[i].0);
    var j :| 0 <= j < |entries| && entries[j] == (entries[i].0, r.value);
    StrictlySortedKeysUnique(entries, i, j);
  }

  /**
   * The indexer as written at BValue.cs:271: `TryGetValue(key, out value) ?
   * null : value`. When the key is found it yields null, and when it is not
   * found `value` is the default, null again.
   */
  function LookupAsWritten(entries: seq<(seq<byte>, BValue)>, key: seq<byte>): Option<BValue> {
    var found := Lookup(entries, key);
    if found.Some? then None else found
  }

  /** As written, the indexer never returns a value, even for a stored key. */
  lemma LookupAsWrittenAlwaysNull(entries: seq<(seq<byte>, BValue)>, key: seq<byte>)
    ensures LookupAsWritten(entries, key) == None
    ensures HasKey(entries, key) ==> LookupAsWritten(entries, key) != Lookup(entries, key)
  {
  }

  /** The text-keyed indexer `this[string key]`: the key's UTF-8 bytes (ASCII here). */
  function Get(entries: seq<(seq<byte>, BValue)>, key: AsciiText): (r: Option<BValue>)
    ensures r.Some? <==> HasKey(entries, AsciiBytes(key))
  {
    Lookup(entries, AsciiBytes(key))
  }

  // What the text-keyed indexer finds, by kind of value.

  ghost predicate HasString(entries: seq<(seq<byte>, BValue)>, key: AsciiText) {
    Get(entries, key).Some? && Get(entries, key).value.BString?
  }

  ghost predicate HasInteger(entries: seq<(seq<byte>, BValue)>, key: AsciiText) {
    Get(entries, key).Some? && Get(entries, key).value.BInteger?
  }

  ghost predicate HasList(entries: seq<(seq<byte>, BValue)>, key: AsciiText) {
    Get(entries, key).Some? && Get(entries, key).value.BList?
  }

  ghost predicate HasDictionary(entries: seq<(seq<byte>, BValue)>, key: AsciiText) {
    Get(entries, key).Some? && Get(entries, key).value.BDictionary?
  }

  /** `SortedDictionary.Add` for a key not yet present: insert at its ordered place. */
  function Insert(entries: seq<(seq<byte>, BValue)>, key: seq<byte>, value: BValue)
    : (r: seq<(seq<byte>, BValue)>)
    ensures |r| == |entries| + 1
  {
    if entries == [] || Less(key, entries[0].0) then [(key, value)] + entries
    else [entries[0]] + Insert(entries[1..], key, value)
  }

  /** Insertion keeps the keys strictly ascending and adds exactly one entry. */
  lemma {:induction false} InsertSorted(entries: seq<(seq<byte>, BValue)>, key: seq<byte>, value: BValue)
    requires StrictlySorted(entries) && !HasKey(entries, key)
    ensures StrictlySorted(Insert(entries, key, value))
    ensures forall e :: e in Insert(entries, key, value) <==> e in entries || e == (key, value)
  {
    if entries == [] || Less(key, entries[0].0) {
      var r := [(key, value)] + entries;
      forall i, j | 0 <= i < j < |r| ensures Less(r[i].0, r[j].0) {
        if i == 0 && j > 1 {
          LessTransitive(key, entries[0].0, entries[j - 1].0);
        }
      }
    } else {
      var rest := entries[1..];
      assert Less(entries[0].0, key) by {
        LessTrichotomy(key, entries[0].0);
      }
      InsertSorted(rest, key, value);
      var tail := Insert(rest, key, value);
      var r := [entries[0]] + tail;
      forall i, j | 0 <= i < j < |r| ensures Less(r[i].0, r[j].0) {
        if i == 0 {
          var e := tail[j - 1];
          assert e in tail;
          if e != (key, value) {
            var k :| 0 <= k < |rest| && rest[k] == e;
            assert entries[k + 1] == e;
          }
        }
      }
    }
  }

  /** Appending a key greater than the last one is what insertion does. */
  lemma {:induction false} InsertGreatest(entries: seq<(seq<byte>, BValue)>, key: seq<byte>, value: BValue)
    requires StrictlySorted(entries)
    requires |entries| > 0 ==> Less(entries[|entries| - 1].0, key)
    ensures Insert(entries, key, value) == entries + [(key, value)]
  {
    if entries != [] {
      LessTrichotomy(key, entries[0].0);
      if |entries| > 1 {
        LessTransitive(entries[0].0, entries[|entries| - 1].0, key);
      }
      assert !Less(key, entries[0].0);
      InsertGreatest(entries[1..], key, value);
      assert entries == [entries[0]] + entries[1..];
    }
  }

  /** With every stored key below the new one, the new key is not stored. */
  lemma GreaterKeyIsAbsent(entries: seq<(seq<byte>, BValue)>, key: seq<byte>)
    requires StrictlySorted(entries)
    requires |entries| > 0 ==> Less(entries[|entries| - 1].0, key)
    ensures !HasKey(entries, key)
  {
    if HasKey(entries, key) {
      var i :| 0 <= i < |entries| && entries[i].0 == key;
      if i < |entries| - 1 {
        LessTransitive(key, entries[|entries| - 1].0, key);
      }
      LessIrreflexive(key);
    }
  }

  // ---------------------------------------------------------------------------
  // Structural equality

  /**
   * `BValue.Equals` as the records define it: byte strings by bytes, integers
   * by value, lists element by element, dictionaries entry by entry in key
   * order.
   */
  predicate ValueEqual(a: BValue, b: BValue) {
    match (a, b)
    case (BString(x), BString(y)) => BytesEqual(x, y)
    case (BInteger(m), BInteger(n)) => m == n
    case (BList(xs), BList(ys)) =>
      |xs| == |ys| && forall i :: 0 <= i < |xs| ==> ValueEqual(xs[i], ys[i])
    case (BDictionary(xs), BDictionary(ys)) =>
      |xs| == |ys| && forall i :: 0 <= i < |xs| ==>
        BytesEqual(xs[i].0, ys[i].0) && ValueEqual(xs[i].1, ys[i].1)
    case _ => false
  }

  /** Structural equality of the records is exactly equality of the model's values. */
  lemma {:induction false} ValueEqualIsEquality(a: BValue, b: BValue)
    ensures ValueEqual(a, b) <==> a == b
  {
    match (a, b)
    case (BString(x), BString(y)) =>
    case (BInteger(m), BInteger(n)) =>
    case (BList(xs), BList(ys)) =>
      if |xs| == |ys| {
        forall i | 0 <= i < |xs| ensures ValueEqual(xs[i], ys[i]) <==> xs[i] == ys[i] {
          ValueEqualIsEquality(xs[i], ys[i]);
        }
        if ValueEqual(a, b) {
          assert xs == ys;
        }
      }
    case (BDictionary(xs), BDictionary(ys)) =>
      if |xs| == |ys| {
        forall i | 0 <= i < |xs|
          ensures ValueEqual(xs[i].1, ys[i].1) <==> xs[i].1 == ys[i].1
          ensures BytesEqual(xs[i].0, ys[i].0) <==> xs[i].0 == ys[i].0
        {
          ValueEqualIsEquality(xs[i].1, ys[i].1);
          BytesEqualIsEquality(xs[i].0, ys[i].0);
        }
        if ValueEqual(a, b) {
          assert forall i :: 0 <= i < |xs| ==> xs[i] == ys[i];
          assert xs == ys;
        }
      }
    case _ =>
  }
}
