/**
 An abstract duplicate-sort cursor (`CursorDupSort`): a table of
 (key, value) entries sorted by key and, within one key's duplicate group,
 by value, together with a current position. Running off the end is
 reported by the empty-key sentinel.
 */
module Cursor {
  import opened Bytes

  datatype Entry = Entry(key: Bytes, value: Bytes)

  /** What the cursor returns at end of data. */
  const EndOfData := Entry([], [])

  /** Table order: by key, then by value inside a duplicate group. */
  predicate EntryLt(a: Entry, b: Entry)
  {
    LexLt(a.key, b.key) || (a.key == b.key && LexLt(a.value, b.value))
  }

  /** Strictly increasing, so no (key, value) pair is stored twice. */
  predicate Sorted(es: seq<Entry>)
  {
    forall i, j :: 0 <= i < j < |es| ==> EntryLt(es[i], es[j])
  }

  /** Stored keys are never empty, so the sentinel cannot be confused with data. */
  predicate NonEmptyKeys(es: seq<Entry>)
  {
    forall i :: 0 <= i < |es| ==> es[i].key != []
  }

  /** The first index at or after `from` whose key is at least `t`, or |es| when there is none. */
  function LowerBound(es: seq<Entry>, t: Bytes, from: nat): (i: nat)
    requires from <= |es|
    ensures from <= i <= |es|
    ensures forall j :: from <= j < i ==> !LexLe(t, es[j].key)
    ensures i < |es| ==> LexLe(t, es[i].key)
    decreases |es| - from
  {
    if from == |es| || LexLe(t, es[from].key) then from else LowerBound(es, t, from + 1)
  }

  /**
   The first index at or after `from` whose key is exactly `k` and whose value
   is at least `p`, or |es| when there is none.
   */
  function DupRangeIndex(es: seq<Entry>, k: Bytes, p: Bytes, from: nat): (i: nat)
    requires from <= |es|
    ensures from <= i <= |es|
    ensures forall j :: from <= j < i ==> !(es[j].key == k && LexLe(p, es[j].value))
    ensures i < |es| ==> es[i].key == k && LexLe(p, es[i].value)
    decreases |es| - from
  {
    if from == |es| || (es[from].key == k && LexLe(p, es[from].value)) then from
    else DupRangeIndex(es, k, p, from + 1)
  }

  /** In a sorted table, keys never decrease. */
  lemma SortedKeysLe(es: seq<Entry>, i: nat, j: nat)
    requires Sorted(es) && i <= j < |es|
    ensures LexLe(es[i].key, es[j].key)
  {
    if i == j {
      LexLeRefl(es[i].key);
    } else {
      assert EntryLt(es[i], es[j]);
      if es[i].key == es[j].key {
        LexLeRefl(es[i].key);
      }
    }
  }

  /** Everything from LowerBound on has a key of at least `t`, in a sorted table. */
  lemma AtOrAfterLowerBound(es: seq<Entry>, t: Bytes, j: nat)
    requires Sorted(es) && LowerBound(es, t, 0) <= j < |es|
    ensures LexLe(t, es[j].key)
  {
    var i := LowerBound(es, t, 0);
    SortedKeysLe(es, i, j);
    LexLeTrans(t, es[i].key, es[j].key);
  }

  class DupSortCursor {
    const entries: seq<Entry>
    var pos: nat

    predicate Valid()
      reads this
    {
      Sorted(entries) && NonEmptyKeys(entries) && pos <= |entries|
    }

    /** The entry under the cursor, or the sentinel past the end. */
    function Current(): (e: Entry)
      reads this
    {
      if pos < |entries| then entries[pos] else EndOfData
    }

    constructor (es: seq<Entry>)
      requires Sorted(es) && NonEmptyKeys(es)
      ensures Valid() && entries == es && pos == |es|
    {
      entries := es;
      pos := |es|;
    }

    /** `seek(t)`: go to the first entry whose key is at least `t`. */
    method Seek(t: Bytes) returns (k: Bytes, v: Bytes)
      requires Valid()
      modifies this
      ensures Valid()
      ensures pos == LowerBound(entries, t, 0)
      ensures Entry(k, v) == Current()
    {
      var i := 0;
      while i < |entries| && !LexLe(t, entries[i].key)
        invariant i <= |entries|
        invariant LowerBound(entries, t, 0) == LowerBound(entries, t, i)
      {
        i := i + 1;
      }
      pos := i;
      k, v := Current().key, Current().value;
    }

    /** `next()`: advance by one entry; past the end the cursor stays there. */
    method Next() returns (k: Bytes, v: Bytes)
      requires Valid()
      modifies this
      ensures Valid()
      ensures pos == if old(pos) < |entries| then old(pos) + 1 else old(pos)
      ensures Entry(k, v) == Current()
    {
      if pos < |entries| {
        pos := pos + 1;
      }
      k, v := Current().key, Current().value;
    }

    /**
     `seek_both_range(key, p)`: go to the first entry of `key`'s duplicate group
     whose value is at least `p`; the sentinel when there is none.
     */
    method SeekBothRange(key: Bytes, p: Bytes) returns (k: Bytes, v: Bytes)
      requires Valid()
      modifies this
      ensures Valid()
      ensures pos == DupRangeIndex(entries, key, p, 0)
      ensures Entry(k, v) == Current()
    {
      var i := 0;
      while i < |entries| && !(entries[i].key == key && LexLe(p, entries[i].value))
        invariant i <= |entries|
        invariant DupRangeIndex(entries, key, p, 0) == DupRangeIndex(entries, key, p, i)
      {
        i := i + 1;
      }
      pos := i;
      k, v := Current().key, Current().value;
    }
  }
}
