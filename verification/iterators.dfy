/** The iterator interface: a cursor on a sorted run of entries, and what moving
    it means for the set of entries it runs over. */
module Iterators {
  import opened DbFormat

  /** An iterator over a sorted run of entries: `at` is the current index, and
      |entries| when the iterator is not valid. */
  class Cursor {
    const entries: seq<Entry>
    var at: nat

    predicate Valid()
      reads this
    {
      at < |entries|
    }

    constructor (es: seq<Entry>)
      ensures entries == es && at == |es|
    {
      entries := es;
      at := |es|;
    }

    method SeekToFirst()
      modifies this`at
      ensures at == 0
    {
      at := 0;
    }

    method SeekToLast()
      modifies this`at
      ensures at == if entries == [] then 0 else |entries| - 1
    {
      at := if entries == [] then 0 else |entries| - 1;
    }

    method Next()
      requires Valid()
      modifies this`at
      ensures at == old(at) + 1
    {
      at := at + 1;
    }

    method Prev()
      requires Valid()
      modifies this`at
      ensures at == if old(at) == 0 then |entries| else old(at) - 1
    {
      at := if at == 0 then |entries| else at - 1;
    }

    /** The first entry whose key is not before `target`. */
    method Seek(target: InternalKey)
      modifies this`at
      ensures at <= |entries|
      ensures forall j | 0 <= j < at :: Less(entries[j].key, target)
      ensures at < |entries| ==> !Less(entries[at].key, target)
    {
      at := 0;
      while at < |entries| && Less(entries[at].key, target)
        invariant at <= |entries|
        invariant forall j | 0 <= j < at :: Less(entries[j].key, target)
      {
        at := at + 1;
      }
    }
  }

  lemma LessIsTotal(a: InternalKey, b: InternalKey)
    ensures Less(a, b) || Less(b, a) || a == b
  {
  }

  lemma LessTransitive(a: InternalKey, b: InternalKey, c: InternalKey)
    requires !Less(b, a) && !Less(c, b)
    ensures !Less(c, a) && (Less(a, b) || Less(b, c) ==> Less(a, c))
  {
  }

  // ----- Moving over a set of entries -----

  ghost function EntriesAfter(U: set<Entry>, k: InternalKey): set<Entry> {
    set e | e in U && Less(k, e.key)
  }

  ghost function EntriesFrom(U: set<Entry>, k: InternalKey): set<Entry> {
    set e | e in U && !Less(e.key, k)
  }

  ghost function EntriesBefore(U: set<Entry>, k: InternalKey): set<Entry> {
    set e | e in U && Less(e.key, k)
  }

  /** `at` is the least entry of S; None when S is empty. */
  ghost predicate IsLeast(S: set<Entry>, at: Option<Entry>) {
    && (at.Some? ==> at.value in S)
    && forall e | e in S :: at.Some? && !Less(e.key, at.value.key)
  }

  ghost predicate IsGreatest(S: set<Entry>, at: Option<Entry>) {
    && (at.Some? ==> at.value in S)
    && forall e | e in S :: at.Some? && !Less(at.value.key, e.key)
  }

  /** On a sorted run, these moves are index arithmetic. */
  lemma StepsOnSortedRun(es: seq<Entry>, i: nat)
    requires SortedEntries(es) && i < |es|
    ensures IsLeast(EntriesAfter(Contents(es), es[i].key), if i + 1 < |es| then Some(es[i + 1]) else None)
    ensures IsGreatest(EntriesBefore(Contents(es), es[i].key), if i > 0 then Some(es[i - 1]) else None)
  {
    var U, k := Contents(es), es[i].key;
    forall e | e in EntriesAfter(U, k) ensures i + 1 < |es| && !Less(e.key, es[i + 1].key) {
      var j :| 0 <= j < |es| && es[j] == e;
      assert i < j;
    }
    forall e | e in EntriesBefore(U, k) ensures i > 0 && !Less(es[i - 1].key, e.key) {
      var j :| 0 <= j < |es| && es[j] == e;
      assert j < i;
    }
  }

  /** The least and the greatest entry are determined by the set, provided no
      two of its entries have the same key. */
  lemma ExtremesAreUnique(S: set<Entry>, a: Option<Entry>, b: Option<Entry>)
    requires forall x, y | x in S && y in S && x.key == y.key :: x == y
    ensures IsLeast(S, a) && IsLeast(S, b) ==> a == b
    ensures IsGreatest(S, a) && IsGreatest(S, b) ==> a == b
  {
    if a.Some? && b.Some? {
      LessIsTotal(a.value.key, b.value.key);
    }
  }
}
