/** MergingIterator: several sorted runs as one. */
module Merger {
  import opened DbFormat
  import opened Iterators

  datatype Direction = Forward | Reverse

  /** The cursor is on the first entry after k. */
  ghost predicate After(es: seq<Entry>, at: nat, k: InternalKey) {
    && at <= |es|
    && (forall j | 0 <= j < at :: !Less(k, es[j].key))
    && forall j | at <= j < |es| :: Less(k, es[j].key)
  }

  /** The cursor is on the first entry not before k. */
  ghost predicate From(es: seq<Entry>, at: nat, k: InternalKey) {
    && at <= |es|
    && (forall j | 0 <= j < at :: Less(es[j].key, k))
    && forall j | at <= j < |es| :: !Less(es[j].key, k)
  }

  /** The cursor is on the last entry before k, or invalid. */
  ghost predicate Before(es: seq<Entry>, at: nat, k: InternalKey) {
    && at <= |es|
    && (forall j | 0 <= j < |es| && Less(es[j].key, k) :: at < |es| && j <= at)
    && (at < |es| ==> Less(es[at].key, k))
  }

  /** The entries from the cursor on are those of the run that are in S. */
  ghost predicate Ahead(es: seq<Entry>, at: nat, S: set<Entry>) {
    at <= |es| && forall j | 0 <= j < |es| :: es[j] in S <==> at <= j
  }

  /** The entries up to the cursor are those of the run that are in S. */
  ghost predicate Behind(es: seq<Entry>, at: nat, S: set<Entry>) {
    at <= |es| && forall j | 0 <= j < |es| :: es[j] in S <==> at < |es| && j <= at
  }

  ghost predicate Runs(children: seq<Cursor>) {
    && (forall i, j | 0 <= i < j < |children| :: children[i] != children[j])
    && (forall i | 0 <= i < |children| :: SortedEntries(children[i].entries))
    && forall i, j, p, q | 0 <= i < j < |children| && 0 <= p < |children[i].entries| && 0 <= q < |children[j].entries| ::
         children[i].entries[p].key != children[j].entries[q].key
  }

  /** Every entry of every run. */
  ghost function Union(children: seq<Cursor>): set<Entry> {
    set c, e | c in children && e in c.entries :: e
  }

  lemma InUnion(children: seq<Cursor>, i: nat, p: nat)
    requires i < |children| && p < |children[i].entries|
    ensures children[i].entries[p] in Union(children)
  {
    assert children[i] in children && children[i].entries[p] in children[i].entries;
  }

  lemma UnionIndex(children: seq<Cursor>, e: Entry) returns (i: nat, p: nat)
    requires e in Union(children)
    ensures i < |children| && p < |children[i].entries| && children[i].entries[p] == e
  {
    var c :| c in children && e in c.entries;
    i :| 0 <= i < |children| && children[i] == c;
    p :| 0 <= p < |c.entries| && c.entries[p] == e;
  }

  ghost predicate Upward(U: set<Entry>, S: set<Entry>) {
    forall a, b | a in S && b in U && Less(a.key, b.key) :: b in S
  }

  ghost predicate Downward(U: set<Entry>, S: set<Entry>) {
    forall a, b | a in S && b in U && Less(b.key, a.key) :: b in S
  }

  lemma UpwardAfter(U: set<Entry>, k: InternalKey)
    ensures EntriesAfter(U, k) <= U && Upward(U, EntriesAfter(U, k))
  {
  }

  lemma UpwardFrom(U: set<Entry>, k: InternalKey)
    ensures EntriesFrom(U, k) <= U && Upward(U, EntriesFrom(U, k))
  {
  }

  lemma DownwardBefore(U: set<Entry>, k: InternalKey)
    ensures EntriesBefore(U, k) <= U && Downward(U, EntriesBefore(U, k))
  {
  }

  /** A child at the start of its part of S, not on e, is just after e. */
  lemma ChildAfter(children: seq<Cursor>, i: nat, at: nat, S: set<Entry>, e: Entry)
    requires i < |children| && SortedEntries(children[i].entries)
    requires Upward(Union(children), S) && e in S
    requires Ahead(children[i].entries, at, S)
    requires at < |children[i].entries| ==> Less(e.key, children[i].entries[at].key)
    ensures After(children[i].entries, at, e.key)
  {
    var es := children[i].entries;
    forall j | 0 <= j < at ensures !Less(e.key, es[j].key) {
      InUnion(children, i, j);
    }
  }

  lemma ChildBefore(children: seq<Cursor>, i: nat, at: nat, S: set<Entry>, e: Entry)
    requires i < |children| && SortedEntries(children[i].entries)
    requires Downward(Union(children), S) && e in S
    requires Behind(children[i].entries, at, S)
    requires at < |children[i].entries| ==> Less(children[i].entries[at].key, e.key)
    ensures Before(children[i].entries, at, e.key)
  {
    var es := children[i].entries;
    forall j | 0 <= j < |es| && Less(es[j].key, e.key) ensures at < |es| && j <= at {
      InUnion(children, i, j);
    }
  }

  lemma WholeRun(children: seq<Cursor>, i: nat)
    requires i < |children|
    ensures Ahead(children[i].entries, 0, Union(children))
    ensures var n := |children[i].entries|; Behind(children[i].entries, if n == 0 then 0 else n - 1, Union(children))
    ensures Upward(Union(children), Union(children)) && Downward(Union(children), Union(children))
  {
    forall j | 0 <= j < |children[i].entries| ensures children[i].entries[j] in Union(children) {
      InUnion(children, i, j);
    }
  }

  lemma SeekLandsFrom(es: seq<Entry>, at: nat, k: InternalKey)
    requires SortedEntries(es) && at <= |es|
    requires forall j | 0 <= j < at :: Less(es[j].key, k)
    requires at < |es| ==> !Less(es[at].key, k)
    ensures From(es, at, k)
  {
    forall j | at <= j < |es| ensures !Less(es[j].key, k) {
      LessTransitive(k, es[at].key, es[j].key);
    }
  }

  lemma FromIsAhead(children: seq<Cursor>, i: nat, at: nat, k: InternalKey)
    requires i < |children| && From(children[i].entries, at, k)
    ensures Ahead(children[i].entries, at, EntriesFrom(Union(children), k))
  {
    forall j | 0 <= j < |children[i].entries| ensures children[i].entries[j] in Union(children) {
      InUnion(children, i, j);
    }
  }

  lemma AfterIsAhead(children: seq<Cursor>, i: nat, at: nat, k: InternalKey)
    requires i < |children| && After(children[i].entries, at, k)
    ensures Ahead(children[i].entries, at, EntriesAfter(Union(children), k))
  {
    forall j | 0 <= j < |children[i].entries| ensures children[i].entries[j] in Union(children) {
      InUnion(children, i, j);
    }
  }

  lemma BeforeIsBehind(children: seq<Cursor>, i: nat, at: nat, k: InternalKey)
    requires i < |children| && Before(children[i].entries, at, k) && SortedEntries(children[i].entries)
    ensures Behind(children[i].entries, at, EntriesBefore(Union(children), k))
  {
    var es := children[i].entries;
    forall j | 0 <= j < |es| ensures es[j] in Union(children) && (at < |es| && j <= at ==> Less(es[j].key, k)) {
      InUnion(children, i, j);
      if at < |es| && j < at {
        assert Less(es[j].key, es[at].key);
      }
    }
  }

  /** The key of one child is in no other. */
  lemma OtherChild(children: seq<Cursor>, i: nat, current: nat, at: nat)
    requires Runs(children) && i < |children| && current < |children| && i != current
    requires at < |children[current].entries|
    ensures children[i] != children[current] && SortedEntries(children[i].entries)
    ensures forall p | 0 <= p < |children[i].entries| :: children[i].entries[p].key != children[current].entries[at].key
  {
  }

  lemma FromIsAfter(es: seq<Entry>, at: nat, k: InternalKey)
    requires From(es, at, k) && forall p | 0 <= p < |es| :: es[p].key != k
    ensures After(es, at, k)
  {
    forall j | 0 <= j < |es| ensures Less(k, es[j].key) || Less(es[j].key, k) {
      LessIsTotal(k, es[j].key);
    }
  }

  lemma MovedAfter(es: seq<Entry>, at: nat)
    requires SortedEntries(es) && at < |es|
    ensures After(es, at + 1, es[at].key)
  {
  }

  lemma MovedBefore(es: seq<Entry>, at: nat)
    requires SortedEntries(es) && at < |es|
    ensures Before(es, if at == 0 then |es| else at - 1, es[at].key)
  {
    forall j | 0 <= j < |es| && Less(es[j].key, es[at].key) ensures j < at {
    }
  }

  /** Stepping back from the first entry not before k. */
  lemma StepBack(es: seq<Entry>, at: nat, k: InternalKey)
    requires From(es, at, k)
    ensures at < |es| ==> Before(es, if at == 0 then |es| else at - 1, k)
    ensures at == |es| ==> Before(es, if |es| == 0 then 0 else |es| - 1, k)
  {
  }

  class MergingIterator {
    const children: seq<Cursor>
    /** The index of the current child; -1 for none. */
    var current: int
    var direction: Direction

    ghost predicate Valid()
      reads this, children
    {
      && Runs(children)
      && -1 <= current < |children|
      && (forall i | 0 <= i < |children| :: children[i].at <= |children[i].entries|)
      && (current >= 0 ==>
            && children[current].Valid()
            && forall i | 0 <= i < |children| && i != current ::
                 if direction.Forward? then After(children[i].entries, children[i].at, Entry().key)
                 else Before(children[i].entries, children[i].at, Entry().key))
    }

    function Entry(): Entry
      requires 0 <= current < |children| && children[current].Valid()
      reads this, children
    {
      children[current].entries[children[current].at]
    }

    ghost function At(): Option<Entry>
      requires Valid()
      reads this, children
    {
      if current < 0 then None else Some(Entry())
    }

    constructor (cs: seq<Cursor>)
      requires Runs(cs)
      requires forall i | 0 <= i < |cs| :: cs[i].at <= |cs[i].entries|
      ensures Valid() && children == cs && At() == None
    {
      children := cs;
      current := -1;
      direction := Forward;
    }

    ghost predicate SmallestAmong()
      requires 0 <= current < |children| && children[current].Valid()
      reads this, children
    {
      forall i | 0 <= i < |children| && i != current && children[i].Valid() ::
        Less(Entry().key, children[i].entries[children[i].at].key)
    }

    ghost predicate LargestAmong()
      requires 0 <= current < |children| && children[current].Valid()
      reads this, children
    {
      forall i | 0 <= i < |children| && i != current && children[i].Valid() ::
        Less(children[i].entries[children[i].at].key, Entry().key)
    }

    method FindSmallest()
      requires Runs(children)
      requires forall i | 0 <= i < |children| :: children[i].at <= |children[i].entries|
      modifies this`current
      ensures -1 <= current < |children|
      ensures current < 0 ==> forall i | 0 <= i < |children| :: !children[i].Valid()
      ensures current >= 0 ==> children[current].Valid() && SmallestAmong()
    {
      var smallest := -1;
      for i := 0 to |children|
        invariant -1 <= smallest < i
        invariant smallest < 0 ==> forall j | 0 <= j < i :: !children[j].Valid()
        invariant smallest >= 0 ==> children[smallest].Valid()
        invariant smallest >= 0 ==> forall j | 0 <= j < i && j != smallest && children[j].Valid() ::
               Less(children[smallest].entries[children[smallest].at].key, children[j].entries[children[j].at].key)
      {
        var child := children[i];
        if child.Valid() {
          if smallest == -1 {
            smallest := i;
          } else {
            var best := children[smallest];
            LessIsTotal(child.entries[child.at].key, best.entries[best.at].key);
            if Less(child.entries[child.at].key, best.entries[best.at].key) {
              smallest := i;
            }
          }
        }
      }
      current := smallest;
    }

    method FindLargest()
      requires Runs(children)
      requires forall i | 0 <= i < |children| :: children[i].at <= |children[i].entries|
      modifies this`current
      ensures -1 <= current < |children|
      ensures current < 0 ==> forall i | 0 <= i < |children| :: !children[i].Valid()
      ensures current >= 0 ==> children[current].Valid() && LargestAmong()
    {
      var largest := -1;
      for i := |children| downto 0
        invariant largest == -1 || i <= largest < |children|
        invariant largest < 0 ==> forall j | i <= j < |children| :: !children[j].Valid()
        invariant largest >= 0 ==> children[largest].Valid()
        invariant largest >= 0 ==> forall j | i <= j < |children| && j != largest && children[j].Valid() ::
               Less(children[j].entries[children[j].at].key, children[largest].entries[children[largest].at].key)
      {
        var child := children[i];
        if child.Valid() {
          if largest == -1 {
            largest := i;
          } else {
            var best := children[largest];
            LessIsTotal(child.entries[child.at].key, best.entries[best.at].key);
            if Less(best.entries[best.at].key, child.entries[child.at].key) {
              largest := i;
            }
          }
        }
      }
      current := largest;
    }

    /** When every run stands at the start of its part of S, the smallest child
        is at the least entry of S, and the others are just after it. */
    lemma SmallestOfAll(S: set<Entry>)
      requires Runs(children) && S <= Union(children) && Upward(Union(children), S)
      requires forall i | 0 <= i < |children| :: Ahead(children[i].entries, children[i].at, S)
      requires -1 <= current < |children| && direction.Forward?
      requires current < 0 ==> forall i | 0 <= i < |children| :: !children[i].Valid()
      requires current >= 0 ==> children[current].Valid() && SmallestAmong()
      ensures Valid() && IsLeast(S, At())
    {
      if current >= 0 {
        InUnion(children, current, children[current].at);
        forall i | 0 <= i < |children| && i != current
          ensures After(children[i].entries, children[i].at, Entry().key)
        {
          ChildAfter(children, i, children[i].at, S, Entry());
        }
      }
      forall e | e in S ensures current >= 0 && !Less(e.key, Entry().key) {
        var i, p := UnionIndex(children, e);
        assert children[i].at <= p;
        assert children[i].Valid();
        LessTransitive(Entry().key, children[i].entries[children[i].at].key, e.key);
      }
    }

    lemma LargestOfAll(S: set<Entry>)
      requires Runs(children) && S <= Union(children) && Downward(Union(children), S)
      requires forall i | 0 <= i < |children| :: Behind(children[i].entries, children[i].at, S)
      requires -1 <= current < |children| && direction.Reverse?
      requires current < 0 ==> forall i | 0 <= i < |children| :: !children[i].Valid()
      requires current >= 0 ==> children[current].Valid() && LargestAmong()
      ensures Valid() && IsGreatest(S, At())
    {
      if current >= 0 {
        InUnion(children, current, children[current].at);
        forall i | 0 <= i < |children| && i != current
          ensures Before(children[i].entries, children[i].at, Entry().key)
        {
          ChildBefore(children, i, children[i].at, S, Entry());
        }
      }
      forall e | e in S ensures current >= 0 && !Less(Entry().key, e.key) {
        var i, p := UnionIndex(children, e);
        assert children[i].Valid() && p <= children[i].at;
        LessTransitive(e.key, children[i].entries[children[i].at].key, Entry().key);
      }
    }

    method SeekToFirst()
      requires Valid()
      modifies this, children
      ensures Valid() && IsLeast(Union(children), At())
    {
      for i := 0 to |children|
        invariant forall j | 0 <= j < i :: children[j].at == 0
        invariant Runs(children)
      {
        children[i].SeekToFirst();
      }
      FindSmallest();
      direction := Forward;
      forall i | 0 <= i < |children| ensures Ahead(children[i].entries, children[i].at, Union(children)) {
        WholeRun(children, i);
      }
      SmallestOfAll(Union(children));
    }

    method SeekToLast()
      requires Valid()
      modifies this, children
      ensures Valid() && IsGreatest(Union(children), At())
    {
      for i := 0 to |children|
        invariant forall j | 0 <= j < i ::
                    children[j].at == if children[j].entries == [] then 0 else |children[j].entries| - 1
        invariant Runs(children)
      {
        children[i].SeekToLast();
      }
      FindLargest();
      direction := Reverse;
      forall i | 0 <= i < |children| ensures Behind(children[i].entries, children[i].at, Union(children)) {
        WholeRun(children, i);
      }
      LargestOfAll(Union(children));
    }

    method Seek(target: InternalKey)
      requires Valid()
      modifies this, children
      ensures Valid() && IsLeast(EntriesFrom(Union(children), target), At())
    {
      ghost var S := EntriesFrom(Union(children), target);
      for i := 0 to |children|
        invariant forall j | 0 <= j < i :: From(children[j].entries, children[j].at, target)
        invariant Runs(children)
      {
        children[i].Seek(target);
        SeekLandsFrom(children[i].entries, children[i].at, target);
      }
      FindSmallest();
      direction := Forward;
      forall i | 0 <= i < |children| ensures Ahead(children[i].entries, children[i].at, S) {
        FromIsAhead(children, i, children[i].at, target);
      }
      UpwardFrom(Union(children), target);
      SmallestOfAll(S);
    }

    /** The direction switch of Next: every other child goes to after key(). */
    method PositionAfter()
      requires Valid() && current >= 0
      modifies children
      ensures children[current].at == old(children[current].at)
      ensures forall j | 0 <= j < |children| && j != current ::
                After(children[j].entries, children[j].at, old(Entry().key))
    {
      ghost var k := Entry().key;
      ghost var c := children[current];
      for i := 0 to |children|
        invariant c.at == old(c.at)
        invariant forall j | 0 <= j < i && j != current :: After(children[j].entries, children[j].at, k)
      {
        if i != current {
          var child := children[i];
          OtherChild(children, i, current, c.at);
          child.Seek(Entry().key);
          SeekLandsFrom(child.entries, child.at, k);
          if child.Valid() && child.entries[child.at].key == Entry().key {
            // The source steps past an equal key; distinct keys rule it out.
            assert false;
          }
          FromIsAfter(child.entries, child.at, k);
        }
      }
    }

    method Next()
      requires Valid() && current >= 0
      modifies this, children
      ensures Valid() && IsLeast(EntriesAfter(Union(children), old(Entry().key)), At())
    {
      ghost var k := Entry().key;
      ghost var S := EntriesAfter(Union(children), k);
      ghost var c := children[current];
      if direction != Forward {
        PositionAfter();
        direction := Forward;
      }
      MovedAfter(c.entries, c.at);
      StandsApart();
      children[current].Next();
      assert forall i | 0 <= i < |children| :: After(children[i].entries, children[i].at, k);
      FindSmallest();
      forall i | 0 <= i < |children| ensures Ahead(children[i].entries, children[i].at, S) {
        AfterIsAhead(children, i, children[i].at, k);
      }
      UpwardAfter(Union(children), k);
      SmallestOfAll(S);
    }

    lemma StandsApart()
      requires Runs(children) && 0 <= current < |children|
      ensures forall i | 0 <= i < |children| && i != current :: children[i] != children[current]
    {
    }

    /** The direction switch of Prev: every other child goes to before key(). */
    method PositionBefore()
      requires Valid() && current >= 0
      modifies children
      ensures children[current].at == old(children[current].at)
      ensures forall j | 0 <= j < |children| && j != current ::
                Before(children[j].entries, children[j].at, old(Entry().key))
    {
      ghost var k := Entry().key;
      ghost var c := children[current];
      for i := 0 to |children|
        invariant c.at == old(c.at)
        invariant forall j | 0 <= j < i && j != current :: Before(children[j].entries, children[j].at, k)
      {
        if i != current {
          var child := children[i];
          OtherChild(children, i, current, c.at);
          child.Seek(Entry().key);
          SeekLandsFrom(child.entries, child.at, k);
          StepBack(child.entries, child.at, k);
          if child.Valid() {
            // Child is at the first entry not before key(): step back one.
            child.Prev();
          } else {
            // Child has no such entry: position at the last one.
            child.SeekToLast();
          }
        }
      }
    }

    method Prev()
      requires Valid() && current >= 0
      modifies this, children
      ensures Valid() && IsGreatest(EntriesBefore(Union(children), old(Entry().key)), At())
    {
      ghost var k := Entry().key;
      ghost var S := EntriesBefore(Union(children), k);
      ghost var c := children[current];
      if direction != Reverse {
        PositionBefore();
        direction := Reverse;
      }
      MovedBefore(c.entries, c.at);
      StandsApart();
      children[current].Prev();
      assert forall i | 0 <= i < |children| :: Before(children[i].entries, children[i].at, k);
      FindLargest();
      forall i | 0 <= i < |children| ensures Behind(children[i].entries, children[i].at, S) {
        BeforeIsBehind(children, i, children[i].at, k);
      }
      DownwardBefore(Union(children), k);
      LargestOfAll(S);
    }
  }
}
