/** LRUCache: one shard of the sharded cache. */
module Cache {
  import opened DbFormat
  import opened HandleTables

  // ----- A ring of handles around a list head -----

  ghost function Elements(s: seq<Handle>): set<Handle> {
    set h | h in s
  }

  /** Position i of the ring, counted from the head round to the head. */
  ghost function Spot(head: Handle, s: seq<Handle>, i: nat): Handle
    requires i <= |s| + 1
  {
    if i == 0 || i == |s| + 1 then head else s[i - 1]
  }

  /** Going next or prev from the head runs through exactly the handles of s. */
  ghost predicate Ring(head: Handle, s: seq<Handle>)
    reads ({head} + Elements(s))`next, ({head} + Elements(s))`prev
  {
    forall i | 0 <= i <= |s| :: Spot(head, s, i).next == Spot(head, s, i + 1) && Spot(head, s, i + 1).prev == Spot(head, s, i)
  }

  ghost predicate Distinct(s: seq<Handle>) {
    forall i, j | 0 <= i < j < |s| :: s[i] != s[j]
  }

  lemma SpotsDiffer(head: Handle, s: seq<Handle>, i: nat, j: nat)
    requires Distinct(s) && head !in s && i < j <= |s| + 1 && !(i == 0 && j == |s| + 1)
    ensures Spot(head, s, i) != Spot(head, s, j)
  {
  }

  lemma SpotCut(head: Handle, s: seq<Handle>, k: nat, i: nat)
    requires k < |s| && i <= |s|
    ensures |Cut(s, k)| == |s| - 1
    ensures Spot(head, Cut(s, k), i) == Spot(head, s, if i <= k then i else i + 1)
  {
  }

  lemma SpotAppend(head: Handle, s: seq<Handle>, e: Handle, i: nat)
    requires i <= |s| + 2
    ensures Spot(head, s + [e], i) == if i <= |s| then Spot(head, s, i) else if i == |s| + 1 then e else head
  {
  }

  /** LRU_Remove: unlinks e, which is entry k of the ring. */
  method Unlink(e: Handle, ghost head: Handle, ghost s: seq<Handle>, ghost k: nat)
    requires Ring(head, s) && Distinct(s) && head !in s
    requires k < |s| && s[k] == e
    modifies ({head} + Elements(s))`next, ({head} + Elements(s))`prev
    ensures Ring(head, Cut(s, k))
  {
    hide Spot, Distinct;
    ghost var a, b := Spot(head, s, k), Spot(head, s, k + 2);
    ghost var t := Cut(s, k);
    SpotIs(head, s, k);
    SpotIs(head, s, k + 1);
    SpotIs(head, s, k + 2);
    assert a.next == e && e.prev == a && e.next == b && b.prev == e;
    e.next.prev := e.prev;
    e.prev.next := e.next;
    forall i | 0 <= i <= |t| ensures Spot(head, t, i).next == Spot(head, t, i + 1) && Spot(head, t, i + 1).prev == Spot(head, t, i) {
      SpotCut(head, s, k, i);
      SpotCut(head, s, k, i + 1);
      if i < k {
        SpotsDiffer(head, s, i, k);
        RingGap(head, s, i + 1, k + 2);
      } else if i > k {
        SpotsDiffer(head, s, k, i + 1);
        SpotsDiffer(head, s, k + 2, i + 2);
      }
    }
  }

  lemma SpotIs(head: Handle, s: seq<Handle>, i: nat)
    requires i <= |s| + 1
    ensures Spot(head, s, i) == if 1 <= i <= |s| then s[i - 1] else head
  {
  }

  lemma RingGap(head: Handle, s: seq<Handle>, i: nat, j: nat)
    requires Distinct(s) && head !in s && 0 < i < j <= |s| + 1
    ensures Spot(head, s, i) != Spot(head, s, j)
  {
    SpotsDiffer(head, s, i, j);
  }

  /** LRU_Append: makes e the newest entry, just before the head. */
  method LinkLast(e: Handle, head: Handle, ghost s: seq<Handle>)
    requires Ring(head, s) && Distinct(s) && head !in s
    requires e != head && e !in s
    modifies ({head, e} + Elements(s))`next, ({head, e} + Elements(s))`prev
    ensures Ring(head, s + [e])
  {
    hide Spot, Distinct;
    ghost var n, t := |s|, s + [e];
    ghost var last := Spot(head, s, n);
    SpotIs(head, s, n);
    SpotIs(head, s, n + 1);
    assert last.next == head && head.prev == last;
    e.next := head;
    e.prev := head.prev;
    e.prev.next := e;
    e.next.prev := e;
    forall i | 0 <= i <= |t| ensures Spot(head, t, i).next == Spot(head, t, i + 1) && Spot(head, t, i + 1).prev == Spot(head, t, i) {
      SpotAppend(head, s, e, i);
      SpotAppend(head, s, e, i + 1);
      if i < n {
        SpotIs(head, s, i);
        SpotIs(head, s, i + 1);
        SpotsDiffer(head, s, i, n);
        RingGap(head, s, i + 1, n + 1);
      }
    }
  }

  /** Takes e out of one ring and makes it the newest entry of another. */
  method Move(e: Handle, from: Handle, to: Handle, ghost s: seq<Handle>, ghost t: seq<Handle>, ghost k: nat)
    requires Ring(from, s) && Distinct(s) && Ring(to, t) && Distinct(t)
    requires k < |s| && s[k] == e
    requires from != to && from !in s && from !in t && to !in s && to !in t && forall h | h in s :: h !in t
    modifies ({from, to} + Elements(s) + Elements(t))`next, ({from, to} + Elements(s) + Elements(t))`prev
    ensures Ring(from, Cut(s, k)) && Ring(to, t + [e])
  {
    hide Ring, Distinct, Cut;
    Unlink(e, from, s, k);
    assert Ring(to, t);
    CutElements(s, k);
    NotInCut(s, k);
    LinkLast(e, to, t);
  }

  lemma NotInCut(s: seq<Handle>, k: nat)
    requires k < |s| && Distinct(s)
    ensures s[k] !in Cut(s, k)
    ensures forall h | h in Cut(s, k) :: h in s
  {
    CutElements(s, k);
  }

  // ----- Sequences of handles -----

  ghost function Charges(s: seq<Handle>): nat {
    if s == [] then 0 else Charges(s[..|s| - 1]) + s[|s| - 1].charge
  }

  /** s without e. */
  ghost function Minus(s: seq<Handle>, e: Handle): (r: seq<Handle>)
    ensures e !in s ==> r == s
  {
    if e in s then
      var k :| 0 <= k < |s| && s[k] == e;
      Cut(s, k)
    else s
  }

  lemma MinusFacts(s: seq<Handle>, k: nat)
    requires Distinct(s) && k < |s|
    ensures Minus(s, s[k]) == Cut(s, k)
    ensures Distinct(Cut(s, k)) && Elements(Cut(s, k)) == Elements(s) - {s[k]}
    ensures Charges(s) == Charges(Cut(s, k)) + s[k].charge
  {
    hide Charges;
    MinusIsCut(s, k);
    CutElements(s, k);
    CutCharges(s, k);
  }

  lemma MinusIsCut(s: seq<Handle>, k: nat)
    requires Distinct(s) && k < |s|
    ensures Minus(s, s[k]) == Cut(s, k)
  {
    hide Cut;
    forall j | 0 <= j < |s| && s[j] == s[k] ensures j == k {
      assert !(j < k) && !(k < j);
    }
  }

  lemma CutElements(s: seq<Handle>, k: nat)
    requires Distinct(s) && k < |s|
    ensures Distinct(Cut(s, k)) && Elements(Cut(s, k)) == Elements(s) - {s[k]}
  {
    var t := Cut(s, k);
    assert forall j | 0 <= j < |t| :: t[j] == s[if j < k then j else j + 1];
    forall h | h in s && h != s[k] ensures h in t {
      var j :| 0 <= j < |s| && s[j] == h;
      assert t[if j < k then j else j - 1] == h;
    }
    assert s[k] !in t;
  }

  lemma {:induction false} CutCharges(s: seq<Handle>, k: nat)
    requires k < |s|
    ensures Charges(s) == Charges(Cut(s, k)) + s[k].charge
  {
    var n := |s| - 1;
    if k == n {
      assert Cut(s, k) == s[..n];
    } else {
      CutCharges(s[..n], k);
      assert Cut(s, k)[..n - 1] == Cut(s[..n], k);
    }
  }

  lemma PlusFacts(s: seq<Handle>, e: Handle)
    requires Distinct(s) && e !in s
    ensures Distinct(s + [e]) && Elements(s + [e]) == Elements(s) + {e}
    ensures Charges(s + [e]) == Charges(s) + e.charge
  {
    assert (s + [e])[..|s|] == s;
  }

  lemma ListsApart(s: seq<Handle>, t: seq<Handle>)
    requires Elements(s) !! Elements(t)
    ensures forall h | h in s :: h !in t
  {
    forall h | h in s ensures h !in t {
      assert h in Elements(s);
    }
  }

  lemma ElementsOf(s: seq<Handle>)
    ensures forall h :: h in s <==> h in Elements(s)
  {
  }

  /** The two lists, as they lie in memory. */
  ghost predicate TwoRings(lru: Handle, inUse: Handle, a: seq<Handle>, b: seq<Handle>, all: set<Handle>)
    reads ({lru, inUse} + all)`next, ({lru, inUse} + all)`prev
  {
    && lru != inUse && lru !in all && inUse !in all
    && Elements(a) <= all && Elements(b) <= all
    && Elements(a) !! Elements(b)
    && Distinct(a) && Distinct(b)
    && Ring(lru, a) && Ring(inUse, b)
  }

  /** References: one for each time the handle is held, one for the cache, and
      one more for those in `extra`.  A handle the cache refers to is on one of
      the lists, on the lru list exactly when nobody else refers to it.  The
      deleter has run once for a handle without references, and not for any
      other.  A handle in `loose` is being moved. */
  ghost predicate References(all: set<Handle>, lruList: seq<Handle>, inUseList: seq<Handle>, held: multiset<Handle>,
                             deletions: seq<Handle>, extra: set<Handle>, loose: set<Handle>)
    reads all`refs, all`inCache
  {
    && (forall h | h in all ::
          && h.refs == held[h] + (if h.inCache then 1 else 0) + (if h in extra then 1 else 0)
          && (h.inCache <==> h in lruList || h in inUseList)
          && (h !in loose && h in lruList ==> h.refs == 1)
          && (h !in loose && h in inUseList ==> h.refs >= 2)
          && multiset(deletions)[h] == if h.refs == 0 && h !in loose then 1 else 0)
    && (forall h | h in held :: h in all)
    && (forall h | h in deletions :: h in all)
  }

  lemma ListedIsCounted(all: set<Handle>, a: seq<Handle>, b: seq<Handle>, held: multiset<Handle>,
                        deletions: seq<Handle>, extra: set<Handle>, loose: set<Handle>, e: Handle)
    requires References(all, a, b, held, deletions, extra, loose)
    requires e in all && (e in a || e in b)
    ensures e.inCache && e.refs > 0
  {
  }

  /** Moving one handle between the lists. */
  lemma ReferencesAfterMove(all: set<Handle>, a: seq<Handle>, b: seq<Handle>, a': seq<Handle>, b': seq<Handle>,
                            held: multiset<Handle>, deletions: seq<Handle>, extra: set<Handle>, loose: set<Handle>, e: Handle)
    requires References(all, a, b, held, deletions, extra, loose) && loose <= {e}
    requires e in all && e.inCache && e.refs > 0
    requires Elements(a') - {e} == Elements(a) - {e} && Elements(b') - {e} == Elements(b) - {e}
    requires e in a' || e in b'
    ensures References(all, a', b', held, deletions, extra, {e})
  {
    forall h | h in all && h != e ensures (h in a' <==> h in a) && (h in b' <==> h in b) {
      assert h in Elements(a') - {e} <==> h in Elements(a) - {e};
      assert h in Elements(b') - {e} <==> h in Elements(b) - {e};
    }
  }

  /** A moved handle that ended up where it belongs. */
  lemma Settle(all: set<Handle>, a: seq<Handle>, b: seq<Handle>, held: multiset<Handle>, deletions: seq<Handle>, e: Handle)
    requires References(all, a, b, held, deletions, {}, {e})
    requires e.refs > 0 && (e in a ==> e.refs == 1) && (e in b ==> e.refs >= 2)
    ensures References(all, a, b, held, deletions, {}, {})
  {
  }

  lemma ListsWithout(a: seq<Handle>, b: seq<Handle>, a': seq<Handle>, b': seq<Handle>, e: Handle)
    requires Elements(a') == Elements(a) - {e} && Elements(b') == Elements(b) - {e}
    ensures forall h :: h in a' <==> h in a && h != e
    ensures forall h :: h in b' <==> h in b && h != e
  {
    forall h ensures (h in a' <==> h in a && h != e) && (h in b' <==> h in b && h != e) {
      assert (h in Elements(a') <==> h in Elements(a) - {e}) && (h in Elements(b') <==> h in Elements(b) - {e});
    }
  }

  lemma MinusNothing(s: seq<Handle>, e: Handle)
    requires e !in s
    ensures Minus(s, e) == s && Elements(s) == Elements(s) - {e}
  {
  }

  class LRUCache {
    var capacity: nat
    var usage: nat
    /** List heads: the oldest entry is the head's next. */
    const lru: Handle
    const inUse: Handle
    const table: HandleTable

    ghost var lruList: seq<Handle>
    ghost var inUseList: seq<Handle>
    /** The handles given out to clients and not yet released. */
    ghost var held: multiset<Handle>
    /** Every handle made so far, and the runs of their deleters. */
    ghost var all: set<Handle>
    ghost var deletions: seq<Handle>

    ghost predicate Rings()
      reads this`lruList, this`inUseList, this`all, ({lru, inUse} + all)`next, ({lru, inUse} + all)`prev
    {
      TwoRings(lru, inUse, lruList, inUseList, all)
    }

    /** The table holds what is on the two lists, except `out`, which has just
        been taken out of it or is not yet in it. */
    ghost predicate Tabled(out: set<Handle>)
      reads this`lruList, this`inUseList, table, table.list, table.nodes`nextHash
    {
      && table.Valid()
      && table.nodes !! out
      && table.nodes + out == Elements(lruList) + Elements(inUseList)
    }

    ghost predicate Counted(extra: set<Handle>, loose: set<Handle>)
      reads this`lruList, this`inUseList, this`all, this`held, this`deletions, all`refs, all`inCache
    {
      References(all, lruList, inUseList, held, deletions, extra, loose)
    }

    ghost predicate Charged()
      reads this`usage, this`lruList, this`inUseList
    {
      usage == Charges(lruList) + Charges(inUseList)
    }

    ghost predicate Inv(out: set<Handle>, extra: set<Handle>, loose: set<Handle>)
      reads this, table, table.list, lru, inUse, all, table.nodes
    {
      Rings() && Tabled(out) && Counted(extra, loose) && Charged()
    }

    ghost predicate Valid()
      reads this, table, table.list, lru, inUse, all, table.nodes
    {
      Inv({}, {}, {})
    }

    constructor (c: nat)
      ensures capacity == c && usage == 0 && lruList == [] && inUseList == [] && held == multiset{} && deletions == [] && all == {}
      ensures fresh(lru) && fresh(inUse) && fresh(table) && fresh(table.list) && table.Valid() && table.nodes == {}
      ensures lru != inUse && lru.next == lru && lru.prev == lru && inUse.next == inUse && inUse.prev == inUse
    {
      hide *;
      capacity, usage := c, 0;
      lru := new Handle([], 0, 0, 0);
      inUse := new Handle([], 0, 0, 0);
      table := new HandleTable();
      lruList, inUseList, held, all, deletions := [], [], multiset{}, {}, [];
      new;
      lru.next, lru.prev := lru, lru;
      inUse.next, inUse.prev := inUse, inUse;
    }

    /** What the constructor leaves is valid. */
    lemma NewIsValid()
      requires usage == 0 && lruList == [] && inUseList == [] && held == multiset{} && deletions == [] && all == {}
      requires table.Valid() && table.nodes == {}
      requires lru != inUse && lru.next == lru && lru.prev == lru && inUse.next == inUse && inUse.prev == inUse
      ensures Valid()
    {
      hide HandleTable.Valid;
    }

    // ----- Unfolding the invariant -----

    lemma OnLists(out: set<Handle>, extra: set<Handle>, loose: set<Handle>)
      requires Inv(out, extra, loose)
      ensures Rings() && Tabled(out) && Counted(extra, loose) && Charged() && table.Valid()
      ensures Elements(lruList) <= all && Elements(inUseList) <= all && table.nodes <= all
      ensures Elements(lruList) !! Elements(inUseList)
      ensures forall h :: h in Elements(lruList) <==> h in lruList
      ensures forall h :: h in Elements(inUseList) <==> h in inUseList
    {
      hide Ring, Distinct, HandleTable.Valid;
      ElementsOf(lruList);
      ElementsOf(inUseList);
    }

    /** On which list a handle is can be told from its references. */
    lemma WhichList(out: set<Handle>, extra: set<Handle>, e: Handle)
      requires Inv(out, extra, {}) && e in all && e !in extra
      ensures e in lruList <==> e.inCache && e.refs == 1
      ensures e in inUseList <==> e.inCache && e.refs >= 2
    {
      hide Ring, Distinct, HandleTable.Valid;
    }

    lemma MakeInv(out: set<Handle>, extra: set<Handle>, loose: set<Handle>)
      requires Rings() && Tabled(out) && Counted(extra, loose) && Charged()
      ensures Inv(out, extra, loose)
    {
    }

    // ----- Steps -----

    /** Moves e to the newest end of the in-use list. */
    method ToInUse(e: Handle)
      requires Inv({}, {}, {}) && e in lruList
      modifies this`lruList, this`inUseList, ({lru, inUse} + all)`next, ({lru, inUse} + all)`prev
      ensures Inv({}, {}, {e}) && e !in lruList
      ensures lruList == Minus(old(lruList), e) && inUseList == old(inUseList) + [e]
    {
      hide Ring, Distinct, Cut, Charges, Minus, Inv, HandleTable.Valid, Elements, References;
      OnLists({}, {}, {});
      ListsApart(lruList, inUseList);
      ghost var a, b := lruList, inUseList;
      ghost var k :| 0 <= k < |a| && a[k] == e;
      MinusFacts(a, k);
      PlusFacts(b, e);
      Move(e, lru, inUse, a, b, k);
      lruList, inUseList := Cut(a, k), b + [e];
      ElementsOf(lruList);
      ListedIsCounted(all, a, b, held, deletions, {}, {}, e);
      ReferencesAfterMove(all, a, b, lruList, inUseList, held, deletions, {}, {}, e);
      MakeInv({}, {}, {e});
    }

    /** Moves e to the newest end of the lru list. */
    method ToLru(e: Handle)
      requires Inv({}, {}, {e}) && e in inUseList && e.refs == 1
      modifies this`lruList, this`inUseList, ({lru, inUse} + all)`next, ({lru, inUse} + all)`prev
      ensures Inv({}, {}, {})
      ensures inUseList == Minus(old(inUseList), e) && lruList == old(lruList) + [e]
    {
      hide Ring, Distinct, Cut, Charges, Minus, Inv, HandleTable.Valid, Elements, References;
      OnLists({}, {}, {e});
      ListsApart(inUseList, lruList);
      ghost var a, b := lruList, inUseList;
      ghost var k :| 0 <= k < |b| && b[k] == e;
      MinusFacts(b, k);
      PlusFacts(a, e);
      Move(e, inUse, lru, b, a, k);
      inUseList, lruList := Cut(b, k), a + [e];
      ListedIsCounted(all, a, b, held, deletions, {}, {e}, e);
      ReferencesAfterMove(all, a, b, lruList, inUseList, held, deletions, {}, {e}, e);
      assert e !in Elements(inUseList) && e !in inUseList by {
        ElementsOf(inUseList);
      }
      Settle(all, lruList, inUseList, held, deletions, e);
      MakeInv({}, {}, {});
    }

    method Bump(e: Handle, ghost loose: set<Handle>)
      requires Inv({}, {}, loose) && loose <= {e}
      requires e in all && e.refs > 0 && e !in lruList
      modifies this`held, all`refs
      ensures Inv({}, {}, {}) && held == old(held) + multiset{e}
    {
      hide TwoRings, Charges, Inv, HandleTable.Valid, Elements;
      OnLists({}, {}, loose);
      e.refs := e.refs + 1;
      held := held + multiset{e};
      MakeInv({}, {}, {});
    }

    /** One more client holds e. */
    method Ref(e: Handle)
      requires Valid() && e in all && e.refs > 0
      modifies this`lruList, this`inUseList, this`held
      modifies all`refs, ({lru, inUse} + all)`next, ({lru, inUse} + all)`prev
      ensures Valid() && held == old(held) + multiset{e}
      ensures e in old(lruList) ==> lruList == Minus(old(lruList), e) && inUseList == old(inUseList) + [e]
      ensures e !in old(lruList) ==> lruList == old(lruList) && inUseList == old(inUseList)
    {
      hide TwoRings, Charges, Inv, HandleTable.Valid, Elements, References, Minus;
      WhichList({}, {}, e);
      ghost var loose: set<Handle> := {};
      if e.refs == 1 && e.inCache {
        // On the lru list: move to the in-use list.
        ToInUse(e);
        loose := {e};
      }
      Bump(e, loose);
    }

    /** Drops the reference in `extra`. */
    method Drop(e: Handle)
      requires Inv({}, {e}, {}) && e in all
      modifies all`refs
      ensures Inv({}, {}, {e})
      ensures e.refs + 1 == old(e.refs)
      ensures e !in lruList && (e.refs == 0 ==> !e.inCache) && (e.inCache <==> e in inUseList)
      ensures old(deletions) == deletions && held[e] == e.refs - if e.inCache then 1 else 0
    {
      hide TwoRings, Charges, Inv, HandleTable.Valid, Elements;
      OnLists({}, {e}, {});
      assert e.refs > 0;
      e.refs := e.refs - 1;
      MakeInv({}, {}, {e});
    }

    /** Runs the deleter of e. */
    method Delete(e: Handle)
      requires Inv({}, {}, {e}) && e in all && e.refs == 0 && e !in inUseList && e !in lruList
      modifies this`deletions
      ensures Inv({}, {}, {}) && deletions == old(deletions) + [e]
    {
      hide TwoRings, Charges, Inv, HandleTable.Valid, Elements;
      OnLists({}, {}, {e});
      deletions := deletions + [e];
      MakeInv({}, {}, {});
    }

    /** Drops the reference in `extra`; the last one takes the handle along. */
    method Unref(e: Handle)
      requires Inv({}, {e}, {}) && e in all
      modifies this`lruList, this`inUseList, this`deletions
      modifies all`refs, ({lru, inUse} + all)`next, ({lru, inUse} + all)`prev
      ensures Valid()
      ensures deletions == old(deletions) + if old(e.refs) == 1 then [e] else []
      ensures if old(e.inCache) && old(e.refs) == 2
        then lruList == old(lruList) + [e] && inUseList == Minus(old(inUseList), e)
        else lruList == old(lruList) && inUseList == old(inUseList)
    {
      hide TwoRings, Charges, Inv, HandleTable.Valid, Elements, References, Minus;
      Drop(e);
      if e.refs == 0 {
        Delete(e);
      } else if e.inCache && e.refs == 1 {
        // No longer in use; move to the lru list.
        ToLru(e);
      } else {
        Settled(e);
      }
    }

    lemma Settled(e: Handle)
      requires Inv({}, {}, {e}) && e.refs > 0 && e !in lruList && (e in inUseList ==> e.refs >= 2)
      ensures Valid()
    {
      hide TwoRings, Charges, HandleTable.Valid, Elements;
      Settle(all, lruList, inUseList, held, deletions, e);
    }

    /** LRU_Remove, on whichever list e is. */
    method Remove(e: Handle)
      requires Rings() && (e in lruList || e in inUseList)
      modifies this`lruList, this`inUseList, ({lru, inUse} + all)`next, ({lru, inUse} + all)`prev
      ensures Rings()
      ensures lruList == Minus(old(lruList), e) && inUseList == Minus(old(inUseList), e)
      ensures Elements(lruList) + Elements(inUseList) == old(Elements(lruList) + Elements(inUseList)) - {e}
      ensures forall h :: h in lruList <==> h in old(lruList) && h != e
      ensures forall h :: h in inUseList <==> h in old(inUseList) && h != e
      ensures Charges(lruList) + Charges(inUseList) + e.charge == old(Charges(lruList) + Charges(inUseList))
    {
      hide Ring, Distinct, Cut, Charges, Minus, Elements;
      ghost var a, b := lruList, inUseList;
      ListsApart(a, b);
      ghost var s := if e in a then a else b;
      ghost var k :| 0 <= k < |s| && s[k] == e;
      MinusFacts(s, k);
      ElementsOf(s);
      MinusNothing(if e in a then b else a, e);
      Unlink(e, if e in a then lru else inUse, s, k);
      if e in a {
        lruList := Cut(a, k);
      } else {
        inUseList := Cut(b, k);
      }
      ListsWithout(a, b, lruList, inUseList, e);
    }

    /** Takes e off its list and out of the charge; the cache's reference to it
        is still counted. */
    method Detach(e: Handle)
      requires Inv({e}, {}, {}) && e in all
      modifies this`lruList, this`inUseList, this`usage
      modifies all`inCache, ({lru, inUse} + all)`next, ({lru, inUse} + all)`prev
      ensures Inv({}, {e}, {})
      ensures lruList == Minus(old(lruList), e) && inUseList == Minus(old(inUseList), e)
      ensures usage + e.charge == old(usage) && !e.inCache
    {
      hide TwoRings, Charges, Minus, Inv, HandleTable.Valid, Elements;
      OnLists({e}, {}, {});
      assert e in Elements(lruList) + Elements(inUseList);
      Remove(e);
      e.inCache := false;
      usage := usage - e.charge;
      MakeInv({}, {e}, {});
    }

    /** If e is not null, finishes removing it from the cache; it has already
        been removed from the hash table. */
    method FinishErase(e: Handle?) returns (erased: bool)
      requires Inv(NonNull(e), {}, {}) && NonNull(e) <= all
      modifies this`lruList, this`inUseList, this`usage, this`deletions
      modifies all`inCache, all`refs, ({lru, inUse} + all)`next, ({lru, inUse} + all)`prev
      ensures Valid() && erased == (e != null)
      ensures e == null ==> lruList == old(lruList) && inUseList == old(inUseList) && usage == old(usage) && deletions == old(deletions)
      ensures e != null ==> lruList == Minus(old(lruList), e) && inUseList == Minus(old(inUseList), e)
      ensures e != null ==> usage + e.charge == old(usage)
      ensures e != null ==> deletions == old(deletions) + if held[e] == 0 then [e] else []
    {
      hide TwoRings, Charges, Inv, HandleTable.Valid, Elements, Minus;
      if e != null {
        Detach(e);
        OneReference(e);
        Unref(e);
      }
      erased := e != null;
    }

    lemma OneReference(e: Handle)
      requires Inv({}, {e}, {}) && e in all && !e.inCache
      ensures e.refs == held[e] + 1
    {
      hide TwoRings, Charges, HandleTable.Valid, Elements;
    }

    // ----- The table -----

    method TableInsert(e: Handle) returns (old_: Handle?)
      requires Inv({e}, {}, {}) && e in all
      modifies table, table.list, all`nextHash
      ensures Inv(NonNull(old_), {}, {}) && NonNull(old_) <= all
      ensures table.list == old(table.list) || fresh(table.list)
      ensures old_ != null ==> old_ in old(table.nodes) && Matches(old_, e.key, e.hash)
      ensures old_ == null ==> forall n | n in old(table.nodes) :: !Matches(n, e.key, e.hash)
      ensures table.nodes == Without(old(table.nodes), old_) + {e}
    {
      hide TwoRings, References, Charges, Inv, HandleTable.Valid, Elements;
      OnLists({e}, {}, {});
      old_ := table.Insert(e);
      MakeInv(NonNull(old_), {}, {});
    }

    method TableRemove(key: Bytes, hash: nat) returns (e: Handle?)
      requires Valid()
      modifies table, table.list, all`nextHash
      ensures Inv(NonNull(e), {}, {}) && NonNull(e) <= all
      ensures table.list == old(table.list) || fresh(table.list)
      ensures e != null ==> e in old(table.nodes) && Matches(e, key, hash)
      ensures e == null ==> forall n | n in old(table.nodes) :: !Matches(n, key, hash)
      ensures table.nodes == Without(old(table.nodes), e)
    {
      hide TwoRings, References, Charges, Inv, HandleTable.Valid, Elements;
      OnLists({}, {}, {});
      e := table.Remove(key, hash);
      MakeInv(NonNull(e), {}, {});
    }

    // ----- The cache's operations -----

    /** The handle cached for the key, if any, now held by the caller too. */
    method Lookup(key: Bytes, hash: nat) returns (e: Handle?)
      requires Valid()
      modifies this`lruList, this`inUseList, this`held
      modifies all`refs, ({lru, inUse} + all)`next, ({lru, inUse} + all)`prev
      ensures Valid()
      ensures e == null ==> forall n | n in table.nodes :: !Matches(n, key, hash)
      ensures e == null ==> held == old(held) && lruList == old(lruList) && inUseList == old(inUseList)
      ensures e != null ==> e in table.nodes && Matches(e, key, hash) && held == old(held) + multiset{e}
      ensures e != null && e in old(lruList) ==> lruList == Minus(old(lruList), e) && inUseList == old(inUseList) + [e]
      ensures e != null && e !in old(lruList) ==> lruList == old(lruList) && inUseList == old(inUseList)
    {
      hide TwoRings, References, Charges, Inv, HandleTable.Valid, Elements, Minus;
      OnLists({}, {}, {});
      e := table.Lookup(key, hash);
      if e != null {
        TabledIsCounted(e);
        Ref(e);
      }
    }

    lemma TabledIsCounted(e: Handle)
      requires Valid() && e in table.nodes
      ensures e in all && e.inCache && e.refs > 0 && (e in lruList || e in inUseList)
    {
      hide TwoRings, Charges, HandleTable.Valid;
      OnLists({}, {}, {});
      assert e in Elements(lruList) + Elements(inUseList);
    }

    /** A client gives back a handle it holds. */
    method Release(e: Handle)
      requires Valid() && e in held
      modifies this`lruList, this`inUseList, this`deletions, this`held
      modifies all`refs, ({lru, inUse} + all)`next, ({lru, inUse} + all)`prev
      ensures Valid() && held == old(held) - multiset{e}
      ensures deletions == old(deletions) + if e !in held && !old(e.inCache) then [e] else []
      ensures if e !in held && old(e.inCache)
        then lruList == old(lruList) + [e] && inUseList == Minus(old(inUseList), e)
        else lruList == old(lruList) && inUseList == old(inUseList)
    {
      hide TwoRings, Charges, Inv, HandleTable.Valid, Elements, Minus;
      OnLists({}, {}, {});
      held := held - multiset{e};
      MakeInv({}, {e}, {});
      hide References;
      Unref(e);
    }

    method Erase(key: Bytes, hash: nat) returns (ghost e: Handle?)
      requires Valid()
      modifies this`lruList, this`inUseList, this`usage, this`deletions, table, table.list
      modifies all`inCache, all`refs, all`nextHash, ({lru, inUse} + all)`next, ({lru, inUse} + all)`prev
      ensures Valid()
      ensures e == null ==> forall n | n in old(table.nodes) :: !Matches(n, key, hash)
      ensures e != null ==> e in old(table.nodes) && Matches(e, key, hash)
      ensures table.nodes == Without(old(table.nodes), e)
      ensures e == null ==> lruList == old(lruList) && inUseList == old(inUseList) && usage == old(usage) && deletions == old(deletions)
      ensures e != null ==> lruList == Minus(old(lruList), e) && inUseList == Minus(old(inUseList), e)
      ensures e != null ==> usage + e.charge == old(usage)
      ensures e != null ==> deletions == old(deletions) + if held[e] == 0 then [e] else []
    {
      hide TwoRings, References, Charges, Inv, HandleTable.Valid, Elements, Minus;
      var removed := TableRemove(key, hash);
      e := removed;
      var erased := FinishErase(removed);
    }

    /** The head's next is the oldest entry; it is cached and nobody holds it. */
    lemma OldestIsFirst()
      requires Valid()
      ensures lru.next == lru <==> lruList == []
      ensures lruList != [] ==>
        lru.next == lruList[0] && lruList[0] in table.nodes && held[lruList[0]] == 0 && lruList[0] !in inUseList
    {
      hide Charges, HandleTable.Valid, Distinct;
      OnLists({}, {}, {});
      SpotIs(lru, lruList, 0);
      SpotIs(lru, lruList, 1);
      if lruList != [] {
        assert lruList[0] in Elements(lruList) + Elements(inUseList);
      }
    }

    lemma SameKey(x: Handle, y: Handle)
      requires Valid() && x in table.nodes && y in table.nodes && Matches(x, y.key, y.hash)
      ensures x == y
    {
      hide TwoRings, References, Charges, Chain, Matches, Holds;
      if x != y {
        KeysDiffer(table.chains, table.nodes, x, y);
      }
    }

    lemma MinusFirst()
      requires Valid() && lruList != []
      ensures Minus(lruList, lruList[0]) == lruList[1..]
    {
      hide References, Charges, HandleTable.Valid, Ring;
      MinusFacts(lruList, 0);
      assert Cut(lruList, 0) == lruList[1..];
    }

    /** The body of the eviction loops of Insert and Prune. */
    method EvictOldest()
      requires Valid() && lruList != []
      modifies this`lruList, this`inUseList, this`usage, this`deletions, table, table.list
      modifies all`inCache, all`refs, all`nextHash, ({lru, inUse} + all)`next, ({lru, inUse} + all)`prev
      ensures Valid() && (table.list == old(table.list) || fresh(table.list))
      ensures lruList == old(lruList)[1..] && inUseList == old(inUseList)
      ensures table.nodes == old(table.nodes) - {old(lruList[0])}
      ensures usage + old(lruList[0]).charge == old(usage)
      ensures deletions == old(deletions) + [old(lruList[0])]
    {
      hide TwoRings, References, Charges, Inv, HandleTable.Valid, Elements, Minus, Valid;
      OldestIsFirst();
      MinusFirst();
      MinusNothing(inUseList, lruList[0]);
      var oldest := lru.next;
      ghost var nodes := table.nodes;
      forall n | n in nodes && Matches(n, oldest.key, oldest.hash) ensures n == oldest {
        SameKey(n, oldest);
      }
      var removed := TableRemove(oldest.key, oldest.hash);
      assert removed == oldest;
      var erased := FinishErase(removed);
      assert erased;
    }

    /** Drops every cached handle that nobody holds. */
    method Prune()
      requires Valid()
      modifies this`lruList, this`inUseList, this`usage, this`deletions, table, table.list
      modifies all`inCache, all`refs, all`nextHash, ({lru, inUse} + all)`next, ({lru, inUse} + all)`prev
      ensures Valid() && lruList == [] && inUseList == old(inUseList)
      ensures deletions == old(deletions) + old(lruList)
    {
      hide TwoRings, References, Charges, Inv, HandleTable.Valid, Elements, Minus, Valid;
      ghost var n := 0;
      OldestIsFirst();
      while lru.next != lru
        invariant Valid() && (table.list == old(table.list) || fresh(table.list))
        invariant lru.next == lru <==> lruList == []
        invariant n <= |old(lruList)| && lruList == old(lruList)[n..] && inUseList == old(inUseList)
        invariant deletions == old(deletions) + old(lruList)[..n]
        decreases |lruList|
      {
        EvictOldest();
        n := n + 1;
        OldestIsFirst();
      }
    }

    /** A new handle, held by the caller and not cached. */
    method NewHandle(key: Bytes, hash: nat, value: nat, charge: nat) returns (e: Handle)
      requires Valid()
      modifies this`all, this`held
      ensures Valid() && fresh(e)
      ensures e.key == key && e.hash == hash && e.value == value && e.charge == charge
      ensures all == old(all) + {e} && held == old(held) + multiset{e}
      ensures e.refs == 1 && !e.inCache && e !in table.nodes && held[e] == 1
    {
      hide Ring, Distinct, Charges, HandleTable.Valid, Inv, Elements;
      OnLists({}, {}, {});
      e := new Handle(key, hash, value, charge);
      all := all + {e};
      held := held + multiset{e};
      assert Rings();
      MakeInv({}, {}, {});
    }

    /** Gives the cache its reference to e and makes e the newest in use. */
    method AddToCache(e: Handle)
      requires Valid() && e in all && !e.inCache && e.refs == 1 && held[e] == 1
      modifies this`inUseList, this`usage
      modifies all`refs, all`inCache, ({lru, inUse} + all)`next, ({lru, inUse} + all)`prev
      ensures Inv({e}, {}, {})
      ensures lruList == old(lruList) && inUseList == old(inUseList) + [e] && usage == old(usage) + e.charge
    {
      hide Ring, Distinct, Charges, HandleTable.Valid, Inv, Elements;
      OnLists({}, {}, {});
      assert e !in Elements(lruList) && e !in Elements(inUseList);
      PlusFacts(inUseList, e);
      LinkLast(e, inUse, inUseList);
      inUseList := inUseList + [e];
      assert Rings();
      e.refs := e.refs + 1;
      e.inCache := true;
      usage := usage + e.charge;
      MakeInv({e}, {}, {});
    }

    /** The eviction loop of Insert: the oldest go until the charge fits. */
    method EvictOverCapacity() returns (ghost evicted: nat)
      requires Valid()
      modifies this`lruList, this`inUseList, this`usage, this`deletions, table, table.list
      modifies all`inCache, all`refs, all`nextHash, ({lru, inUse} + all)`next, ({lru, inUse} + all)`prev
      ensures Valid() && inUseList == old(inUseList)
      ensures usage <= capacity || lruList == []
      ensures evicted <= |old(lruList)| && lruList == old(lruList)[evicted..]
      ensures evicted > 0 ==> usage + old(lruList)[evicted - 1].charge > capacity
      ensures deletions == old(deletions) + old(lruList)[..evicted]
    {
      hide TwoRings, References, Charges, Inv, HandleTable.Valid, Elements, Minus, Valid, Matches;
      evicted := 0;
      OldestIsFirst();
      while usage > capacity && lru.next != lru
        invariant Valid() && (table.list == old(table.list) || fresh(table.list))
        invariant lru.next == lru <==> lruList == []
        invariant evicted <= |old(lruList)| && lruList == old(lruList)[evicted..] && inUseList == old(inUseList)
        invariant evicted > 0 ==> usage + old(lruList)[evicted - 1].charge > capacity
        invariant deletions == old(deletions) + old(lruList)[..evicted]
        decreases |lruList|
      {
        EvictOldest();
        evicted := evicted + 1;
        OldestIsFirst();
      }
    }

    /** Caches a value, replacing the handle with the same key and then evicting
        from the oldest on while the charge is over the capacity. */
    method Insert(key: Bytes, hash: nat, value: nat, charge: nat)
      returns (e: Handle, ghost replaced: Handle?, ghost evicted: nat)
      requires Valid()
      modifies this, table, table.list, lru, inUse, all
      ensures Valid() && fresh(e)
      ensures e.key == key && e.hash == hash && e.value == value && e.charge == charge
      ensures held == old(held) + multiset{e} && all == old(all) + {e} && capacity == old(capacity)
      ensures usage <= capacity || lruList == []
      ensures capacity == 0 ==> replaced == null && inUseList == old(inUseList)
      ensures capacity > 0 && replaced == null ==>
        inUseList == old(inUseList) + [e] && forall n | n in old(table.nodes) :: !Matches(n, key, hash)
      ensures capacity > 0 && replaced != null ==>
        inUseList == Minus(old(inUseList) + [e], replaced) && replaced in old(table.nodes) && Matches(replaced, key, hash)
      ensures var left := if replaced == null then old(lruList) else Minus(old(lruList), replaced);
        && evicted <= |left| && lruList == left[evicted..]
        && (evicted > 0 ==> usage + left[evicted - 1].charge > capacity)
        && deletions == (old(deletions) + if replaced != null && held[replaced] == 0 then [replaced] else []) + left[..evicted]
    {
      hide TwoRings, References, Charges, Inv, HandleTable.Valid, Elements, Minus, Valid, Matches;
      replaced := null;
      e := NewHandle(key, hash, value, charge);
      if capacity > 0 {
        AddToCache(e);
        var old_ := TableInsert(e);
        replaced := old_;
        var erased := FinishErase(old_);
      }
      evicted := EvictOverCapacity();
    }
  }
}
