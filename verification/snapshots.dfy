/** SnapshotList (snapshot.h): the circular doubly-linked list of live
    snapshots.  New ones go to the end, any one can be deleted, and the first
    after the head is a lower bound of them all. */
module Snapshots {

  class SnapshotImpl {
    const sequenceNumber: nat
    var prev: SnapshotImpl?
    var next: SnapshotImpl?

    constructor (sequenceNumber: nat)
      ensures this.sequenceNumber == sequenceNumber
    {
      this.sequenceNumber := sequenceNumber;
    }
  }

  class SnapshotList {
    // Dummy head of the list.
    const head: SnapshotImpl
    ghost var nodes: seq<SnapshotImpl>

    /** The list as a ring: the head, the nodes and the head again. */
    ghost function AtOf(ring: seq<SnapshotImpl>, i: int): SnapshotImpl
      requires -1 <= i <= |ring|
    {
      if 0 <= i < |ring| then ring[i] else head
    }

    ghost predicate LinkedRing(ring: seq<SnapshotImpl>)
      reads head, ring
    {
      && (forall i | -1 <= i < |ring| :: AtOf(ring, i).next == AtOf(ring, i + 1))
      && (forall i | 0 <= i <= |ring| :: AtOf(ring, i).prev == AtOf(ring, i - 1))
    }

    ghost function At(i: int): SnapshotImpl
      requires -1 <= i <= |nodes|
      reads this
    {
      AtOf(nodes, i)
    }

    /** The sequence numbers in the list, oldest first. */
    ghost function Values(): (r: seq<nat>)
      reads this
      ensures |r| == |nodes| && forall i | 0 <= i < |nodes| :: r[i] == nodes[i].sequenceNumber
    {
      var ring := nodes;
      seq(|ring|, i requires 0 <= i < |ring| => ring[i].sequenceNumber)
    }

    ghost predicate Ordered()
      reads this
    {
      forall i, j | 0 <= i < j < |nodes| :: nodes[i].sequenceNumber <= nodes[j].sequenceNumber
    }

    ghost predicate Valid()
      reads this, head, nodes
    {
      && head !in nodes
      && (forall i, j | 0 <= i < j < |nodes| :: nodes[i] != nodes[j])
      && Ordered() && LinkedRing(nodes)
    }

    constructor ()
      ensures Valid() && nodes == [] && fresh(head)
    {
      var h := new SnapshotImpl(0);
      head := h;
      nodes := [];
      new;
      h.prev := h;
      h.next := h;
    }

    method Empty() returns (r: bool)
      requires Valid()
      ensures r <==> nodes == []
    {
      assert At(-1).next == At(0);
      r := head.next == head;
    }

    /** oldest(): no live snapshot has a smaller sequence number. */
    method Oldest() returns (s: SnapshotImpl)
      requires Valid() && nodes != []
      ensures s == nodes[0] && forall n | n in nodes :: s.sequenceNumber <= n.sequenceNumber
    {
      assert At(-1).next == At(0);
      s := head.next;
    }

    method Newest() returns (s: SnapshotImpl)
      requires Valid() && nodes != []
      ensures s == nodes[|nodes| - 1] && forall n | n in nodes :: n.sequenceNumber <= s.sequenceNumber
    {
      assert At(|nodes|).prev == At(|nodes| - 1);
      s := head.prev;
    }

    method New(sequenceNumber: nat) returns (snapshot: SnapshotImpl)
      requires Valid()
      requires nodes != [] ==> nodes[|nodes| - 1].sequenceNumber <= sequenceNumber
      modifies this, head, nodes
      ensures Valid() && fresh(snapshot) && snapshot.sequenceNumber == sequenceNumber
      ensures nodes == old(nodes) + [snapshot] && Values() == old(Values()) + [sequenceNumber]
    {
      snapshot := new SnapshotImpl(sequenceNumber);
      Link(snapshot);
      nodes := nodes + [snapshot];
    }

    method Link(snapshot: SnapshotImpl)
      requires Valid() && snapshot != head && snapshot !in nodes
      modifies head, nodes, snapshot
      ensures LinkedRing(nodes + [snapshot])
    {
      ghost var last := |nodes|;
      assert head.prev == At(last - 1) && (forall i | -1 <= i < last :: At(i).next == At(i + 1)) by {
        assert At(last).prev == At(last - 1);
      }
      snapshot.next := head;
      snapshot.prev := head.prev;
      snapshot.prev.next := snapshot;
      snapshot.next.prev := snapshot;
      assert forall i | -1 <= i < last - 1 :: At(i) != At(last - 1) && At(i).next == At(i + 1);
      assert forall i | 0 <= i < last :: At(i) != head && At(i).prev == At(i - 1);
      With(snapshot);
    }

    lemma With(snapshot: SnapshotImpl)
      requires snapshot.next == head && snapshot.prev == At(|nodes| - 1)
      requires At(|nodes| - 1).next == snapshot && head.prev == snapshot
      requires forall i | -1 <= i < |nodes| - 1 :: At(i).next == At(i + 1)
      requires forall i | 0 <= i < |nodes| :: At(i).prev == At(i - 1)
      ensures LinkedRing(nodes + [snapshot])
    {
      var ring := nodes + [snapshot];
      forall i | -1 <= i < |ring| ensures AtOf(ring, i).next == AtOf(ring, i + 1) {
        assert i < |nodes| - 1 ==> At(i).next == At(i + 1);
      }
      forall i | 0 <= i <= |ring| ensures AtOf(ring, i).prev == AtOf(ring, i - 1) {
        assert i < |nodes| ==> At(i).prev == At(i - 1);
      }
    }

    /** Unlinks a snapshot wherever it stands. */
    method Delete(snapshot: SnapshotImpl, ghost i: nat)
      requires Valid() && i < |nodes| && nodes[i] == snapshot
      modifies this, head, nodes
      ensures Valid() && nodes == old(nodes)[..i] + old(nodes)[i + 1..]
      ensures Values() == old(Values())[..i] + old(Values())[i + 1..]
    {
      ghost var fewer := nodes[..i] + nodes[i + 1..];
      Fewer(nodes, i);
      Unlink(snapshot, i);
      Without(i);
      hide LinkedRing, Skips;
      nodes := fewer;
      assert Values() == old(Values())[..i] + old(Values())[i + 1..];
    }

    lemma Fewer(ring: seq<SnapshotImpl>, i: nat)
      requires i < |ring| && head !in ring
      requires forall p, q | 0 <= p < q < |ring| :: ring[p] != ring[q] && ring[p].sequenceNumber <= ring[q].sequenceNumber
      ensures var fewer := ring[..i] + ring[i + 1..];
        && head !in fewer
        && forall p, q | 0 <= p < q < |fewer| :: fewer[p] != fewer[q] && fewer[p].sequenceNumber <= fewer[q].sequenceNumber
    {
    }

    method Unlink(snapshot: SnapshotImpl, ghost i: nat)
      requires Valid() && i < |nodes| && nodes[i] == snapshot
      modifies head, nodes
      ensures Skips(i)
    {
      assert snapshot.prev == At(i - 1) && snapshot.next == At(i + 1) by {
        assert At(i).prev == At(i - 1) && At(i).next == At(i + 1);
      }
      snapshot.prev.next := snapshot.next;
      snapshot.next.prev := snapshot.prev;
    }

    /** The ring is linked past node i. */
    ghost predicate Skips(i: nat)
      requires i < |nodes|
      reads this, head, nodes
    {
      && At(i - 1).next == At(i + 1) && At(i + 1).prev == At(i - 1)
      && (forall j | -1 <= j < |nodes| && j != i - 1 && j != i :: At(j).next == At(j + 1))
      && (forall j | 0 <= j <= |nodes| && j != i && j != i + 1 :: At(j).prev == At(j - 1))
    }

    lemma Without(i: nat)
      requires i < |nodes| && Skips(i)
      ensures LinkedRing(nodes[..i] + nodes[i + 1..])
    {
      var ring := nodes[..i] + nodes[i + 1..];
      forall j | -1 <= j < |ring| ensures AtOf(ring, j).next == AtOf(ring, j + 1) {
        var k := if j < i then j else j + 1;
        assert AtOf(ring, j) == At(k);
        assert j != i - 1 ==> At(k).next == At(k + 1);
      }
      forall j | 0 <= j <= |ring| ensures AtOf(ring, j).prev == AtOf(ring, j - 1) {
        var k := if j < i then j else j + 1;
        assert AtOf(ring, j) == At(k);
        assert j != i ==> At(k).prev == At(k - 1);
      }
    }
  }
}
