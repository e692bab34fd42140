/** Block::Iter over a finished block. */
module Block {
  import opened DbFormat
  import opened Coding
  import opened BlockFormat
  import opened Comparator
  import opened BlockBuilders

  /** Block::Block: the number of restarts and where their array starts; None is
      the error marker. */
  function Open(data: Bytes): (r: Option<(nat, nat)>)
    ensures r.Some? ==> r.value.1 + 4 * r.value.0 + 4 == |data|
  {
    if |data| < 4 then None
    else
      var numRestarts := DecodeFixed32(data[|data| - 4..]);
      if numRestarts > (|data| - 4) / 4 then None
      else Some((numRestarts, |data| - (1 + numRestarts) * 4))
  }

  /** Opening a finished block finds what the builder put there. */
  lemma OpenFinished(buffer: Bytes, restarts: seq<nat>)
    requires Bounded(restarts)
    ensures var data := BlockBytes(buffer, restarts);
      && Open(data) == Some((|restarts|, |buffer|))
      && data[..|buffer|] == buffer
      && forall i | 0 <= i < |restarts| ::
           var at := |buffer| + 4 * i;
           at + 4 <= |data| && DecodeFixed32(data[at..at + 4]) == restarts[i]
  {
    hide Fixed32, DecodeFixed32, RestartArray;
    var data := BlockBytes(buffer, restarts);
    var restartArray := RestartArray(restarts);
    assert data[|data| - 4..] == Fixed32(|restarts|);
    Fixed32RoundTrip(|restarts|);
    forall i | 0 <= i < |restarts|
      ensures var at := |buffer| + 4 * i; at + 4 <= |data| && DecodeFixed32(data[at..at + 4]) == restarts[i]
    {
      var at := |buffer| + 4 * i;
      RestartAt(restarts, i);
      assert data[at..at + 4] == restartArray[4 * i..4 * i + 4];
      Fixed32RoundTrip(restarts[i]);
    }
  }

  ghost predicate KeysAscend(entries: seq<Pair>, before: Order) {
    forall i, j | 0 <= i < j < |entries| :: before(entries[i].key, entries[j].key)
  }

  class Iter {
    const data: Bytes
    const restarts: nat
    const numRestarts: nat
    const before: Order
    ghost const layout: Layout
    ghost const points: seq<nat>

    /** The offset of the current entry; `restarts` when not valid. */
    var current: nat
    var restartIndex: nat
    var key: Bytes
    /** The value is data[valueAt..valueAt + valueLength]. */
    var valueAt: nat
    var valueLength: nat

    ghost predicate Formed() {
      && restarts + 4 * numRestarts <= |data|
      && numRestarts == |points|
      && Laid(data[..restarts], points, layout)
      && forall i | 0 <= i < numRestarts :: RestartPoint(i) == points[i]
    }

    ghost function Entries(): seq<Pair> {
      layout.entries
    }

    ghost function Start(i: nat): nat {
      Off(layout, restarts, i)
    }

    function RestartPoint(index: nat): nat
      requires index < numRestarts && restarts + 4 * numRestarts <= |data|
    {
      DecodeFixed32(data[restarts + index * 4..restarts + index * 4 + 4])
    }

    /** On entry i, or past the end when i is their number. */
    ghost predicate On(i: nat)
      reads this
    {
      && Formed() && i <= |Entries()|
      && current == Start(i)
      && (i < |Entries()| ==>
            && restartIndex < numRestarts
            && key == Entries()[i].key
            && valueAt + valueLength == Start(i + 1) <= restarts
            && data[valueAt..valueAt + valueLength] == Entries()[i].value)
    }

    /** ParseNextKey would parse entry i. */
    ghost predicate Before(i: nat)
      reads this
    {
      && Formed() && i <= |Entries()|
      && restartIndex < numRestarts
      && valueAt + valueLength == Start(i)
      && (i < |Entries()| ==> layout.shares[i] == 0 || (i > 0 && key == Entries()[i - 1].key))
    }

    predicate Valid()
      reads this
    {
      current < restarts
    }

    constructor (block: Bytes, order: Order, ghost buffer: Bytes, ghost restartPoints: seq<nat>, ghost g: Layout)
      requires Bounded(restartPoints) && block == BlockBytes(buffer, restartPoints)
      requires Laid(buffer, restartPoints, g)
      ensures On(|Entries()|) && Entries() == g.entries && before == order
    {
      hide Laid, RestartArray, DecodeFixed32, Fixed32;
      OpenFinished(buffer, restartPoints);
      var opened_ := Open(block);
      data, before := block, order;
      numRestarts := opened_.value.0;
      restarts := opened_.value.1;
      layout, points := g, restartPoints;
      current := opened_.value.1;
      restartIndex := opened_.value.0;
      key, valueAt, valueLength := [], 0, 0;
      new;
      LaidSizes(buffer, restartPoints, g);
    }

    lemma ValidMeans(i: nat)
      requires On(i)
      ensures Valid() <==> i < |Entries()|
    {
      LaidSizes(data[..restarts], points, layout);
      if i < |Entries()| {
        OffsetsAscend(data[..restarts], points, layout, i, |Entries()|);
      }
    }

    method SeekToRestartPoint(index: nat)
      requires Formed() && index < numRestarts
      modifies this`key, this`restartIndex, this`valueAt, this`valueLength
      ensures layout.points[index] <= |Entries()| && Before(layout.points[index])
    {
      hide EntryLaid, DecodeFixed32;
      key := [];
      restartIndex := index;
      // ParseNextKey starts at the end of the value.
      valueAt := RestartPoint(index);
      valueLength := 0;
    }

    method ParseNextKey(ghost i: nat) returns (ok: bool)
      requires Before(i)
      modifies this
      ensures On(i) && ok == (i < |Entries()|)
      ensures ok ==> Before(i + 1)
    {
      hide EntryLaid, DecodeFixed32, EntryBytes, DecodeEntry, Laid;
      LaidSizes(data[..restarts], points, layout);
      EntryThere(i);
      current := valueAt + valueLength;
      var p := current;
      if p >= restarts {
        // No more entries: mark as invalid.
        current := restarts;
        restartIndex := numRestarts;
        return false;
      }
      var h := DecodeEntry(data, p, restarts);
      if h.None? || |key| < h.value.shared {
        // The source reports corruption; a finished block has none.
        assert false;
      }
      key := key[..h.value.shared] + data[h.value.at..h.value.at + h.value.nonShared];
      valueAt := h.value.at + h.value.nonShared;
      valueLength := h.value.valueLength;
      while restartIndex + 1 < numRestarts && RestartPoint(restartIndex + 1) < current
        invariant restartIndex < numRestarts
        modifies this`restartIndex
      {
        restartIndex := restartIndex + 1;
      }
      return true;
    }

    method SeekToFirst()
      requires Formed()
      modifies this
      ensures On(0)
    {
      hide Laid, EntryLaid;
      FirstPoint();
      SeekToRestartPoint(0);
      var ok := ParseNextKey(0);
    }

    method SeekToLast()
      requires Formed()
      modifies this
      ensures On(if Entries() == [] then 0 else |Entries()| - 1)
    {
      hide Laid, EntryLaid, DecodeFixed32;
      FirstPoint();
      LaidSizes(data[..restarts], points, layout);
      SeekToRestartPoint(numRestarts - 1);
      ghost var i := layout.points[numRestarts - 1];
      PointIsEntry(numRestarts - 1);
      var ok := ParseNextKey(i);
      while ok && valueAt + valueLength < restarts
        invariant On(i) && ok == (i < |Entries()|)
        invariant ok ==> Before(i + 1)
        invariant Entries() == [] ==> i == 0
        invariant !ok ==> i == |Entries()| == 0
        decreases |Entries()| - i, ok
      {
        i := i + 1;
        StartBelowEnd(i);
        ok := ParseNextKey(i);
      }
      if ok {
        EndIsLast(i + 1);
      }
    }

    method Next(ghost i: nat)
      requires On(i) && Valid()
      modifies this
      ensures On(i + 1)
    {
      hide Laid, EntryLaid, DecodeFixed32;
      ValidMeans(i);
      var ok := ParseNextKey(i + 1);
    }

    /** Steps back, by scanning forward from a restart point before the current
        entry. */
    method Prev(ghost i: nat)
      requires On(i) && Valid()
      modifies this
      ensures On(if i == 0 then |Entries()| else i - 1)
    {
      hide Laid, EntryLaid, DecodeFixed32;
      ValidMeans(i);
      LaidSizes(data[..restarts], points, layout);
      FirstPoint();
      var original := current;
      while RestartPoint(restartIndex) >= original
        invariant restartIndex < numRestarts && current == original
        decreases restartIndex
        modifies this`restartIndex, this`current
      {
        if restartIndex == 0 {
          // No more entries.
          StartsAscend(0, i);
          current := restarts;
          restartIndex := numRestarts;
          return;
        }
        restartIndex := restartIndex - 1;
      }
      ghost var j := layout.points[restartIndex];
      BelowMeansBefore(restartIndex, i);
      SeekToRestartPoint(restartIndex);
      var ok := ParseNextKey(j);
      // Until the end of the current entry is the start of the original one.
      while ok && valueAt + valueLength < original
        invariant ok && j < i && On(j) && Before(j + 1)
        decreases i - j
      {
        StartsAscend(i, j + 1);
        j := j + 1;
        ok := ParseNextKey(j);
      }
      StartsAscend(j + 1, i);
    }

    /** The first entry whose key is not before `target`. */
    method Seek(target: Bytes) returns (ghost i: nat)
      requires Formed() && StrictWeakOrder(before) && KeysAscend(Entries(), before)
      modifies this
      ensures On(i)
      ensures forall j | 0 <= j < i :: before(Entries()[j].key, target)
      ensures i < |Entries()| ==> !before(Entries()[i].key, target)
    {
      hide Laid, EntryLaid, DecodeFixed32, StrictWeakOrder, KeysAscend, DecodeEntry;
      FirstPoint();
      LaidSizes(data[..restarts], points, layout);
      // Binary search for the last restart point with a key before the target.
      var left, right := 0, numRestarts - 1;
      while left < right
        invariant 0 <= left <= right < numRestarts
        invariant left > 0 ==> PointBefore(left, target)
      {
        var mid := (left + right + 1) / 2;
        var regionOffset := RestartPoint(mid);
        RestartKey(mid);
        var h := DecodeEntry(data, regionOffset, restarts);
        if h.None? || h.value.shared != 0 {
          // The source reports corruption; a finished block has none.
          assert false;
        }
        var midKey := data[h.value.at..h.value.at + h.value.nonShared];
        if before(midKey, target) {
          left := mid;
        } else {
          right := mid - 1;
        }
      }
      // Linear search within the restart block.
      SeekToRestartPoint(left);
      i := layout.points[left];
      AllBefore(left, target);
      while true
        invariant Before(i)
        invariant forall j | 0 <= j < i :: before(Entries()[j].key, target)
        decreases |Entries()| - i
      {
        var ok := ParseNextKey(i);
        if !ok {
          return;
        }
        if !before(key, target) {
          return;
        }
        i := i + 1;
      }
    }

    /** The key at a restart point is before the target. */
    ghost predicate PointBefore(r: nat, target: Bytes)
      requires Formed() && r < numRestarts
    {
      layout.points[r] < |Entries()| && before(Entries()[layout.points[r]].key, target)
    }

    lemma AllBefore(r: nat, target: Bytes)
      requires Formed() && StrictWeakOrder(before) && KeysAscend(Entries(), before)
      requires r < numRestarts && (r > 0 ==> PointBefore(r, target))
      ensures layout.points[r] <= |Entries()|
      ensures forall j | 0 <= j < layout.points[r] :: before(Entries()[j].key, target)
    {
      hide EntryLaid, DecodeFixed32;
      FirstPoint();
    }

    /** What a restart point decodes to: a whole key. */
    lemma RestartKey(r: nat)
      requires Formed() && 0 < r < numRestarts
      ensures var i := layout.points[r];
        && i < |Entries()| && RestartPoint(r) <= restarts
        && var h := DecodeEntry(data, RestartPoint(r), restarts);
        && h.Some? && h.value.shared == 0 && h.value.at + h.value.nonShared <= restarts
        && data[h.value.at..h.value.at + h.value.nonShared] == Entries()[i].key
    {
      hide EntryBytes, DecodeEntry, DecodeFixed32;
      FirstPoint();
      PointIsEntry(r);
      var i := layout.points[r];
      NotEmptyBlock(r);
      var e := Entries()[i];
      assert EntryLaid(data[..restarts], layout, i);
      StartsAscend(i, |Entries()|);
      var from, to := Start(i), Start(i) + |EntryBytes(0, e)|;
      assert data[..restarts][from..to] == data[from..to];
      EntryDecodes(data, from, restarts, 0, e);
      EntryDelta(0, e);
      assert e.key[0..] == e.key;
    }

    lemma NotEmptyBlock(r: nat)
      requires Formed() && 0 < r < numRestarts
      ensures Entries() != []
    {
      hide EntryLaid, DecodeFixed32;
      FirstPoint();
      assert layout.points[0] < layout.points[r];
    }

    /** The next entry, as its bytes decode. */
    lemma EntryThere(i: nat)
      requires Before(i)
      ensures i == |Entries()| ==> Start(i) == restarts
      ensures i < |Entries()| ==>
        var e, shared := Entries()[i], layout.shares[i];
        && Start(i) < restarts && shared <= |e.key| && shared <= |key|
        && var h := DecodeEntry(data, Start(i), restarts);
        && h.Some? && h.value.shared == shared
        && h.value.at + h.value.nonShared <= restarts
        && key[..shared] + data[h.value.at..h.value.at + h.value.nonShared] == e.key
        && h.value.at + h.value.nonShared + h.value.valueLength == Start(i + 1) <= restarts
        && data[h.value.at + h.value.nonShared..Start(i + 1)] == e.value
    {
      hide EntryBytes, DecodeEntry;
      LaidSizes(data[..restarts], points, layout);
      if i < |Entries()| {
        var e, shared := Entries()[i], layout.shares[i];
        assert EntryLaid(data[..restarts], layout, i);
        OffsetsAscend(data[..restarts], points, layout, i, |Entries()|);
        var from, to := Start(i), Start(i) + |EntryBytes(shared, e)|;
        assert data[..restarts][from..to] == data[from..to];
        EntryDecodes(data, from, restarts, shared, e);
        EntryDelta(shared, e);
        assert e.key == e.key[..shared] + e.key[shared..];
        if i == 0 {
          assert key[..shared] == e.key[..shared];
        }
      }
    }

    lemma FirstPoint()
      requires Formed()
      ensures 0 < numRestarts && layout.points[0] == 0 && RestartPoint(0) == Start(0) == 0
      ensures forall r | 0 <= r < numRestarts :: layout.points[r] <= |Entries()| && RestartPoint(r) == Start(layout.points[r])
    {
      hide EntryLaid, DecodeFixed32;
    }

    lemma PointIsEntry(r: nat)
      requires Formed() && r < numRestarts
      ensures Entries() == [] ==> layout.points[r] == 0
      ensures Entries() != [] ==> layout.points[r] < |Entries()| && layout.shares[layout.points[r]] == 0
    {
      hide EntryLaid, DecodeFixed32;
    }

    /** Offsets order the entries. */
    lemma StartsAscend(i: nat, j: nat)
      requires Formed() && i <= |Entries()| && j <= |Entries()|
      ensures Start(i) < Start(j) <==> i < j
      ensures Start(i) == Start(j) <==> i == j
    {
      hide EntryLaid, DecodeFixed32, Laid;
      LaidSizes(data[..restarts], points, layout);
      if i < j {
        OffsetsAscend(data[..restarts], points, layout, i, j);
      } else if j < i {
        OffsetsAscend(data[..restarts], points, layout, j, i);
      }
    }

    lemma StartBelowEnd(i: nat)
      requires Formed() && i <= |Entries()| && Start(i) < restarts
      ensures i < |Entries()|
    {
      hide EntryLaid, DecodeFixed32, Laid;
      LaidSizes(data[..restarts], points, layout);
    }

    lemma EndIsLast(i: nat)
      requires Formed() && i <= |Entries()| && Start(i) >= restarts
      ensures i == |Entries()|
    {
      hide EntryLaid, DecodeFixed32, Laid;
      LaidSizes(data[..restarts], points, layout);
      StartsAscend(i, |Entries()|);
    }

    lemma BelowMeansBefore(r: nat, i: nat)
      requires Formed() && r < numRestarts && i <= |Entries()| && RestartPoint(r) < Start(i)
      ensures layout.points[r] < i
    {
      hide EntryLaid, DecodeFixed32, Laid;
      FirstPoint();
      LaidSizes(data[..restarts], points, layout);
      StartsAscend(layout.points[r], i);
    }
  }

  lemma EntryDelta(shared: nat, e: Pair)
    requires shared <= |e.key|
    ensures |EntryBytes(shared, e)| >= |e.key| - shared + |e.value|
  {
    hide Varint;
  }

  lemma LaidSizes(buffer: Bytes, restarts: seq<nat>, g: Layout)
    requires Laid(buffer, restarts, g)
    ensures |g.offsets| == |g.shares| == |g.entries|
    ensures 0 < |restarts| == |g.points|
    ensures forall r | 0 <= r < |restarts| :: g.points[r] <= |g.entries|
    ensures Off(g, |buffer|, |g.entries|) == |buffer|
  {
    hide EntryLaid;
  }

  // ----- Whole blocks -----

  /** SeekToFirst, and Next for as long as the iterator is valid. */
  method ReadForward(it: Iter) returns (pairs: seq<Pair>)
    requires it.Formed()
    modifies it
    ensures pairs == it.Entries()
  {
    hide *;
    pairs := [];
    it.SeekToFirst();
    it.ValidMeans(0);
    assert pairs == it.Entries()[..0];
    while it.Valid()
      invariant |pairs| <= |it.Entries()| && pairs == it.Entries()[..|pairs|]
      invariant it.On(|pairs|) && (it.Valid() <==> |pairs| < |it.Entries()|)
      decreases |it.Entries()| - |pairs|
    {
      ghost var i := |pairs|;
      var pair := Current(it, i);
      pairs := pairs + [pair];
      it.Next(i);
      it.ValidMeans(i + 1);
    }
    assert it.Entries()[..|it.Entries()|] == it.Entries();
  }

  /** key() and value() */
  method Current(it: Iter, ghost i: nat) returns (pair: Pair)
    requires it.On(i) && i < |it.Entries()|
    ensures pair == it.Entries()[i]
  {
    it.ValidMeans(i);
    hide Laid;
    pair := Pair(it.key, it.data[it.valueAt..it.valueAt + it.valueLength]);
  }

  /** SeekToLast, and Prev for as long as the iterator is valid. */
  method ReadBackward(it: Iter) returns (pairs: seq<Pair>)
    requires it.Formed()
    modifies it
    ensures pairs == it.Entries()
  {
    hide *;
    pairs := [];
    it.SeekToLast();
    ghost var n := |it.Entries()|;
    ghost var i: nat := if it.Entries() == [] then 0 else n - 1;
    it.ValidMeans(i);
    assert it.Entries()[n..] == pairs;
    while it.Valid()
      invariant |it.Entries()| == n && it.On(i) && (it.Valid() <==> i < n)
      invariant |pairs| <= n && pairs == it.Entries()[n - |pairs|..]
      invariant it.Valid() ==> i + 1 + |pairs| == n
      invariant !it.Valid() ==> |pairs| == n
      decreases n - |pairs|
    {
      var pair := Current(it, i);
      pairs := [pair] + pairs;
      it.Prev(i);
      i := if i == 0 then n else i - 1;
      it.ValidMeans(i);
    }
    assert it.Entries()[0..] == it.Entries();
  }

  /** Bounds what the entries take in a block. */
  function Room(entries: seq<Pair>): nat {
    if entries == [] then 0
    else Room(entries[..|entries| - 1]) + |entries[|entries| - 1].key| + |entries[|entries| - 1].value| + 15
  }

  lemma RoomGrows(entries: seq<Pair>, i: nat)
    requires i < |entries|
    ensures Room(entries[..i + 1]) == Room(entries[..i]) + |entries[i].key| + |entries[i].value| + 15
    ensures Room(entries[..i + 1]) <= Room(entries)
    decreases |entries|
  {
    assert entries[..i + 1][..i] == entries[..i];
    if i + 1 < |entries| {
      assert entries[..|entries| - 1][..i + 1] == entries[..i + 1];
      assert entries[..|entries| - 1][..i] == entries[..i];
      RoomGrows(entries[..|entries| - 1], i);
    } else {
      assert entries[..i + 1] == entries;
    }
  }

  /** A block gives back exactly the pairs that were added, in order, whatever
      they are and wherever its restart points fall. */
  method BuildAndRead(entries: seq<Pair>, restartInterval: nat, order: Order, forward: bool) returns (pairs: seq<Pair>)
    requires 1 <= restartInterval && Room(entries) < LIMIT32
    ensures pairs == entries
  {
    var builder := new BlockBuilder(restartInterval);
    assert entries[..0] == [];
    for i := 0 to |entries|
      invariant builder.Valid() && !builder.finished && fresh(builder)
      invariant builder.layout.entries == entries[..i] && |builder.buffer| <= Room(entries[..i])
    {
      RoomGrows(entries, i);
      hide *;
      builder.Add(entries[i].key, entries[i].value);
      assert entries[..i] + [Pair(entries[i].key, entries[i].value)] == entries[..i + 1];
    }
    assert entries[..|entries|] == entries;
    hide *;
    ghost var buffer, restarts, layout := builder.buffer, builder.restarts, builder.layout;
    var block := builder.Finish();
    var it := new Iter(block, order, buffer, restarts, layout);
    OnIsFormed(it, |it.Entries()|);
    if forward {
      pairs := ReadForward(it);
    } else {
      pairs := ReadBackward(it);
    }
  }

  lemma OnIsFormed(it: Iter, i: nat)
    requires it.On(i)
    ensures it.Formed()
  {
  }
}
