/** BlockBuilder: strictly increasing keys in, one block out. */
module BlockBuilders {
  import opened DbFormat
  import opened Coding
  import opened BlockFormat

  /** The layout with one more entry at the end of the buffer. */
  ghost function Extended(g: Layout, size: nat, shared: nat, e: Pair, restart: bool): Layout {
    Layout(g.entries + [e], g.offsets + [size], g.shares + [shared],
           if restart then g.points + [|g.entries|] else g.points)
  }

  /** n bytes are shared, and not one more. */
  predicate SharesExactly(a: Bytes, b: Bytes, n: nat) {
    && n <= |a| && n <= |b| && a[..n] == b[..n]
    && (n < |a| && n < |b| ==> a[n] != b[n])
  }

  /** How one more entry is compressed: after `interval` entries without one
      there is a restart point, and an entry that is none shares all it can with
      the key before it. */
  ghost predicate Grown(g: Layout, g': Layout, e: Pair, interval: nat) {
    var n := |g.entries|;
    && |g.points| > 0 && |g.shares| == n && g'.entries == g.entries + [e]
    && var restart := n - g.points[|g.points| - 1] == interval;
    && g'.points == (if restart then g.points + [n] else g.points)
    && |g'.shares| == n + 1 && g'.shares[..n] == g.shares
    && if restart || n == 0 then g'.shares[n] == 0 else SharesExactly(g.entries[n - 1].key, e.key, g'.shares[n])
  }

  lemma ExtendedIsGrown(g: Layout, size: nat, shared: nat, e: Pair, restart: bool, interval: nat)
    requires |g.points| > 0 && |g.shares| == |g.entries|
    requires restart <==> |g.entries| - g.points[|g.points| - 1] == interval
    requires if restart || g.entries == [] then shared == 0 else SharesExactly(g.entries[|g.entries| - 1].key, e.key, shared)
    ensures Grown(g, Extended(g, size, shared, e, restart), e, interval)
  {
  }

  ghost predicate SharesWithLast(g: Layout, shared: nat, key: Bytes) {
    && shared <= |key|
    && if g.entries == [] then shared == 0
       else
         var last := g.entries[|g.entries| - 1].key;
         shared <= |last| && key[..shared] == last[..shared]
  }

  lemma ExtendedIsLaid(buffer: Bytes, restarts: seq<nat>, g: Layout, shared: nat, e: Pair, restart: bool)
    requires Laid(buffer, restarts, g)
    requires SharesWithLast(g, shared, e.key) && |e.key| < LIMIT32
    requires |buffer| + |EntryBytes(shared, e)| < LIMIT32
    requires restart ==> shared == 0 && g.entries != []
    ensures Laid(buffer + EntryBytes(shared, e), if restart then restarts + [|buffer|] else restarts,
                 Extended(g, |buffer|, shared, e, restart))
  {
    hide EntryBytes, EntryLaid;
    if g.entries != [] {
      FirstOffset(buffer, g);
    }
    ExtendedEntries(buffer, restarts, g, shared, e, restart);
  }

  lemma FirstOffset(buffer: Bytes, g: Layout)
    requires |g.entries| == |g.offsets| == |g.shares| && g.entries != [] && EntryLaid(buffer, g, 0)
    ensures g.shares[0] == 0
  {
  }

  lemma ExtendedEntries(buffer: Bytes, restarts: seq<nat>, g: Layout, shared: nat, e: Pair, restart: bool)
    requires Laid(buffer, restarts, g)
    requires SharesWithLast(g, shared, e.key) && |e.key| < LIMIT32
    ensures var g' := Extended(g, |buffer|, shared, e, restart);
      && |g'.entries| == |g'.offsets| == |g'.shares| == |g.entries| + 1
      && forall i | 0 <= i <= |g.entries| :: EntryLaid(buffer + EntryBytes(shared, e), g', i)
  {
    hide EntryBytes, EntryLaid;
    var bytes, g' := EntryBytes(shared, e), Extended(g, |buffer|, shared, e, restart);
    var n := |g.entries|;
    forall i | 0 <= i <= n ensures EntryLaid(buffer + bytes, g', i) {
      if i < n {
        OldEntryLaid(buffer, g, i, bytes, g');
      } else {
        NewEntryLaid(buffer, g, shared, e, restart);
      }
    }
  }

  lemma NewEntryLaid(buffer: Bytes, g: Layout, shared: nat, e: Pair, restart: bool)
    requires |g.entries| == |g.offsets| == |g.shares|
    requires SharesWithLast(g, shared, e.key) && |e.key| < LIMIT32
    ensures EntryLaid(buffer + EntryBytes(shared, e), Extended(g, |buffer|, shared, e, restart), |g.entries|)
  {
    hide EntryBytes;
    var bytes := EntryBytes(shared, e);
    assert (buffer + bytes)[|buffer|..|buffer| + |bytes|] == bytes;
  }

  lemma OldEntryLaid(buffer: Bytes, g: Layout, i: nat, bytes: Bytes, g': Layout)
    requires i < |g.entries| == |g.offsets| == |g.shares|
    requires EntryLaid(buffer, g, i)
    requires |g'.entries| == |g'.offsets| == |g'.shares| == |g.entries| + 1
    requires g'.entries[..|g.entries|] == g.entries && g'.offsets == g.offsets + [|buffer|] && g'.shares[..|g.entries|] == g.shares
    ensures EntryLaid(buffer + bytes, g', i)
  {
    hide EntryBytes;
    assert g'.entries[i] == g'.entries[..|g.entries|][i] == g.entries[i];
    assert g'.shares[i] == g'.shares[..|g.entries|][i] == g.shares[i];
    if i > 0 {
      assert g'.entries[i - 1] == g'.entries[..|g.entries|][i - 1] == g.entries[i - 1];
    }
    var from, to := g.offsets[i], g.offsets[i] + |EntryBytes(g.shares[i], g.entries[i])|;
    assert (buffer + bytes)[from..to] == buffer[from..to];
  }

  class BlockBuilder {
    const restartInterval: nat
    var buffer: Bytes
    var restarts: seq<nat>
    var counter: nat
    var finished: bool
    var lastKey: Bytes
    ghost var layout: Layout

    ghost predicate Valid()
      reads this
    {
      && 1 <= restartInterval
      && counter <= restartInterval
      && (!finished ==> Laid(buffer, restarts, layout))
      && |layout.points| > 0 && counter == |layout.entries| - layout.points[|layout.points| - 1]
      && (layout.entries == [] ==> counter == 0 && lastKey == [])
      && (layout.entries != [] ==> lastKey == layout.entries[|layout.entries| - 1].key)
    }

    constructor (interval: nat)
      requires 1 <= interval
      ensures Valid() && !finished && layout.entries == [] && buffer == []
    {
      restartInterval := interval;
      buffer, restarts, counter, finished, lastKey := [], [0], 0, false, [];
      layout := Layout([], [], [], [0]);
    }

    method Reset()
      requires 1 <= restartInterval
      modifies this
      ensures Valid() && !finished && layout.entries == [] && buffer == []
    {
      buffer, restarts, counter, finished, lastKey := [], [0], 0, false, [];
      layout := Layout([], [], [], [0]);
    }

    function CurrentSizeEstimate(): nat
      reads this
    {
      |buffer| + 4 * |restarts| + 4
    }

    /** Adds an entry.  `|key| + |value| + 15` bounds what it takes: the block
        must stay addressable with 32 bits. */
    method Add(key: Bytes, value: Bytes)
      requires Valid() && !finished
      requires |buffer| + |key| + |value| + 15 < LIMIT32
      modifies this
      ensures Valid() && !finished
      ensures layout.entries == old(layout.entries) + [Pair(key, value)]
      ensures Grown(old(layout), layout, Pair(key, value), restartInterval)
      ensures old(buffer) <= buffer && |buffer| <= |old(buffer)| + |key| + |value| + 15
    {
      hide Laid, EntryBytes, Varint, EntryLaid;
      var shared := 0;
      ghost var restart := false;
      if counter < restartInterval {
        // See how much sharing to do with the previous key.
        var minLength := if |lastKey| < |key| then |lastKey| else |key|;
        while shared < minLength && lastKey[shared] == key[shared]
          invariant shared <= minLength
          invariant lastKey[..shared] == key[..shared]
        {
          shared := shared + 1;
        }
      } else {
        // Restart compression.
        restarts := restarts + [|buffer|];
        counter := 0;
        restart := true;
      }
      SharedWithLast(layout, lastKey, key, shared, restart);
      LaidSizes(buffer, old(restarts), layout);
      ExtendedIsGrown(layout, |buffer|, shared, Pair(key, value), restart, restartInterval);
      EntrySize(shared, Pair(key, value));
      ExtendedIsLaid(buffer, old(restarts), layout, shared, Pair(key, value), restart);
      layout := Extended(layout, |buffer|, shared, Pair(key, value), restart);
      AppendEntry(shared, key, value);
      lastKey := lastKey[..shared] + key[shared..];
      assert lastKey == key;
      counter := counter + 1;
    }

    lemma LaidSizes(buffer: Bytes, restarts: seq<nat>, g: Layout)
      requires Laid(buffer, restarts, g)
      ensures |g.shares| == |g.entries| == |g.offsets| && |g.points| == |restarts| > 0
    {
    }

    lemma SharedWithLast(g: Layout, last: Bytes, key: Bytes, shared: nat, restart: bool)
      requires g.entries == [] ==> last == []
      requires g.entries != [] ==> last == g.entries[|g.entries| - 1].key
      requires if restart then shared == 0 else SharesExactly(last, key, shared)
      ensures if restart || g.entries == [] then shared == 0 else SharesExactly(g.entries[|g.entries| - 1].key, key, shared)
    {
    }

    /** Appends "<shared><non_shared><value_size>", the key delta and the value. */
    method AppendEntry(shared: nat, key: Bytes, value: Bytes)
      requires shared <= |key| < LIMIT32 && |value| < LIMIT32
      modifies this`buffer
      ensures buffer == old(buffer) + EntryBytes(shared, Pair(key, value))
    {
      hide EntryBytes, Varint;
      var sizes0 := EncodeVarint32(shared);
      var sizes1 := EncodeVarint32(|key| - shared);
      var sizes2 := EncodeVarint32(|value|);
      buffer := buffer + sizes0;
      buffer := buffer + sizes1;
      buffer := buffer + sizes2;
      buffer := buffer + key[shared..];
      buffer := buffer + value;
      InPieces(old(buffer), shared, Pair(key, value));
    }

    /** Appends the restart array and returns the block. */
    method Finish() returns (block: Bytes)
      requires Valid() && !finished
      modifies this
      ensures Valid() && finished && layout == old(layout) && block == buffer
      ensures Laid(old(buffer), old(restarts), layout) && Bounded(old(restarts))
      ensures block == BlockBytes(old(buffer), old(restarts))
    {
      RestartsFit(buffer, restarts, layout);
      for i := 0 to |restarts|
        invariant restarts == old(restarts)
        invariant buffer == old(buffer) + RestartArray(restarts[..i])
        invariant layout == old(layout) && lastKey == old(lastKey) && counter == old(counter) && !finished
      {
        assert restarts[..i + 1][..i] == restarts[..i];
        buffer := buffer + Fixed32(restarts[i]);
      }
      assert restarts[..|restarts|] == restarts;
      buffer := buffer + Fixed32(|restarts|);
      finished := true;
      block := buffer;
    }
  }

  /** Two entries of a block as bytes, the second one compressed, and the end of
      a block with one restart point. */
  lemma EntryOfBytes()
    ensures EntryBytes(0, Pair([0x61, 0x62], [0x78])) == [0, 2, 1, 0x61, 0x62, 0x78]
    ensures EntryBytes(1, Pair([0x61, 0x63], [])) == [1, 1, 0, 0x63]
    ensures BlockBytes([7], [0]) == [7, 0, 0, 0, 0, 1, 0, 0, 0]
  {
    VarintOfByte(0);
    VarintOfByte(1);
    VarintOfByte(2);
    var restarts: seq<nat> := [0];
    assert restarts[..0] == [] && RestartArray(restarts) == [] + Fixed32(0);
    assert Fixed32(0) == [0, 0, 0, 0] && Fixed32(1) == [1, 0, 0, 0];
    var key: Bytes := [0x61, 0x63];
    assert key[1..] == [0x63] && [0x61, 0x62][0..] == [0x61, 0x62];
  }

  ghost predicate Bounded(restarts: seq<nat>) {
    |restarts| < LIMIT32 && forall i | 0 <= i < |restarts| :: restarts[i] < LIMIT32
  }

  lemma InPieces(buffer: Bytes, shared: nat, e: Pair)
    requires shared <= |e.key|
    ensures buffer + EntryBytes(shared, e)
         == ((((buffer + Varint(shared)) + Varint(|e.key| - shared)) + Varint(|e.value|)) + e.key[shared..]) + e.value
  {
    hide Varint;
  }

  lemma EntrySize(shared: nat, e: Pair)
    requires shared <= |e.key| < LIMIT32 && |e.value| < LIMIT32
    ensures |EntryBytes(shared, e)| <= |e.key| + |e.value| + 15
  {
    hide Varint;
    Sizes();
    VarintLength(shared, 5);
    VarintLength(|e.key| - shared, 5);
    VarintLength(|e.value|, 5);
  }

  /** Restart points ascend within the buffer, so they and their number fit. */
  lemma RestartsFit(buffer: Bytes, restarts: seq<nat>, g: Layout)
    requires Laid(buffer, restarts, g)
    ensures Bounded(restarts)
  {
    hide EntryLaid;
    forall r | 0 <= r < |restarts| ensures restarts[r] < LIMIT32 {
      if g.points[r] < |g.entries| {
        OffsetsAscend(buffer, restarts, g, g.points[r], |g.entries|);
      }
    }
    PointsBound(restarts, g, |restarts| - 1);
    EntriesBound(buffer, restarts, g, |g.entries|);
  }

  lemma {:induction false} PointsBound(restarts: seq<nat>, g: Layout, r: nat)
    requires r < |restarts| == |g.points|
    requires forall q, r | 0 <= q < r < |restarts| :: g.points[q] < g.points[r]
    ensures r <= g.points[r]
  {
    if r > 0 {
      PointsBound(restarts, g, r - 1);
    }
  }

  lemma {:induction false} EntriesBound(buffer: Bytes, restarts: seq<nat>, g: Layout, i: nat)
    requires Laid(buffer, restarts, g) && i <= |g.entries|
    ensures i <= Off(g, |buffer|, i) <= |buffer|
  {
    hide EntryLaid;
    if i > 0 {
      EntriesBound(buffer, restarts, g, i - 1);
      OffsetsAscend(buffer, restarts, g, i - 1, i);
    }
    if i < |g.entries| {
      OffsetsAscend(buffer, restarts, g, i, |g.entries|);
    }
  }
}
