/** The filter block: one bloom filter for every 2 KB of data block offsets,
    over the user keys of the blocks that start there. */
module FilterBlock {
  import opened DbFormat
  import opened Coding
  import opened Comparator
  import opened Bloom

  const FILTER_BASE_LG := 11
  const FILTER_BASE := 2048

  // ----- Reading -----

  /** FilterBlockReader::KeyMayMatch on a block's contents.  Anything malformed
      counts as a match. */
  predicate KeyMayMatchBlock(hash: Hash, contents: Bytes, blockOffset: nat, key: Bytes) {
    var n := |contents|;
    if n < 5 then true
    else
      var baseLg := contents[n - 1] as nat;
      var lastWord := DecodeFixed32(contents[n - 5..n - 1]);
      if lastWord > n - 5 then true
      else
        var num := (n - 5 - lastWord) / 4;
        var index := blockOffset / Power2Positive(baseLg);
        if index < num then
          var at := lastWord + index * 4;
          var start := DecodeFixed32(contents[at..at + 4]);
          var limit := DecodeFixed32(contents[at + 4..at + 8]);
          if start <= limit <= lastWord then MayMatch(hash, UserPart(key), contents[start..limit])
          else start != limit
        else true
  }

  function Power2Positive(n: nat): (p: nat)
    ensures p > 0
  {
    if n == 0 then 1 else 2 * Power2Positive(n - 1)
  }

  lemma BaseIsPower()
    ensures Power2Positive(FILTER_BASE_LG) == FILTER_BASE
  {
    assert Power2Positive(3) == 8 && Power2Positive(6) == 64 && Power2Positive(9) == 512;
  }

  // ----- The finished block -----

  function Offsets(offsets: seq<nat>): (r: Bytes)
    requires forall i | 0 <= i < |offsets| :: offsets[i] < LIMIT32
    ensures |r| == 4 * |offsets|
  {
    if offsets == [] then [] else Offsets(offsets[..|offsets| - 1]) + Fixed32(offsets[|offsets| - 1])
  }

  lemma {:induction false} OffsetAt(offsets: seq<nat>, i: nat)
    requires forall i | 0 <= i < |offsets| :: offsets[i] < LIMIT32
    requires i < |offsets|
    ensures Offsets(offsets)[4 * i..4 * i + 4] == Fixed32(offsets[i])
  {
    hide Fixed32;
    var n := |offsets| - 1;
    if i < n {
      OffsetAt(offsets[..n], i);
      assert Offsets(offsets)[4 * i..4 * i + 4] == Offsets(offsets[..n])[4 * i..4 * i + 4];
    }
  }

  function Finished(filters: Bytes, offsets: seq<nat>): Bytes
    requires |filters| < LIMIT32 && forall i | 0 <= i < |offsets| :: offsets[i] < LIMIT32
  {
    filters + Offsets(offsets) + Fixed32(|filters|) + [FILTER_BASE_LG as byte]
  }

  ghost function FilterEnd(filters: Bytes, offsets: seq<nat>, i: nat): nat {
    if i + 1 < |offsets| then offsets[i + 1] else |filters|
  }

  /** The last byte says that filters are for two kilobytes of offsets each. */
  lemma EmptyFilterBytes()
    ensures Finished([], []) == [0, 0, 0, 0, 11] && Finished([5], [0]) == [5, 0, 0, 0, 0, 1, 0, 0, 0, 11]
  {
    var offsets: seq<nat> := [0];
    assert offsets[..0] == [] && Offsets(offsets) == [] + Fixed32(0);
    assert Fixed32(0) == [0, 0, 0, 0] && Fixed32(1) == [1, 0, 0, 0];
  }

  /** Looking a block offset up in a finished block consults its filter. */
  lemma FinishedLookup(hash: Hash, filters: Bytes, offsets: seq<nat>, blockOffset: nat, key: Bytes)
    requires |filters| < LIMIT32 && forall i | 0 <= i < |offsets| :: offsets[i] < LIMIT32
    requires blockOffset / FILTER_BASE < |offsets|
    requires var i := blockOffset / FILTER_BASE; offsets[i] <= FilterEnd(filters, offsets, i) <= |filters|
    ensures var i := blockOffset / FILTER_BASE;
      KeyMayMatchBlock(hash, Finished(filters, offsets), blockOffset, key)
      == MayMatch(hash, UserPart(key), filters[offsets[i]..FilterEnd(filters, offsets, i)])
  {
    hide Fixed32, DecodeFixed32, MayMatch, Offsets, Power2Positive;
    var contents, i := Finished(filters, offsets), blockOffset / FILTER_BASE;
    var n, at := |contents|, |filters| + 4 * i;
    BaseIsPower();
    Trailer(filters, offsets);
    OffsetWord(filters, offsets, i);
    if i + 1 < |offsets| {
      OffsetWord(filters, offsets, i + 1);
    }
    var start, limit := offsets[i], FilterEnd(filters, offsets, i);
    assert contents[start..limit] == filters[start..limit];
  }

  lemma Trailer(filters: Bytes, offsets: seq<nat>)
    requires |filters| < LIMIT32 && forall i | 0 <= i < |offsets| :: offsets[i] < LIMIT32
    ensures var contents := Finished(filters, offsets);
      var n := |contents|;
      && n == |filters| + 4 * |offsets| + 5
      && contents[n - 1] == FILTER_BASE_LG as byte
      && DecodeFixed32(contents[n - 5..n - 1]) == |filters|
  {
    hide Fixed32, DecodeFixed32, Offsets;
    var contents := Finished(filters, offsets);
    var n := |contents|;
    assert contents[n - 5..n - 1] == Fixed32(|filters|);
    Fixed32RoundTrip(|filters|);
  }

  lemma OffsetWord(filters: Bytes, offsets: seq<nat>, i: nat)
    requires |filters| < LIMIT32 && forall i | 0 <= i < |offsets| :: offsets[i] < LIMIT32
    requires i < |offsets|
    ensures var at := |filters| + i * 4;
      at + 4 <= |Finished(filters, offsets)| && DecodeFixed32(Finished(filters, offsets)[at..at + 4]) == offsets[i]
  {
    hide Fixed32, DecodeFixed32, Offsets;
    var at := |filters| + i * 4;
    OffsetAt(offsets, i);
    assert Finished(filters, offsets)[at..at + 4] == Offsets(offsets)[4 * i..4 * i + 4];
    Fixed32RoundTrip(offsets[i]);
  }

  // ----- Building -----

  /** `keys` holds the pending keys one after the other; `start` says where each
      begins. */
  ghost predicate Flattened(keys: Bytes, start: seq<nat>, pending: seq<Bytes>) {
    && |start| == |pending|
    && forall i | 0 <= i < |start| ::
         var end := if i + 1 < |start| then start[i + 1] else |keys|;
         start[i] <= end <= |keys| && keys[start[i]..end] == pending[i]
  }

  ghost predicate Covers(hash: Hash, filter: Bytes, keys: seq<Bytes>) {
    forall i | 0 <= i < |keys| :: MayMatch(hash, UserPart(keys[i]), filter)
  }

  class FilterBlockBuilder {
    const hash: Hash
    const probes: nat
    const bitsPerKey: nat
    var keys: Bytes
    var start: seq<nat>
    var result: Bytes
    var filterOffsets: seq<nat>
    ghost var pending: seq<Bytes>
    /** The keys each filter was made from. */
    ghost var sets: seq<seq<Bytes>>
    /** Every key added so far with the offset of its block. */
    ghost var added: set<(nat, Bytes)>
    ghost var blockOffset: nat

    ghost predicate FiltersGood()
      reads this`sets, this`filterOffsets, this`result
    {
      && |sets| == |filterOffsets| && |result| < LIMIT32
      && forall i | 0 <= i < |filterOffsets| ::
           && filterOffsets[i] <= FilterEnd(result, filterOffsets, i) <= |result|
           && Covers(hash, result[filterOffsets[i]..FilterEnd(result, filterOffsets, i)], sets[i])
    }

    /** A key added for a block is pending, or in the filter of that block. */
    ghost predicate Placed(o: nat, key: Bytes)
      reads this`sets, this`filterOffsets, this`pending
      requires |sets| == |filterOffsets|
    {
      var i := o / FILTER_BASE;
      if i < |sets| then key in sets[i] else i == |sets| && key in pending
    }

    ghost predicate Valid()
      reads this
    {
      && 1 <= probes <= 30
      && Flattened(keys, start, pending)
      && FiltersGood()
      && forall x | x in added :: Placed(x.0, x.1)
    }

    constructor (h: Hash, k: nat, bits: nat)
      requires 1 <= k <= 30
      ensures Valid() && added == {} && filterOffsets == [] && start == [] && result == []
    {
      hash, probes, bitsPerKey := h, k, bits;
      keys, start, result, filterOffsets := [], [], [], [];
      pending, sets, added, blockOffset := [], [], {}, 0;
    }

    method AddKey(key: Bytes)
      requires Valid() && blockOffset / FILTER_BASE == |filterOffsets|
      modifies this
      ensures Valid() && added == old(added) + {(blockOffset, key)}
      ensures start == old(start) + [|old(keys)|] && keys == old(keys) + key
      ensures result == old(result) && filterOffsets == old(filterOffsets) && blockOffset == old(blockOffset)
    {
      hide MayMatch;
      start := start + [|keys|];
      keys := keys + key;
      pending := pending + [key];
      added := added + {(blockOffset, key)};
      StillFlattened(old(keys), old(start), old(pending), key);
    }

    method GenerateFilter()
      requires Valid()
      requires |result| + FilterBytes(|start|, bitsPerKey) + 1 < LIMIT32
      modifies this
      ensures Valid() && added == old(added) && start == [] && blockOffset == old(blockOffset)
      ensures |filterOffsets| == |old(filterOffsets)| + 1
      ensures |result| == |old(result)| + if old(start) == [] then 0 else FilterBytes(|old(start)|, bitsPerKey) + 1
    {
      hide MayMatch, BitAt, Probed, FilterBytes;
      var numKeys := |start|;
      if numKeys == 0 {
        // No keys for this filter.
        filterOffsets := filterOffsets + [|result|];
        sets := sets + [[]];
      } else {
        var tmpKeys := UserKeys();
        filterOffsets := filterOffsets + [|result|];
        result := CreateFilter(hash, probes, bitsPerKey, tmpKeys, result);
        FilterCovers(hash, probes, bitsPerKey, tmpKeys, pending, result[|old(result)|..]);
        assert result[|old(result)|..|result|] == result[|old(result)|..];
        sets := sets + [pending];
        keys, start, pending := [], [], [];
      }
      FiltersKept(hash, old(result), old(filterOffsets), old(sets), result);
      assert FiltersGood();
      assert forall x | x in added :: old(Placed(x.0, x.1));
    }

    /** The list of keys from the flattened structure, as the user's keys. */
    method UserKeys() returns (tmpKeys: seq<Bytes>)
      requires Flattened(keys, start, pending)
      modifies this`start
      ensures |tmpKeys| == |pending|
      ensures forall j | 0 <= j < |tmpKeys| :: tmpKeys[j] == UserPart(pending[j])
    {
      hide UserPart, Flattened;
      var numKeys := |start|;
      tmpKeys := [];
      // Simplifies the length computation.
      start := start + [|keys|];
      KeyCount(keys, old(start), pending);
      for i := 0 to numKeys
        invariant |tmpKeys| == i && start == old(start) + [|keys|]
        invariant forall j | 0 <= j < i :: tmpKeys[j] == UserPart(pending[j])
      {
        PendingKeyAt(keys, old(start), pending, i);
        tmpKeys := tmpKeys + [UserPart(keys[start[i]..start[i + 1]])];
      }
    }

    method StartBlock(offset: nat)
      requires Valid() && offset / FILTER_BASE >= |filterOffsets|
      requires |result| + FilterBytes(|start|, bitsPerKey) + 1 < LIMIT32
      requires |result| + (if start == [] then 0 else FilterBytes(|start|, bitsPerKey) + 1) + FilterBytes(0, bitsPerKey) + 1 < LIMIT32
      modifies this
      ensures Valid() && added == old(added) && blockOffset == offset
      ensures blockOffset / FILTER_BASE == |filterOffsets|
      ensures (start == old(start) && result == old(result))
           || (start == [] && |result| == |old(result)| + if old(start) == [] then 0 else FilterBytes(|old(start)|, bitsPerKey) + 1)
    {
      hide FilterBytes, MayMatch, FiltersGood, Flattened, Placed;
      var filterIndex := offset / FILTER_BASE;
      while filterIndex > |filterOffsets|
        invariant Valid() && added == old(added) && filterIndex >= |filterOffsets|
        invariant (start == old(start) && result == old(result))
               || (start == [] && |result| == |old(result)| + if old(start) == [] then 0 else FilterBytes(|old(start)|, bitsPerKey) + 1)
        decreases filterIndex - |filterOffsets|
      {
        GenerateFilter();
      }
      blockOffset := offset;
    }

    /** The filter block.  No key that was added can fail to match at the offset
        of its block. */
    method Finish() returns (contents: Bytes)
      requires Valid()
      requires |result| + FilterBytes(|start|, bitsPerKey) + 1 < LIMIT32
      modifies this
      ensures |contents| <= LIMIT32 + 4 * |old(filterOffsets)| + 9
      ensures forall x, k | x in old(added) && UserPart(k) == UserPart(x.1) :: KeyMayMatchBlock(hash, contents, x.0, k)
    {
      hide MayMatch, FilterBytes, KeyMayMatchBlock;
      if start != [] {
        GenerateFilter();
      }
      OffsetsFit(this);
      AllMatch(this);
      AppendOffsets();
      contents := result;
    }

    /** The rest of Finish: the array of offsets, where it starts, and the base. */
    method AppendOffsets()
      requires |result| < LIMIT32 && forall i | 0 <= i < |filterOffsets| :: filterOffsets[i] < LIMIT32
      modifies this`result
      ensures result == Finished(old(result), filterOffsets)
    {
      hide Fixed32;
      var arrayOffset := |result|;
      for i := 0 to |filterOffsets|
        invariant result == old(result) + Offsets(filterOffsets[..i])
      {
        assert filterOffsets[..i + 1][..i] == filterOffsets[..i];
        result := result + Fixed32(filterOffsets[i]);
      }
      assert filterOffsets[..|filterOffsets|] == filterOffsets;
      result := result + Fixed32(arrayOffset);
      result := result + [FILTER_BASE_LG as byte];
    }
  }

  lemma AllMatch(b: FilterBlockBuilder)
    requires b.Valid() && b.pending == []
    requires forall i | 0 <= i < |b.filterOffsets| :: b.filterOffsets[i] < LIMIT32
    ensures forall x, k | x in b.added && UserPart(k) == UserPart(x.1) ::
              KeyMayMatchBlock(b.hash, Finished(b.result, b.filterOffsets), x.0, k)
  {
    hide KeyMayMatchBlock, Finished, Flattened;
    forall x, k | x in b.added && UserPart(k) == UserPart(x.1)
      ensures KeyMayMatchBlock(b.hash, Finished(b.result, b.filterOffsets), x.0, k)
    {
      AddedMatches(b, x, k);
    }
  }

  lemma KeyCount(keys: Bytes, start: seq<nat>, pending: seq<Bytes>)
    requires Flattened(keys, start, pending)
    ensures |start| == |pending|
  {
  }

  lemma PendingKeyAt(keys: Bytes, start: seq<nat>, pending: seq<Bytes>, i: nat)
    requires Flattened(keys, start, pending) && i < |start|
    ensures |pending| == |start|
    ensures var end := if i + 1 < |start| then start[i + 1] else |keys|;
      start[i] <= end <= |keys| && keys[start[i]..end] == pending[i]
  {
  }

  lemma StillFlattened(keys: Bytes, start: seq<nat>, pending: seq<Bytes>, key: Bytes)
    requires Flattened(keys, start, pending)
    ensures Flattened(keys + key, start + [|keys|], pending + [key])
  {
    var keys', start', pending' := keys + key, start + [|keys|], pending + [key];
    forall i | 0 <= i < |start'|
      ensures var end := if i + 1 < |start'| then start'[i + 1] else |keys'|;
        start'[i] <= end <= |keys'| && keys'[start'[i]..end] == pending'[i]
    {
      if i < |start| {
        PendingKeyAt(keys, start, pending, i);
        var end := if i + 1 < |start| then start[i + 1] else |keys|;
        assert keys'[start[i]..end] == keys[start[i]..end];
      } else {
        assert keys'[|keys|..] == key;
      }
    }
  }

  lemma FilterCovers(hash: Hash, k: nat, bitsPerKey: nat, tmpKeys: seq<Bytes>, pending: seq<Bytes>, filter: Bytes)
    requires 1 <= k <= 30 && |tmpKeys| == |pending|
    requires forall j | 0 <= j < |tmpKeys| :: tmpKeys[j] == UserPart(pending[j])
    requires var n := FilterBytes(|tmpKeys|, bitsPerKey);
      && |filter| == n + 1 && filter[n] == k as byte
      && forall p | 0 <= p < 8 * n :: BitAt(filter[..n], p) <==> Probed(hash, tmpKeys, k, 8 * n, p)
    ensures Covers(hash, filter, pending)
  {
    hide BitAt, Probed, MayMatch, FilterBytes;
    forall i | 0 <= i < |pending| ensures MayMatch(hash, UserPart(pending[i]), filter) {
      NoFalseNegatives(hash, k, tmpKeys, filter, i);
    }
  }

  /** Appending to the result leaves the filters already in it. */
  lemma FiltersKept(hash: Hash, result: Bytes, offsets: seq<nat>, sets: seq<seq<Bytes>>, result': Bytes)
    requires |sets| == |offsets| && result <= result'
    requires forall i | 0 <= i < |offsets| ::
      && offsets[i] <= FilterEnd(result, offsets, i) <= |result|
      && Covers(hash, result[offsets[i]..FilterEnd(result, offsets, i)], sets[i])
    ensures forall i | 0 <= i < |offsets| ::
      && offsets[i] <= FilterEnd(result', offsets + [|result|], i) <= |result'|
      && Covers(hash, result'[offsets[i]..FilterEnd(result', offsets + [|result|], i)], sets[i])
  {
    hide Covers;
    forall i | 0 <= i < |offsets|
      ensures offsets[i] <= FilterEnd(result', offsets + [|result|], i) <= |result'|
        && Covers(hash, result'[offsets[i]..FilterEnd(result', offsets + [|result|], i)], sets[i])
    {
      var end := FilterEnd(result, offsets, i);
      assert result'[offsets[i]..end] == result[offsets[i]..end];
    }
  }

  lemma OffsetsFit(b: FilterBlockBuilder)
    requires b.Valid()
    ensures forall i | 0 <= i < |b.filterOffsets| :: b.filterOffsets[i] < LIMIT32
  {
  }

  lemma AddedMatches(b: FilterBlockBuilder, x: (nat, Bytes), k: Bytes)
    requires b.Valid() && b.pending == [] && x in b.added && UserPart(k) == UserPart(x.1)
    requires forall i | 0 <= i < |b.filterOffsets| :: b.filterOffsets[i] < LIMIT32
    ensures KeyMayMatchBlock(b.hash, Finished(b.result, b.filterOffsets), x.0, k)
  {
    hide MayMatch, KeyMayMatchBlock, Flattened;
    var i := x.0 / FILTER_BASE;
    assert b.Placed(x.0, x.1);
    FinishedLookup(b.hash, b.result, b.filterOffsets, x.0, k);
    var j :| 0 <= j < |b.sets[i]| && b.sets[i][j] == x.1;
  }
}
