/** TableBuilder: internal keys in order in, a table out.  The metaindex block
    and the footer, which only locate the filter and the index, are left out. */
module TableBuilders {
  import opened DbFormat
  import opened Coding
  import opened Comparator
  import opened BlockFormat
  import opened BlockBuilders
  import opened TableFormat
  import opened FilterBlock
  import Bloom
  import LogFormat
  import Tables

  const FILE_LIMIT := 0x4000_0000_0000_0000
  const BLOCK_LIMIT := 8 * LIMIT32

  /** A block that is still being built, for what only looks at its keys. */
  ghost function Open(offset: nat, layout: Layout): Stored {
    Stored(offset, [], [], layout)
  }

  lemma ReadBlockAppend(file: Bytes, more: Bytes, offset: nat, size: nat, verify: bool)
    requires ReadBlock(file, offset, size, verify).Some?
    ensures ReadBlock(file + more, offset, size, verify) == ReadBlock(file, offset, size, verify)
  {
    hide LogFormat.ChecksumMatches;
    var f := file + more;
    assert f[offset + size + 1..offset + size + 5] == file[offset + size + 1..offset + size + 5];
    assert f[offset..offset + size + 1] == file[offset..offset + size + 1];
    assert f[offset..offset + size] == file[offset..offset + size];
  }

  lemma StoredInAppend(file: Bytes, more: Bytes, b: Stored)
    requires StoredIn(file, b)
    ensures StoredIn(file + more, b)
  {
    hide ReadBlock, IsBlock;
    forall verify ensures ReadBlock(file + more, b.offset, |BytesOf(b)|, verify) == Some(BytesOf(b)) {
      ReadBlockAppend(file, more, b.offset, |BytesOf(b)|, verify);
    }
  }

  /** A block just written is stored. */
  lemma JustStored(file: Bytes, b: Stored)
    requires IsBlock(b) && b.offset == |file|
    ensures StoredIn(file + RawBlock(BytesOf(b)), b)
  {
    hide ReadBlock, IsBlock;
    forall verify ensures ReadBlock(file + RawBlock(BytesOf(b)), b.offset, |BytesOf(b)|, verify) == Some(BytesOf(b)) {
      BlockReads(file, BytesOf(b), [], verify);
      assert (file + RawBlock(BytesOf(b))) + [] == file + RawBlock(BytesOf(b));
    }
  }

  lemma BytesAre(b: Stored)
    requires IsBlock(b)
    ensures BytesOf(b) == BlockBytes(b.buffer, b.restarts)
  {
  }

  lemma FinishedIsBlock(b: Stored)
    requires Bounded(b.restarts) && Laid(b.buffer, b.restarts, b.layout) && b.offset < LIMIT64
    ensures IsBlock(b) && |BytesOf(b)| + TRAILER_SIZE <= BLOCK_LIMIT
  {
    hide EntryLaid;
  }

  // ----- Ordering facts -----

  /** `last` block of keys gets one more key, above all that came before. */
  ghost function WithKey(blocks: seq<Stored>, layout: Layout): seq<Stored>
    requires blocks != []
  {
    blocks[..|blocks| - 1] + [blocks[|blocks| - 1].(layout := layout)]
  }

  /** Every key so far is at or before `last`. */
  ghost predicate UpTo(blocks: seq<Stored>, last: Bytes) {
    forall i, p | 0 <= i < |blocks| && 0 <= p < |blocks[i].layout.entries| ::
      KeyAt(blocks[i], p) == last || InternalBefore(KeyAt(blocks[i], p), last)
  }

  lemma KeyAdded(blocks: seq<Stored>, layout: Layout, last: Bytes, e: Pair)
    requires blocks != [] && BlocksAscend(blocks) && UpTo(blocks, last)
    requires layout.entries == blocks[|blocks| - 1].layout.entries + [e]
    requires InternalBefore(last, e.key) || forall i | 0 <= i < |blocks| :: blocks[i].layout.entries == []
    ensures BlocksAscend(WithKey(blocks, layout)) && UpTo(WithKey(blocks, layout), e.key)
  {
    hide InternalBefore;
    var n := |blocks| - 1;
    var bs := WithKey(blocks, layout);
    var m := |blocks[n].layout.entries|;
    forall i, p | 0 <= i < |bs| && 0 <= p < |bs[i].layout.entries|
      ensures KeyAt(bs[i], p) == e.key || InternalBefore(KeyAt(bs[i], p), e.key)
      ensures i < n || p < m ==> KeyAt(bs[i], p) == KeyAt(blocks[i], p) && InternalBefore(KeyAt(bs[i], p), e.key)
    {
      if i < n || p < m {
        assert KeyAt(bs[i], p) == KeyAt(blocks[i], p);
        Tables.Transitive(KeyAt(blocks[i], p), last, e.key);
      }
    }
  }

  /** A separator stays one when a later key is added. */
  lemma StillSeparates(blocks: seq<Stored>, layout: Layout, last: Bytes, e: Pair, i: nat, sep: Bytes)
    requires i < |blocks| - 1 && UpTo(blocks, last) && Separates(blocks, i, sep)
    requires layout.entries == blocks[|blocks| - 1].layout.entries + [e]
    requires InternalBefore(last, e.key) && |last| >= 8 && |e.key| >= 8
    requires |KeyAt(blocks[i], |blocks[i].layout.entries| - 1)| >= 8
    requires LaterKey(blocks, i, last)
    ensures Separates(WithKey(blocks, layout), i, sep)
  {
    hide InternalBefore, UserPart;
    var bs, n := WithKey(blocks, layout), |blocks| - 1;
    var m := |blocks[n].layout.entries|;
    assert bs[i] == blocks[i];
    var j, q :| i < j < |blocks| && 0 <= q < |blocks[j].layout.entries| && KeyAt(blocks[j], q) == last;
    assert InternalBefore(sep, last);
    Tables.Transitive(sep, last, e.key);
    SameUserBelow(sep, last, e.key);
    forall j, q | i < j < |bs| && 0 <= q < |bs[j].layout.entries|
      ensures InternalBefore(sep, KeyAt(bs[j], q))
        && (sep == KeyAt(bs[i], |bs[i].layout.entries| - 1) || UserPart(sep) != UserPart(KeyAt(bs[j], q)))
    {
      if j < n || q < m {
        assert KeyAt(bs[j], q) == KeyAt(blocks[j], q);
      } else {
        assert KeyAt(bs[j], q) == e.key;
      }
    }
  }

  ghost predicate LaterKey(blocks: seq<Stored>, i: nat, last: Bytes) {
    exists j, q | i < j < |blocks| && 0 <= q < |blocks[j].layout.entries| :: KeyAt(blocks[j], q) == last
  }

  lemma SameUserBelow(a: Bytes, b: Bytes, c: Bytes)
    requires |a| >= 8 && |b| >= 8 && |c| >= 8
    requires InternalBefore(a, b) && InternalBefore(b, c)
    ensures UserPart(a) == UserPart(c) ==> UserPart(a) == UserPart(b)
  {
    hide DecodeFixed64;
    EmbedInOrder(UserPart(a), UserPart(b));
    EmbedInOrder(UserPart(b), UserPart(c));
    EmbedInOrder(UserPart(c), UserPart(b));
    EmbedInOrder(UserPart(b), UserPart(a));
  }

  /** The separator of the block that has just ended, once the next key is in. */
  lemma NewSeparator(blocks: seq<Stored>, layout: Layout, last: Bytes, e: Pair, sep: Bytes)
    requires |blocks| >= 2 && UpTo(blocks, last)
    requires var i := |blocks| - 2;
      && blocks[i + 1].layout.entries == [] && layout.entries == [e]
      && blocks[i].layout.entries != []
      && KeyAt(blocks[i], |blocks[i].layout.entries| - 1) == last
    requires |last| >= 8 && |e.key| >= 8 && |sep| >= 8
    requires !InternalBefore(sep, last) && InternalBefore(sep, e.key)
    requires sep == last || UserPart(sep) != UserPart(e.key)
    ensures Separates(WithKey(blocks, layout), |blocks| - 2, sep)
  {
    hide InternalBefore, UserPart;
    var i, bs := |blocks| - 2, WithKey(blocks, layout);
    assert bs[i] == blocks[i];
    forall p | 0 <= p < |bs[i].layout.entries| ensures !InternalBefore(sep, KeyAt(bs[i], p)) {
      assert KeyAt(bs[i], p) == KeyAt(blocks[i], p);
      Tables.Transitive(sep, KeyAt(blocks[i], p), last);
    }
    forall j, q | i < j < |bs| && 0 <= q < |bs[j].layout.entries|
      ensures KeyAt(bs[j], q) == e.key
    {
    }
  }

  lemma SeparatorKeepsUser(start: Bytes, r: Bytes, limit: Bytes)
    requires |start| >= 8 && |r| >= 8 && |limit| >= 8
    requires r == start || (Comparator.Before(ExtractUserKey(start), ExtractUserKey(r)) && Comparator.Before(ExtractUserKey(r), ExtractUserKey(limit)))
    ensures r == start || UserPart(r) != UserPart(limit)
  {
    EmbedInOrder(ExtractUserKey(r), ExtractUserKey(limit));
  }

  lemma EmptyBuffer(buffer: Bytes, restarts: seq<nat>, g: Layout)
    requires Laid(buffer, restarts, g)
    ensures buffer == [] <==> g.entries == []
  {
    hide EntryLaid;
    if g.entries != [] {
      OffsetsAscend(buffer, restarts, g, 0, |g.entries|);
    }
  }

  /** Where the last key is. */
  ghost predicate LastIs(blocks: seq<Stored>, es: seq<Pair>, lastKey: Bytes, numEntries: nat, pending: bool) {
    && (forall i | 0 <= i < |blocks| :: blocks[i].layout.entries != [])
    && (numEntries == 0 <==> blocks == [] && es == [])
    && (pending <==> blocks != [] && es == [])
    && (numEntries > 0 ==> |lastKey| >= 8)
    && (es != [] ==> lastKey == es[|es| - 1].key)
    && (pending ==>
          var b := blocks[|blocks| - 1];
          lastKey == KeyAt(b, |b.layout.entries| - 1))
  }

  lemma LastAfter(blocks: seq<Stored>, es: seq<Pair>, lastKey: Bytes, numEntries: nat, pending: bool, e: Pair)
    requires LastIs(blocks, es, lastKey, numEntries, pending) && |e.key| >= 8
    ensures LastIs(blocks, es + [e], e.key, numEntries + 1, false)
  {
  }

  /** Every key was added to the filter with the offset of its block. */
  ghost predicate AllAdded(blocks: seq<Stored>, added: set<(nat, Bytes)>) {
    forall i, p | 0 <= i < |blocks| && 0 <= p < |blocks[i].layout.entries| :: (blocks[i].offset, KeyAt(blocks[i], p)) in added
  }

  lemma AddedAfter(blocks: seq<Stored>, layout: Layout, e: Pair, added: set<(nat, Bytes)>)
    requires blocks != [] && AllAdded(blocks, added)
    requires layout.entries == blocks[|blocks| - 1].layout.entries + [e]
    ensures AllAdded(WithKey(blocks, layout), added + {(blocks[|blocks| - 1].offset, e.key)})
  {
    var bs, n := WithKey(blocks, layout), |blocks| - 1;
    forall i, p | 0 <= i < |bs| && 0 <= p < |bs[i].layout.entries|
      ensures (bs[i].offset, KeyAt(bs[i], p)) in added + {(blocks[n].offset, e.key)}
    {
      if i < n || p < |blocks[n].layout.entries| {
        assert KeyAt(bs[i], p) == KeyAt(blocks[i], p);
        assert (blocks[i].offset, KeyAt(blocks[i], p)) in added;
      }
    }
  }

  ghost predicate KeysGood(blocks: seq<Stored>, last: Bytes) {
    && BlocksAscend(blocks) && UpTo(blocks, last)
    && forall i, p | 0 <= i < |blocks| && 0 <= p < |blocks[i].layout.entries| :: |KeyAt(blocks[i], p)| >= 8
  }

  lemma KeysAfter(blocks: seq<Stored>, layout: Layout, last: Bytes, e: Pair)
    requires blocks != [] && KeysGood(blocks, last) && |e.key| >= 8
    requires layout.entries == blocks[|blocks| - 1].layout.entries + [e]
    requires InternalBefore(last, e.key) || forall i | 0 <= i < |blocks| :: blocks[i].layout.entries == []
    ensures KeysGood(WithKey(blocks, layout), e.key)
  {
    hide InternalBefore;
    KeyAdded(blocks, layout, last, e);
    KeysLong(blocks, layout, e);
  }

  /** The keys of the index separate the blocks they belong to. */
  ghost predicate SepsAt(blocks: seq<Stored>, index: seq<Pair>) {
    |index| < |blocks| && forall i | 0 <= i < |index| :: Separates(blocks, i, index[i].key)
  }

  /** The separators after the next key, a new one included when one was due. */
  lemma SeparatorsAfter(blocks: seq<Stored>, open_: Stored, layout: Layout, last: Bytes, n: nat, e: Pair,
                        index: seq<Pair>, pending: bool, sep: Bytes, value: Bytes)
    requires KeysGood(blocks + [open_], last) && SepsAt(blocks + [open_], index)
    requires LastIs(blocks, open_.layout.entries, last, n, pending)
    requires layout.entries == open_.layout.entries + [e]
    requires |e.key| >= 8 && (n > 0 ==> InternalBefore(last, e.key))
    requires |index| == |blocks| - if pending then 1 else 0
    requires pending ==>
      && |sep| >= 8 && !InternalBefore(sep, last) && InternalBefore(sep, e.key)
      && (sep == last || UserPart(sep) != UserPart(e.key))
    ensures SepsAt(WithKey(blocks + [open_], layout), if pending then index + [Pair(sep, value)] else index)
  {
    hide InternalBefore, UserPart, Separates, UpTo, LaterKey, BlocksAscend;
    var all := blocks + [open_];
    var j := if pending then |blocks| - 1 else |blocks|;
    forall i | 0 <= i < |index| ensures Separates(WithKey(all, layout), i, index[i].key) {
      LastIsLater(all, i, j, last);
      assert KeyAt(all[i], |all[i].layout.entries| - 1) == KeyAt(blocks[i], |blocks[i].layout.entries| - 1);
      StillSeparates(all, layout, last, e, i, index[i].key);
    }
    if pending {
      NewSeparator(all, layout, last, e, sep);
    }
  }

  lemma LastIsLater(blocks: seq<Stored>, i: nat, j: nat, last: Bytes)
    requires i < j < |blocks| && blocks[j].layout.entries != []
    requires KeyAt(blocks[j], |blocks[j].layout.entries| - 1) == last
    ensures LaterKey(blocks, i, last)
  {
  }

  /** The open block has become a stored one, and an empty one is open. */
  ghost predicate Closed(before: seq<Stored>, after: seq<Stored>) {
    && before != [] && |after| == |before| + 1
    && after[|before|].layout.entries == []
    && forall i | 0 <= i < |before| :: after[i].layout == before[i].layout && after[i].offset == before[i].offset
  }

  lemma KeysAfterClosing(before: seq<Stored>, after: seq<Stored>, last: Bytes)
    requires Closed(before, after) && KeysGood(before, last)
    ensures KeysGood(after, last)
  {
    hide InternalBefore;
    forall i, p | 0 <= i < |after| && 0 <= p < |after[i].layout.entries| ensures i < |before| && KeyAt(after[i], p) == KeyAt(before[i], p) {
    }
  }

  lemma SeparatesAfterClosing(before: seq<Stored>, after: seq<Stored>, i: nat, sep: Bytes)
    requires Closed(before, after) && i < |before| && Separates(before, i, sep)
    ensures Separates(after, i, sep)
  {
    hide InternalBefore, UserPart;
    forall i, p | 0 <= i < |after| && 0 <= p < |after[i].layout.entries| ensures i < |before| && KeyAt(after[i], p) == KeyAt(before[i], p) {
    }
  }

  lemma SepsAfterClosing(before: seq<Stored>, after: seq<Stored>, index: seq<Pair>)
    requires Closed(before, after) && SepsAt(before, index)
    ensures SepsAt(after, index)
  {
    hide Separates;
    forall i | 0 <= i < |index| ensures Separates(after, i, index[i].key) {
      SeparatesAfterClosing(before, after, i, index[i].key);
    }
  }

  lemma AddedAfterClosing(before: seq<Stored>, after: seq<Stored>, added: set<(nat, Bytes)>)
    requires Closed(before, after) && AllAdded(before, added)
    ensures AllAdded(after, added)
  {
    forall i, p | 0 <= i < |after| && 0 <= p < |after[i].layout.entries|
      ensures (after[i].offset, KeyAt(after[i], p)) in added
    {
      assert (before[i].offset, KeyAt(before[i], p)) in added;
    }
  }

  lemma LastAfterClosing(blocks: seq<Stored>, es: seq<Pair>, lastKey: Bytes, numEntries: nat, pending: bool, b: Stored)
    requires LastIs(blocks, es, lastKey, numEntries, pending) && es != [] && b.layout.entries == es
    ensures LastIs(blocks + [b], [], lastKey, numEntries, true)
  {
  }

  /** Every entry of the blocks, in order. */
  ghost function Pairs(blocks: seq<Stored>): seq<Pair> {
    if blocks == [] then [] else Pairs(blocks[..|blocks| - 1]) + blocks[|blocks| - 1].layout.entries
  }

  lemma {:induction false} PairsWithKey(blocks: seq<Stored>, layout: Layout, e: Pair)
    requires blocks != [] && layout.entries == blocks[|blocks| - 1].layout.entries + [e]
    ensures Pairs(WithKey(blocks, layout)) == Pairs(blocks) + [e]
  {
    assert WithKey(blocks, layout)[..|blocks| - 1] == blocks[..|blocks| - 1];
  }

  lemma {:induction false} PairsOfSame(a: seq<Stored>, b: seq<Stored>)
    requires |a| == |b| && forall i | 0 <= i < |a| :: a[i].layout == b[i].layout
    ensures Pairs(a) == Pairs(b)
  {
    if a != [] {
      PairsOfSame(a[..|a| - 1], b[..|b| - 1]);
    }
  }

  lemma PairsAfterClosing(before: seq<Stored>, after: seq<Stored>)
    requires Closed(before, after)
    ensures Pairs(after) == Pairs(before) && Pairs(after[..|before|]) == Pairs(before)
  {
    PairsOfSame(before, after[..|before|]);
  }

  /** What the finished parts amount to. */
  lemma MakeTable(file: Bytes, index: Stored, blocks: seq<Stored>, open_: Stored, last: Bytes)
    requires open_.layout.entries == [] && KeysGood(blocks + [open_], last)
    requires IsBlock(index) && SepsAt(blocks + [open_], index.layout.entries) && |index.layout.entries| == |blocks|
    requires forall i | 0 <= i < |blocks| :: StoredIn(file, blocks[i])
    requires forall i | 0 <= i < |blocks| ::
      IsBlock(blocks[i]) && index.layout.entries[i].value == HandleBytes(blocks[i].offset, |BytesOf(blocks[i])|)
    ensures TableInv(Table(file, index, blocks))
  {
    hide InternalBefore, UserPart, StoredIn, IsBlock, HandleBytes, BytesOf;
    var all := blocks + [open_];
    assert forall i | 0 <= i < |blocks| :: all[i] == blocks[i];
    forall i | 0 <= i < |blocks| ensures Separates(blocks, i, index.layout.entries[i].key) {
      assert Separates(all, i, index.layout.entries[i].key);
      assert forall j, q | i < j < |blocks| && 0 <= q < |blocks[j].layout.entries| :: KeyAt(blocks[j], q) == KeyAt(all[j], q);
      assert forall p | 0 <= p < |blocks[i].layout.entries| :: KeyAt(blocks[i], p) == KeyAt(all[i], p);
    }
    assert BlocksAscend(blocks) by {
      assert forall i, p | 0 <= i < |blocks| && 0 <= p < |blocks[i].layout.entries| :: KeyAt(blocks[i], p) == KeyAt(all[i], p);
    }
    forall i, p | 0 <= i < |blocks| && 0 <= p < |blocks[i].layout.entries| ensures |KeyAt(blocks[i], p)| >= 8 {
      assert KeyAt(blocks[i], p) == KeyAt(all[i], p);
    }
  }

  lemma LastSeparator(blocks: seq<Stored>, open_: Stored, last: Bytes, n: nat, index: seq<Pair>, sep: Bytes, value: Bytes)
    requires KeysGood(blocks + [open_], last) && SepsAt(blocks + [open_], index)
    requires LastIs(blocks, [], last, n, true) && open_.layout.entries == []
    requires |index| == |blocks| - 1 && |sep| >= 8 && !InternalBefore(sep, last)
    ensures SepsAt(blocks + [open_], index + [Pair(sep, value)])
  {
    hide InternalBefore, UserPart;
    var all, i := blocks + [open_], |blocks| - 1;
    forall p | 0 <= p < |all[i].layout.entries| ensures !InternalBefore(sep, KeyAt(all[i], p)) {
      Tables.Transitive(sep, KeyAt(all[i], p), last);
    }
  }

  /** One more block was written, and it is as large as blocks should be. */
  ghost predicate IsFull(before: seq<Stored>, after: seq<Stored>, blockSize: nat) {
    && |after| == |before| + 1 && after[..|before|] == before
    && IsBlock(after[|before|]) && |BytesOf(after[|before|])| >= blockSize
  }

  lemma FullIs(before: seq<Stored>, b: Stored, blockSize: nat)
    requires IsBlock(b) && |b.buffer| + 4 * |b.restarts| + 4 >= blockSize
    ensures IsFull(before, before + [b], blockSize)
  {
    BytesAre(b);
    hide Laid, IsBlock;
    assert (before + [b])[..|before|] == before;
  }

  /** What a new block does to a filter of `n` keys in progress: nothing, or it is made. */
  ghost predicate Flushed(n: nat, result: Bytes, n': nat, result': Bytes, bitsPerKey: nat) {
    (n' == n && result' == result)
    || (n' == 0 && |result'| == |result| + if n == 0 then 0 else Bloom.FilterBytes(n, bitsPerKey) + 1)
  }

  class TableBuilder {
    const blockSize: nat
    const dataBlock: BlockBuilder
    const indexBlock: BlockBuilder
    const filterBlock: FilterBlockBuilder?
    var file: Bytes
    var lastKey: Bytes
    var numEntries: nat
    var closed: bool
    /** Set only if dataBlock is empty: the index entry of the last block waits
        for the first key of the next one. */
    var pendingIndexEntry: bool
    var pendingOffset: nat
    var pendingSize: nat
    ghost var blocks: seq<Stored>

    /** The finished blocks and the one being built. */
    ghost function All(): seq<Stored>
      reads this`file, this`blocks, dataBlock`layout
    {
      blocks + [Open(|file|, dataBlock.layout)]
    }

    ghost predicate Parts()
      reads this`closed, dataBlock, indexBlock, filterBlock
    {
      && dataBlock != indexBlock
      && dataBlock.Valid() && indexBlock.Valid() && !dataBlock.finished && !indexBlock.finished
      && (filterBlock != null ==> filterBlock.Valid())
      && !closed
    }

    ghost predicate Last()
      reads this`lastKey, this`numEntries, this`pendingIndexEntry, this`blocks, dataBlock`layout
    {
      LastIs(blocks, dataBlock.layout.entries, lastKey, numEntries, pendingIndexEntry)
    }

    ghost predicate Ordered()
      reads this`file, this`blocks, this`lastKey, dataBlock`layout
    {
      KeysGood(All(), lastKey)
    }

    ghost predicate Indexed()
      reads this`file, this`blocks, this`pendingIndexEntry, this`pendingOffset, this`pendingSize, dataBlock`layout, indexBlock`layout
    {
      var es := indexBlock.layout.entries;
      && |es| == |blocks| - (if pendingIndexEntry then 1 else 0)
      && (forall i | 0 <= i < |blocks| :: StoredIn(file, blocks[i]))
      && (forall i | 0 <= i < |es| :: es[i].value == HandleBytes(blocks[i].offset, |BytesOf(blocks[i])|))
      && SepsAt(All(), es)
      && (pendingIndexEntry ==>
            var b := blocks[|blocks| - 1];
            pendingOffset == b.offset && pendingSize == |BytesOf(b)|)
    }

    ghost predicate Filtered()
      reads this`file, this`blocks, dataBlock`layout, filterBlock
    {
      filterBlock != null ==>
        && filterBlock.blockOffset == |file|
        && |file| / FILTER_BASE == |filterBlock.filterOffsets|
        && AllAdded(All(), filterBlock.added)
    }

    ghost predicate Valid()
      reads this, dataBlock, indexBlock, filterBlock
    {
      Parts() && Last() && Ordered() && Indexed() && Filtered()
    }

    /** What is about to be written still fits in the integers of the format. */
    ghost predicate Room(key: Bytes, value: Bytes)
      reads this, dataBlock, indexBlock, filterBlock
    {
      && |file| < FILE_LIMIT
      && |dataBlock.buffer| + |key| + |value| + 15 < LIMIT32
      && |indexBlock.buffer| + |lastKey| + 35 < LIMIT32
      && (filterBlock != null ==>
            |filterBlock.result| + Bloom.FilterBytes(|filterBlock.start| + 1, filterBlock.bitsPerKey)
              + Bloom.FilterBytes(0, filterBlock.bitsPerKey) + 2 < LIMIT32)
    }

    constructor (size: nat, interval: nat, filter: FilterBlockBuilder?)
      requires 1 <= interval
      requires filter != null ==> filter.Valid() && filter.added == {} && filter.blockOffset == 0 && filter.filterOffsets == []
      ensures Valid() && fresh(dataBlock) && fresh(indexBlock) && filterBlock == filter && blockSize == size
      ensures file == [] && lastKey == [] && numEntries == 0 && blocks == [] && dataBlock.layout.entries == []
      ensures dataBlock.buffer == [] && indexBlock.buffer == []
    {
      hide FilterBlockBuilder.Valid;
      blockSize := size;
      dataBlock := new BlockBuilder(interval);
      indexBlock := new BlockBuilder(1);
      filterBlock := filter;
      file, lastKey, numEntries, closed := [], [], 0, false;
      pendingIndexEntry, pendingOffset, pendingSize := false, 0, 0;
      blocks := [];
    }

    /** The pending index entry, when the first key of the next block is known. */
    method AddIndexEntry(key: Bytes)
      requires Valid() && pendingIndexEntry && |key| >= 8 && InternalBefore(lastKey, key)
      requires |indexBlock.buffer| + |lastKey| + 35 < LIMIT32
      modifies this`lastKey, this`pendingIndexEntry, indexBlock
      ensures Parts() && !pendingIndexEntry
      ensures |lastKey| >= 8 && !InternalBefore(lastKey, old(lastKey)) && InternalBefore(lastKey, key)
      ensures lastKey == old(lastKey) || UserPart(lastKey) != UserPart(key)
      ensures |indexBlock.buffer| <= |old(indexBlock.buffer)| + |old(lastKey)| + 35
      ensures var b := blocks[|blocks| - 1];
        indexBlock.layout.entries == old(indexBlock.layout.entries) + [Pair(lastKey, HandleBytes(b.offset, |BytesOf(b)|))]
    {
      hide InternalBefore, BlocksAscend, UpTo, Separates, StoredIn, BytesOf, HandleBytes, FilterBlockBuilder.Valid, BlockBuilder.Valid,
           UserPart;
      ghost var b := blocks[|blocks| - 1];
      assert StoredIn(file, b);
      StoredSize(file, b);
      HandleSize(pendingOffset, pendingSize);
      var sep := FindShortestInternalSeparator(lastKey, key);
      SeparatorKeepsUser(lastKey, sep, key);
      lastKey := sep;
      var handleEncoding := HandleBytes(pendingOffset, pendingSize);
      indexBlock.Add(lastKey, handleEncoding);
      pendingIndexEntry := false;
    }

    /** Add without the flush at its end. */
    method Append(key: Bytes, value: Bytes)
      requires Valid() && Room(key, value)
      requires |key| >= 8 && (numEntries > 0 ==> InternalBefore(lastKey, key))
      modifies this`lastKey, this`numEntries, this`pendingIndexEntry, dataBlock, indexBlock, filterBlock
      ensures Valid() && lastKey == key && numEntries == old(numEntries) + 1
      ensures dataBlock.layout.entries == old(dataBlock.layout.entries) + [Pair(key, value)]
      ensures Pairs(All()) == old(Pairs(All())) + [Pair(key, value)]
      ensures filterBlock != null ==>
        |filterBlock.start| == |old(filterBlock.start)| + 1 && filterBlock.result == old(filterBlock.result)
      ensures |indexBlock.buffer| <= |old(indexBlock.buffer)| + |old(lastKey)| + 35
      ensures |dataBlock.buffer| <= |old(dataBlock.buffer)| + |key| + |value| + 15
    {
      hide Pairs, InternalBefore, BlocksAscend, UpTo, Separates, StoredIn, BytesOf, HandleBytes, FilterBlockBuilder.Valid, BlockBuilder.Valid,
           UserPart, Bloom.FilterBytes;
      hide LastIs, AllAdded, KeysGood, SepsAt;
      ghost var before, last, e := All(), lastKey, Pair(key, value);
      ghost var index, pending, es, n := indexBlock.layout.entries, pendingIndexEntry, dataBlock.layout.entries, numEntries;
      ghost var sep, value_ := [], HandleBytes(pendingOffset, pendingSize);
      LastAfter(blocks, es, last, n, pending, e);
      LastParts(blocks, es, last, n, pending);
      if pendingIndexEntry {
        AddIndexEntry(key);
        sep := lastKey;
      }
      AppendKey(key, value);
      ghost var layout := dataBlock.layout;
      SeparatorsAfter(blocks, before[|blocks|], layout, last, n, e, index, pending, sep, value_);
      NoKeysYet(before, blocks, es, last, n, pending);
      KeysAfter(before, layout, last, e);
      PairsWithKey(before, layout, e);
      if filterBlock != null {
        AddedAfter(before, layout, e, old(filterBlock.added));
      }
      assert All() == WithKey(before, layout);
    }

    /** Writes the data block, if it has entries, as the next block of the file. */
    method Flush()
      requires Valid() && |file| < FILE_LIMIT
      requires filterBlock != null ==>
        |filterBlock.result| + Bloom.FilterBytes(|filterBlock.start|, filterBlock.bitsPerKey)
          + Bloom.FilterBytes(0, filterBlock.bitsPerKey) + 2 < LIMIT32
      modifies this`file, this`pendingIndexEntry, this`pendingOffset, this`pendingSize, this`blocks, dataBlock, filterBlock
      ensures Valid() && dataBlock.layout.entries == [] && Pairs(All()) == old(Pairs(All()))
      ensures numEntries == old(numEntries) && lastKey == old(lastKey)
      ensures |file| <= |old(file)| + BLOCK_LIMIT && |dataBlock.buffer| <= |old(dataBlock.buffer)|
      ensures if old(dataBlock.buffer) == [] then blocks == old(blocks)
              else blocks == old(blocks) + [Stored(|old(file)|, old(dataBlock.buffer), old(dataBlock.restarts), old(dataBlock.layout))]
                   && IsBlock(blocks[|blocks| - 1])
      ensures filterBlock != null ==>
        |filterBlock.result| + Bloom.FilterBytes(|filterBlock.start|, filterBlock.bitsPerKey) + 1 < LIMIT32
      ensures filterBlock != null ==> 
        Flushed(|old(filterBlock.start)|, old(filterBlock.result), |filterBlock.start|, filterBlock.result, filterBlock.bitsPerKey)
    {
      hide InternalBefore, BlocksAscend, UpTo, Separates, StoredIn, BytesOf, HandleBytes, FilterBlockBuilder.Valid, RawBlock,
           UserPart, Bloom.FilterBytes, LastIs, AllAdded, KeysGood, SepsAt, Laid, Bounded, BlockBytes, Pairs;
      ghost var before := All();
      DataEmpty();
      if dataBlock.buffer == [] {
        return;
      }
      ghost var b := Stored(|file|, dataBlock.buffer, dataBlock.restarts, dataBlock.layout);
      LastParts(blocks, dataBlock.layout.entries, lastKey, numEntries, pendingIndexEntry);
      LastAfterClosing(blocks, dataBlock.layout.entries, lastKey, numEntries, pendingIndexEntry, b);
      WriteDataBlock(b);
      assert Closed(before, All());
      KeysAfterClosing(before, All(), lastKey);
      PairsAfterClosing(before, All());
      SepsAfterClosing(before, All(), indexBlock.layout.entries);
      if filterBlock != null {
        AddedAfterClosing(before, All(), filterBlock.added);
        filterBlock.StartBlock(|file|);
      }
    }

    lemma DataEmpty()
      requires Parts()
      ensures dataBlock.buffer == [] <==> dataBlock.layout.entries == []
    {
      hide Laid;
      EmptyBuffer(dataBlock.buffer, dataBlock.restarts, dataBlock.layout);
    }

    /** WriteBlock for the data block. */
    method WriteDataBlock(ghost b: Stored)
      requires dataBlock.Valid() && !dataBlock.finished && |file| < FILE_LIMIT
      requires b == Stored(|file|, dataBlock.buffer, dataBlock.restarts, dataBlock.layout)
      requires forall i | 0 <= i < |blocks| :: StoredIn(file, blocks[i])
      modifies this`file, this`pendingIndexEntry, this`pendingOffset, this`pendingSize, this`blocks, dataBlock
      ensures dataBlock.Valid() && !dataBlock.finished && dataBlock.layout.entries == [] && dataBlock.buffer == []
      ensures IsBlock(b) && blocks == old(blocks) + [b] && file == old(file) + RawBlock(BytesOf(b)) && |file| <= |old(file)| + BLOCK_LIMIT
      ensures forall i | 0 <= i < |blocks| :: StoredIn(file, blocks[i])
      ensures pendingIndexEntry && pendingOffset == b.offset && pendingSize == |BytesOf(b)|
    {
      hide StoredIn, BytesOf, Laid, Bounded, BlockBytes, BlockChecksum;
      var raw := dataBlock.Finish();
      FinishedIsBlock(b);
      BytesAre(b);
      pendingOffset, pendingSize := |file|, |raw|;
      forall i | 0 <= i < |blocks| ensures StoredIn(file + RawBlock(raw), blocks[i]) {
        StoredInAppend(file, RawBlock(raw), blocks[i]);
      }
      JustStored(file, b);
      file := file + RawBlock(raw);
      dataBlock.Reset();
      blocks := blocks + [b];
      pendingIndexEntry := true;
    }

    lemma LastParts(bs: seq<Stored>, es: seq<Pair>, last: Bytes, n: nat, pending: bool)
      requires LastIs(bs, es, last, n, pending)
      ensures n == 0 ==> bs == [] && es == [] && !pending
      ensures n > 0 ==> |last| >= 8
      ensures pending ==> bs != [] && es == [] && n > 0
      ensures es != [] ==> !pending
      ensures pending ==> bs[|bs| - 1].layout.entries != [] && last == KeyAt(bs[|bs| - 1], |bs[|bs| - 1].layout.entries| - 1)
    {
    }

    /** The key into the filter and the data block. */
    method AppendKey(key: Bytes, value: Bytes)
      requires Parts() && (filterBlock != null ==> |file| / FILTER_BASE == |filterBlock.filterOffsets| && filterBlock.blockOffset == |file|)
      requires |dataBlock.buffer| + |key| + |value| + 15 < LIMIT32
      modifies this`lastKey, this`numEntries, dataBlock, filterBlock
      ensures Parts() && lastKey == key && numEntries == old(numEntries) + 1
      ensures dataBlock.layout.entries == old(dataBlock.layout.entries) + [Pair(key, value)]
      ensures |dataBlock.buffer| <= |old(dataBlock.buffer)| + |key| + |value| + 15
      ensures filterBlock != null ==>
        && filterBlock.added == old(filterBlock.added) + {(|file|, key)}
        && filterBlock.blockOffset == old(filterBlock.blockOffset)
        && filterBlock.filterOffsets == old(filterBlock.filterOffsets)
        && |filterBlock.start| == |old(filterBlock.start)| + 1 && filterBlock.result == old(filterBlock.result)
    {
      hide FilterBlockBuilder.Valid, BlockBuilder.Valid;
      if filterBlock != null {
        filterBlock.AddKey(key);
      }
      lastKey := key;
      numEntries := numEntries + 1;
      dataBlock.Add(key, value);
    }

    method Add(key: Bytes, value: Bytes)
      requires Valid() && Room(key, value)
      requires |key| >= 8 && (numEntries > 0 ==> InternalBefore(lastKey, key))
      modifies this, dataBlock, indexBlock, filterBlock
      ensures Valid() && lastKey == key && numEntries == old(numEntries) + 1
      ensures Pairs(All()) == old(Pairs(All())) + [Pair(key, value)]
      ensures if |blocks| == |old(blocks)| then blocks == old(blocks) && dataBlock.CurrentSizeEstimate() < blockSize
              else IsFull(old(blocks), blocks, blockSize) && dataBlock.layout.entries == []
      ensures |file| <= |old(file)| + BLOCK_LIMIT
      ensures |indexBlock.buffer| <= |old(indexBlock.buffer)| + |old(lastKey)| + 35
      ensures |dataBlock.buffer| <= |old(dataBlock.buffer)| + |key| + |value| + 15
      ensures filterBlock != null ==>
        Flushed(|old(filterBlock.start)| + 1, old(filterBlock.result), |filterBlock.start|, filterBlock.result, filterBlock.bitsPerKey)
    {
      hide InternalBefore, Valid, Pairs, Bloom.FilterBytes;
      Append(key, value);
      HasEntry();
      var estimatedBlockSize := dataBlock.CurrentSizeEstimate();
      if estimatedBlockSize >= blockSize {
        ghost var b := Stored(|file|, dataBlock.buffer, dataBlock.restarts, dataBlock.layout);
        Flush();
        FullIs(old(blocks), b, blockSize);
      }
    }

    lemma HasEntry()
      requires Valid() && dataBlock.layout.entries != []
      ensures dataBlock.buffer != []
    {
      hide Last, Ordered, Indexed, Filtered;
      DataEmpty();
    }

    /** WriteRawBlock: nothing that is stored moves. */
    method WriteRaw(contents: Bytes)
      requires forall i | 0 <= i < |blocks| :: StoredIn(file, blocks[i])
      modifies this`file
      ensures file == old(file) + RawBlock(contents)
      ensures forall i | 0 <= i < |blocks| :: StoredIn(file, blocks[i])
    {
      hide StoredIn, RawBlock;
      forall i | 0 <= i < |blocks| ensures StoredIn(file + RawBlock(contents), blocks[i]) {
        StoredInAppend(file, RawBlock(contents), blocks[i]);
      }
      file := file + RawBlock(contents);
    }

    method FinishFilter() returns (contents: Bytes)
      requires filterBlock != null && filterBlock.Valid()
      requires |filterBlock.result| + Bloom.FilterBytes(|filterBlock.start|, filterBlock.bitsPerKey) + 1 < LIMIT32
      requires AllAdded(blocks, filterBlock.added) && forall i | 0 <= i < |blocks| :: StoredIn(file, blocks[i])
      requires |file| < 2 * FILE_LIMIT && |filterBlock.filterOffsets| <= |file| / FILTER_BASE
      modifies this`file, filterBlock
      ensures forall i | 0 <= i < |blocks| :: StoredIn(file, blocks[i])
      ensures Tables.FilterCovers(blocks, filterBlock.hash, Some(contents))
      ensures |file| < 3 * FILE_LIMIT
    {
      hide StoredIn, FilterBlockBuilder.Valid, Bloom.FilterBytes, KeyMayMatchBlock, UserPart, BlockChecksum;
      contents := filterBlock.Finish();
      forall i, p, k | 0 <= i < |blocks| && 0 <= p < |blocks[i].layout.entries| && UserPart(k) == UserPart(KeyAt(blocks[i], p))
        ensures KeyMayMatchBlock(filterBlock.hash, contents, blocks[i].offset, k)
      {
        assert (blocks[i].offset, KeyAt(blocks[i], p)) in old(filterBlock.added);
      }
      WriteRaw(contents);
    }

    /** The last index entry and the index block. */
    method FinishIndex(ghost open_: Stored) returns (contents: Bytes, ghost index: Stored)
      requires indexBlock.Valid() && !indexBlock.finished
      requires KeysGood(blocks + [open_], lastKey) && SepsAt(blocks + [open_], indexBlock.layout.entries)
      requires LastIs(blocks, [], lastKey, numEntries, pendingIndexEntry) && open_.layout.entries == []
      requires var es := indexBlock.layout.entries;
        && |es| == |blocks| - (if pendingIndexEntry then 1 else 0)
        && (forall i | 0 <= i < |blocks| :: StoredIn(file, blocks[i]) && IsBlock(blocks[i]))
        && (forall i | 0 <= i < |es| :: es[i].value == HandleBytes(blocks[i].offset, |BytesOf(blocks[i])|))
        && (pendingIndexEntry ==> pendingOffset == blocks[|blocks| - 1].offset && pendingSize == |BytesOf(blocks[|blocks| - 1])|)
      requires |indexBlock.buffer| + |lastKey| + 35 < LIMIT32 && |file| < LIMIT64
      modifies this`file, this`lastKey, this`pendingIndexEntry, indexBlock
      ensures IsBlock(index) && contents == BytesOf(index) && TableInv(Table(file, index, blocks))
    {
      hide InternalBefore, StoredIn, BytesOf, HandleBytes, RawBlock, LastIs, KeysGood, SepsAt, Laid, Bounded, BlockBytes, TableInv,
           Grown, SharesExactly, PartAt, UserPart, IsBlock, Before;
      ghost var last := lastKey;
      LastParts(blocks, [], lastKey, numEntries, pendingIndexEntry);
      if pendingIndexEntry {
        StoredSize(file, blocks[|blocks| - 1]);
        HandleSize(pendingOffset, pendingSize);
        var sep := FindShortInternalSuccessor(lastKey);
        var handleEncoding := HandleBytes(pendingOffset, pendingSize);
        LastSeparator(blocks, open_, lastKey, numEntries, indexBlock.layout.entries, sep, handleEncoding);
        lastKey := sep;
        indexBlock.Add(lastKey, handleEncoding);
        pendingIndexEntry := false;
      }
      index := Stored(|file|, indexBlock.buffer, indexBlock.restarts, indexBlock.layout);
      contents := indexBlock.Finish();
      FinishedIsBlock(index);
      BytesAre(index);
      WriteRaw(contents);
      MakeTable(file, index, blocks, open_, last);
    }

    /** Ends the last block and writes the filter and the index.  The table holds
        exactly the entries added, and the filter misses none of them. */
    method Finish() returns (indexContents: Bytes, filterContents: Option<Bytes>, ghost t: Table)
      requires Valid() && |file| < FILE_LIMIT
      requires |indexBlock.buffer| + |lastKey| + 35 < LIMIT32
      requires filterBlock != null ==>
        |filterBlock.result| + Bloom.FilterBytes(|filterBlock.start|, filterBlock.bitsPerKey)
          + Bloom.FilterBytes(0, filterBlock.bitsPerKey) + 2 < LIMIT32
      modifies this, dataBlock, indexBlock, filterBlock
      ensures closed && TableInv(t) && t.file == file && indexContents == BytesOf(t.index)
      ensures Pairs(t.blocks) == old(Pairs(All()))
      ensures filterBlock == null ==> filterContents == None
      ensures filterBlock != null ==> filterContents.Some? && Tables.FilterCovers(t.blocks, filterBlock.hash, filterContents)
    {
      hide InternalBefore, StoredIn, BytesOf, HandleBytes, FilterBlockBuilder.Valid, RawBlock, Pairs, TableInv, Tables.FilterCovers,
           UserPart, Bloom.FilterBytes, LastIs, AllAdded, KeysGood, SepsAt, Laid, Bounded, BlockBytes, BlockBuilder.Valid, IsBlock;
      Flush();
      closed := true;
      ghost var open_ := All()[|blocks|];
      PairsOfClosed(blocks, open_);
      filterContents := None;
      if filterBlock != null {
        AddedToBlocks(blocks, open_, filterBlock.added);
        var contents := FinishFilter();
        filterContents := Some(contents);
      }
      StoredAreBlocks(file, blocks);
      ghost var index;
      indexContents, index := FinishIndex(open_);
      t := Table(file, index, blocks);
    }
  }

  lemma StoredAreBlocks(file: Bytes, blocks: seq<Stored>)
    requires forall i | 0 <= i < |blocks| :: StoredIn(file, blocks[i])
    ensures forall i | 0 <= i < |blocks| :: IsBlock(blocks[i])
  {
  }

  lemma PairsOfClosed(blocks: seq<Stored>, open_: Stored)
    requires open_.layout.entries == []
    ensures Pairs(blocks + [open_]) == Pairs(blocks)
  {
    assert (blocks + [open_])[..|blocks|] == blocks;
  }

  lemma AddedToBlocks(blocks: seq<Stored>, open_: Stored, added: set<(nat, Bytes)>)
    requires AllAdded(blocks + [open_], added)
    ensures AllAdded(blocks, added)
  {
    var all := blocks + [open_];
    forall i, p | 0 <= i < |blocks| && 0 <= p < |blocks[i].layout.entries| ensures (blocks[i].offset, KeyAt(blocks[i], p)) in added {
      assert (all[i].offset, KeyAt(all[i], p)) in added;
    }
  }

  lemma NoKeysYet(all: seq<Stored>, blocks: seq<Stored>, es: seq<Pair>, last: Bytes, n: nat, pending: bool)
    requires LastIs(blocks, es, last, n, pending)
    requires |all| == |blocks| + 1 && all[|blocks|].layout.entries == es
    ensures n == 0 ==> forall i | 0 <= i < |all| :: all[i].layout.entries == []
  {
  }

  lemma KeysLong(blocks: seq<Stored>, layout: Layout, e: Pair)
    requires blocks != [] && |e.key| >= 8
    requires forall i, p | 0 <= i < |blocks| && 0 <= p < |blocks[i].layout.entries| :: |KeyAt(blocks[i], p)| >= 8
    requires layout.entries == blocks[|blocks| - 1].layout.entries + [e]
    ensures var bs := WithKey(blocks, layout);
      forall i, p | 0 <= i < |bs| && 0 <= p < |bs[i].layout.entries| :: |KeyAt(bs[i], p)| >= 8
  {
    var bs, n := WithKey(blocks, layout), |blocks| - 1;
    forall i, p | 0 <= i < |bs| && 0 <= p < |bs[i].layout.entries| ensures |KeyAt(bs[i], p)| >= 8 {
      if i < n || p < |blocks[n].layout.entries| {
        assert KeyAt(bs[i], p) == KeyAt(blocks[i], p);
      }
    }
  }

  lemma StoredSize(file: Bytes, b: Stored)
    requires StoredIn(file, b)
    ensures b.offset < LIMIT64 && |BytesOf(b)| < LIMIT64
  {
    hide Laid, Bounded, ReadBlock;
  }

  // ----- A whole table, built and read -----

  /** What the entries may take in the blocks, separators included. */
  function Weight(entries: seq<Pair>): nat {
    if entries == [] then 0
    else Weight(entries[..|entries| - 1]) + |entries[|entries| - 1].key| + |entries[|entries| - 1].value| + 64
  }

  lemma {:induction false} WeightGrows(entries: seq<Pair>, i: nat)
    requires i < |entries|
    ensures Weight(entries[..i + 1]) == Weight(entries[..i]) + |entries[i].key| + |entries[i].value| + 64
    ensures Weight(entries[..i + 1]) <= Weight(entries)
    decreases |entries|
  {
    assert entries[..i + 1][..i] == entries[..i];
    if i + 1 < |entries| {
      assert entries[..|entries| - 1][..i + 1] == entries[..i + 1];
      WeightGrows(entries[..|entries| - 1], i);
    } else {
      assert entries[..i + 1] == entries;
    }
  }

  lemma {:induction false} WeightCounts(entries: seq<Pair>)
    ensures 64 * |entries| <= Weight(entries)
  {
    if entries != [] {
      WeightCounts(entries[..|entries| - 1]);
    }
  }

  /** What a filter over n keys may take. */
  function FilterWeight(n: nat, bitsPerKey: nat): nat {
    n * (bitsPerKey + 10)
  }

  lemma FilterFits(n: nat, bitsPerKey: nat)
    ensures Bloom.FilterBytes(n, bitsPerKey) + 1 <= FilterWeight(n, bitsPerKey) + 10
    ensures n > 0 ==> Bloom.FilterBytes(n, bitsPerKey) + 1 <= FilterWeight(n, bitsPerKey)
    ensures FilterWeight(n + 1, bitsPerKey) == FilterWeight(n, bitsPerKey) + bitsPerKey + 10
    ensures FilterWeight(0, bitsPerKey) == 0
  {
    assert (n + 1) * (bitsPerKey + 10) == n * (bitsPerKey + 10) + (bitsPerKey + 10);
    assert n * (bitsPerKey + 10) == n * bitsPerKey + 10 * n;
  }

  /** After i entries everything is as small as their weight allows. */
  ghost predicate Small(b: TableBuilder, entries: seq<Pair>, i: nat)
    requires i <= |entries|
    reads b, b.dataBlock, b.indexBlock, b.filterBlock
  {
    && PartsFit(|b.file|, |b.dataBlock.buffer|, |b.indexBlock.buffer|, |b.lastKey|, entries, i)
    && (b.filterBlock != null ==> FilterPartFits(|b.filterBlock.result|, |b.filterBlock.start|, i, b.filterBlock.bitsPerKey))
  }

  ghost predicate PartsFit(file: nat, data: nat, index: nat, last: nat, entries: seq<Pair>, i: nat)
    requires i <= |entries|
  {
    file <= i * BLOCK_LIMIT && data <= Weight(entries[..i]) && index + last <= Weight(entries[..i])
  }

  ghost predicate FilterPartFits(result: nat, start: nat, i: nat, bitsPerKey: nat) {
    result + FilterWeight(start, bitsPerKey) <= FilterWeight(i, bitsPerKey)
  }

  lemma PartsStillFit(file: nat, data: nat, index: nat, last: nat, file': nat, data': nat, index': nat, entries: seq<Pair>, i: nat)
    requires i < |entries| && PartsFit(file, data, index, last, entries, i)
    requires file' <= file + BLOCK_LIMIT && data' <= data + |entries[i].key| + |entries[i].value| + 15 && index' <= index + last + 35
    ensures PartsFit(file', data', index', |entries[i].key|, entries, i + 1)
  {
    WeightGrows(entries, i);
    hide Weight;
    assert (i + 1) * BLOCK_LIMIT == i * BLOCK_LIMIT + BLOCK_LIMIT;
  }

  ghost predicate Affordable(entries: seq<Pair>, bitsPerKey: nat) {
    Weight(entries) + 64 < LIMIT32 && FilterWeight(|entries| + 2, bitsPerKey) + 20 < LIMIT32
  }

  lemma FilterWeightGrows(m: nat, n: nat, bitsPerKey: nat)
    requires m <= n
    ensures FilterWeight(m, bitsPerKey) <= FilterWeight(n, bitsPerKey)
  {
    assert (n - m) * (bitsPerKey + 10) >= 0;
    assert n * (bitsPerKey + 10) == m * (bitsPerKey + 10) + (n - m) * (bitsPerKey + 10);
  }

  lemma FileFits(entries: seq<Pair>, i: nat)
    requires Weight(entries) < LIMIT32 && i <= |entries|
    ensures i * BLOCK_LIMIT < FILE_LIMIT
  {
    WeightCounts(entries);
    hide Weight;
    assert i < 0x400_0000;
    assert i * BLOCK_LIMIT <= 0x400_0000 * BLOCK_LIMIT;
  }

  lemma FilterStillFits(n: nat, result: Bytes, n': nat, result': Bytes, i: nat, bitsPerKey: nat)
    requires FilterPartFits(|result|, n, i, bitsPerKey) && Flushed(n + 1, result, n', result', bitsPerKey)
    ensures FilterPartFits(|result'|, n', i + 1, bitsPerKey)
  {
    FilterFits(n, bitsPerKey);
    FilterFits(n + 1, bitsPerKey);
    FilterFits(0, bitsPerKey);
    FilterFits(i, bitsPerKey);
    hide FilterWeight, Bloom.FilterBytes;
  }

  lemma FilterRoom(n: nat, used: nat, i: nat, most: nat, bitsPerKey: nat)
    requires used + FilterWeight(n, bitsPerKey) <= FilterWeight(i, bitsPerKey) && i <= most
    requires FilterWeight(most + 2, bitsPerKey) + 20 < LIMIT32
    ensures used + Bloom.FilterBytes(n + 1, bitsPerKey) + Bloom.FilterBytes(0, bitsPerKey) + 2 < LIMIT32
    ensures used + Bloom.FilterBytes(n, bitsPerKey) + Bloom.FilterBytes(0, bitsPerKey) + 2 < LIMIT32
  {
    FilterFits(n, bitsPerKey);
    FilterFits(n + 1, bitsPerKey);
    FilterFits(0, bitsPerKey);
    FilterFits(i, bitsPerKey);
    FilterWeightGrows(i + 1, most + 2, bitsPerKey);
    hide FilterWeight, Bloom.FilterBytes;
  }

  lemma RoomForNext(b: TableBuilder, entries: seq<Pair>, i: nat, bitsPerKey: nat)
    requires i < |entries| && Small(b, entries, i) && Affordable(entries, bitsPerKey)
    requires b.filterBlock != null ==> b.filterBlock.bitsPerKey == bitsPerKey
    ensures b.Room(entries[i].key, entries[i].value)
  {
    WeightGrows(entries, i);
    FileFits(entries, i);
    hide Weight, FilterWeight, Bloom.FilterBytes;
    if b.filterBlock != null {
      FilterRoom(|b.filterBlock.start|, |b.filterBlock.result|, i, |entries|, bitsPerKey);
    }
  }

  lemma OneMore(entries: seq<Pair>, i: nat)
    requires i < |entries|
    ensures entries[..i + 1] == entries[..i] + [Pair(entries[i].key, entries[i].value)]
  {
  }

  /** The next entry of the list. */
  method AddNext(b: TableBuilder, entries: seq<Pair>, i: nat, bitsPerKey: nat)
    requires i < |entries| && b.Valid() && Small(b, entries, i) && Affordable(entries, bitsPerKey)
    requires b.filterBlock != null ==> b.filterBlock.bitsPerKey == bitsPerKey
    requires b.numEntries == i && Pairs(b.All()) == entries[..i]
    requires |entries[i].key| >= 8 && (i > 0 ==> InternalBefore(b.lastKey, entries[i].key))
    modifies b, b.dataBlock, b.indexBlock, b.filterBlock
    ensures b.Valid() && Small(b, entries, i + 1) && b.numEntries == i + 1 && Pairs(b.All()) == entries[..i + 1]
    ensures b.lastKey == entries[i].key
  {
    hide *;
    RoomForNext(b, entries, i, bitsPerKey);
    OneMore(entries, i);
    SmallIs(b, entries, i);
    b.Add(entries[i].key, entries[i].value);
    PartsStillFit(|old(b.file)|, |old(b.dataBlock.buffer)|, |old(b.indexBlock.buffer)|, |old(b.lastKey)|,
                  |b.file|, |b.dataBlock.buffer|, |b.indexBlock.buffer|, entries, i);
    if b.filterBlock != null {
      FilterStillFits(|old(b.filterBlock.start)|, old(b.filterBlock.result), |b.filterBlock.start|, b.filterBlock.result, i, bitsPerKey);
    }
    SmallIs(b, entries, i + 1);
  }

  lemma SmallIs(b: TableBuilder, entries: seq<Pair>, i: nat)
    requires i <= |entries|
    ensures Small(b, entries, i) <==>
      && PartsFit(|b.file|, |b.dataBlock.buffer|, |b.indexBlock.buffer|, |b.lastKey|, entries, i)
      && (b.filterBlock != null ==> FilterPartFits(|b.filterBlock.result|, |b.filterBlock.start|, i, b.filterBlock.bitsPerKey))
  {
  }

  /** e is the first of the entries at or after k. */
  ghost predicate FirstFrom(entries: seq<Pair>, k: Bytes, e: Pair) {
    && e in entries && !InternalBefore(e.key, k)
    && forall o | o in entries && !InternalBefore(o.key, k) :: !InternalBefore(o.key, e.key)
  }

  lemma {:induction false} InPairs(blocks: seq<Stored>, e: Pair)
    ensures e in Pairs(blocks) <==> InTable(blocks, e)
  {
    if blocks != [] {
      var n := |blocks| - 1;
      InPairs(blocks[..n], e);
      if InTable(blocks, e) && e !in blocks[n].layout.entries {
        var i :| 0 <= i < |blocks| && e in blocks[i].layout.entries;
        assert blocks[..n][i] == blocks[i];
      }
    }
  }

  lemma FirstOfTable(blocks: seq<Stored>, entries: seq<Pair>, k: Bytes, e: Pair)
    requires Pairs(blocks) == entries
    ensures FirstFrom(entries, k, e) <==> FirstAtOrAfter(blocks, k, e)
  {
    hide InternalBefore, InTable, Pairs;
    InPairs(blocks, e);
    forall o ensures o in entries <==> InTable(blocks, o) {
      InPairs(blocks, o);
    }
  }

  /** A table built from any ascending list of entries, with or without filter,
      answers for every key: what it reports is the first entry of the list at or
      after the key, and it reports it whenever it has the key's user key. */
  method BuildAndGet(entries: seq<Pair>, blockSize: nat, interval: nat, filter: FilterBlockBuilder?, verify: bool, hash: Bloom.Hash,
                     bitsPerKey: nat, key: Bytes)
    returns (r: Option<Pair>)
    requires 1 <= interval && Affordable(entries, bitsPerKey) && |key| >= 8
    requires filter != null ==>
      && filter.Valid() && filter.added == {} && filter.blockOffset == 0 && filter.filterOffsets == [] && filter.start == []
      && filter.result == [] && filter.bitsPerKey == bitsPerKey && filter.hash == hash
    requires forall i | 0 <= i < |entries| :: |entries[i].key| >= 8
    requires forall i | 0 < i < |entries| :: InternalBefore(entries[i - 1].key, entries[i].key)
    modifies filter
    ensures r.Some? ==> FirstFrom(entries, key, r.value)
    ensures r.None? ==> forall e | FirstFrom(entries, key, e) :: UserPart(e.key) != UserPart(key)
  {
    hide *;
    var b := new TableBuilder(blockSize, interval, filter);
    NothingYet(b, entries);
    assert entries[..0] == [];
    for i := 0 to |entries|
      invariant b.Valid() && fresh(b) && fresh(b.dataBlock) && fresh(b.indexBlock) && b.filterBlock == filter
      invariant Small(b, entries, i) && b.numEntries == i && Pairs(b.All()) == entries[..i]
      invariant i > 0 ==> b.lastKey == entries[i - 1].key
    {
      AddNext(b, entries, i, bitsPerKey);
    }
    assert entries[..|entries|] == entries;
    r := FinishAndGet(b, entries, verify, hash, bitsPerKey, key);
  }

  lemma NothingYet(b: TableBuilder, entries: seq<Pair>)
    requires b.file == [] && b.dataBlock.buffer == [] && b.indexBlock.buffer == [] && b.lastKey == [] && b.blocks == []
    requires b.dataBlock.layout.entries == []
    requires b.filterBlock != null ==> b.filterBlock.start == [] && b.filterBlock.result == []
    ensures Small(b, entries, 0) && Pairs(b.All()) == []
  {
    assert entries[..0] == [];
    assert b.All()[..0] == [];
  }

  method FinishAndGet(b: TableBuilder, entries: seq<Pair>, verify: bool, hash: Bloom.Hash, bitsPerKey: nat, key: Bytes)
    returns (r: Option<Pair>)
    requires b.Valid() && Small(b, entries, |entries|) && Affordable(entries, bitsPerKey) && Pairs(b.All()) == entries && |key| >= 8
    requires b.filterBlock != null ==> b.filterBlock.bitsPerKey == bitsPerKey && b.filterBlock.hash == hash
    modifies b, b.dataBlock, b.indexBlock, b.filterBlock
    ensures r.Some? ==> FirstFrom(entries, key, r.value)
    ensures r.None? ==> forall e | FirstFrom(entries, key, e) :: UserPart(e.key) != UserPart(key)
  {
    RoomToFinish(b, entries, bitsPerKey);
    hide InternalBefore, TableBuilder.Valid, UserPart, FirstFrom, TableInv, Tables.FilterCovers, Small, Affordable, FirstAtOrAfter;
    var indexBlock, filterBlock, t := b.Finish();
    NoFilterCovers(t.blocks, hash);
    r := Tables.InternalGet(t, b.file, indexBlock, hash, filterBlock, verify, key);
    forall e ensures FirstFrom(entries, key, e) <==> FirstAtOrAfter(t.blocks, key, e) {
      FirstOfTable(t.blocks, entries, key, e);
    }
  }

  lemma NoFilterCovers(blocks: seq<Stored>, hash: Bloom.Hash)
    ensures Tables.FilterCovers(blocks, hash, None)
  {
  }

  lemma RoomToFinish(b: TableBuilder, entries: seq<Pair>, bitsPerKey: nat)
    requires Small(b, entries, |entries|) && Affordable(entries, bitsPerKey)
    requires b.filterBlock != null ==> b.filterBlock.bitsPerKey == bitsPerKey
    ensures |b.file| < FILE_LIMIT && |b.indexBlock.buffer| + |b.lastKey| + 35 < LIMIT32
    ensures b.filterBlock != null ==>
      |b.filterBlock.result| + Bloom.FilterBytes(|b.filterBlock.start|, bitsPerKey) + Bloom.FilterBytes(0, bitsPerKey) + 2 < LIMIT32
  {
    assert entries[..|entries|] == entries;
    FileFits(entries, |entries|);
    hide Weight, FilterWeight, Bloom.FilterBytes;
    if b.filterBlock != null {
      FilterRoom(|b.filterBlock.start|, |b.filterBlock.result|, |entries|, |entries|, bitsPerKey);
    }
  }
}
