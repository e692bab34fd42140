/** Table::InternalGet: a key through the index, the filter and one block. */
module Tables {
  import opened DbFormat
  import opened Coding
  import opened Comparator
  import opened BlockBuilders
  import opened BlockFormat
  import opened TableFormat
  import Block
  import Bloom
  import FilterBlock

  /** The filter misses no key of the table at the offset of its block. */
  ghost predicate FilterCovers(blocks: seq<Stored>, hash: Bloom.Hash, filter: Option<Bytes>) {
    filter.Some? ==>
      forall i, p, k | 0 <= i < |blocks| && 0 <= p < |blocks[i].layout.entries| && UserPart(k) == UserPart(KeyAt(blocks[i], p)) ::
        FilterBlock.KeyMayMatchBlock(hash, filter.value, blocks[i].offset, k)
  }

  // ----- Where the search in the index leads -----

  /** i is the first index entry at or after k. */
  ghost predicate IndexAt(t: Table, k: Bytes, i: nat)
    requires TableInv(t)
  {
    && i <= |t.blocks|
    && (forall j | 0 <= j < i :: InternalBefore(t.index.layout.entries[j].key, k))
    && (i < |t.blocks| ==> !InternalBefore(t.index.layout.entries[i].key, k))
  }

  /** j is the first entry of block i at or after k. */
  ghost predicate BlockAt(t: Table, k: Bytes, i: nat, j: nat)
    requires i < |t.blocks|
  {
    var es := t.blocks[i].layout.entries;
    && j <= |es|
    && (forall q | 0 <= q < j :: InternalBefore(es[q].key, k))
    && (j < |es| ==> !InternalBefore(es[j].key, k))
  }

  lemma Transitive(a: Bytes, b: Bytes, c: Bytes)
    ensures InternalBefore(a, b) && InternalBefore(b, c) ==> InternalBefore(a, c)
    ensures !InternalBefore(a, b) && !InternalBefore(b, c) ==> !InternalBefore(a, c)
    ensures !InternalBefore(b, a) && InternalBefore(b, c) ==> InternalBefore(a, c)
    ensures InternalBefore(a, b) && !InternalBefore(c, b) ==> InternalBefore(a, c)
  {
    hide Before, DecodeFixed64;
    InternalTransitive(a, b, c);
    InternalTransitive(b, a, c);
    InternalTransitive(b, c, a);
    InternalTransitive(a, c, b);
    InternalTransitive(c, b, a);
    InternalTransitive(c, a, b);
    InternalTotal(a, b, c);
  }

  lemma InternalTotal(a: Bytes, b: Bytes, c: Bytes)
    ensures !(InternalBefore(a, b) && InternalBefore(b, a))
    ensures !(InternalBefore(b, c) && InternalBefore(c, b))
    ensures !(InternalBefore(a, c) && InternalBefore(c, a))
  {
    hide Before, DecodeFixed64;
    BytewiseOrder();
    InternalTransitive(a, b, a);
    InternalTransitive(b, c, b);
    InternalTransitive(a, c, a);
  }

  /** Everything in blocks before the index position is before k. */
  lemma EarlierBlocks(t: Table, k: Bytes, i: nat, b: nat, q: nat)
    requires TableInv(t) && IndexAt(t, k, i) && b < i && q < |t.blocks[b].layout.entries|
    ensures InternalBefore(KeyAt(t.blocks[b], q), k)
  {
    hide InternalBefore, BlocksAscend, StoredIn, IsBlock;
    assert Separates(t.blocks, b, t.index.layout.entries[b].key);
    Transitive(KeyAt(t.blocks[b], q), t.index.layout.entries[b].key, k);
  }

  /** The entry found in the block is the first of the table at or after k. */
  lemma FoundIsFirst(t: Table, k: Bytes, i: nat, j: nat)
    requires TableInv(t) && IndexAt(t, k, i) && i < |t.blocks|
    requires BlockAt(t, k, i, j) && j < |t.blocks[i].layout.entries|
    ensures FirstAtOrAfter(t.blocks, k, t.blocks[i].layout.entries[j])
  {
    hide InternalBefore, StoredIn, IsBlock, Separates;
    var e := t.blocks[i].layout.entries[j];
    assert InTable(t.blocks, e);
    forall o | InTable(t.blocks, o) && !InternalBefore(o.key, k) ensures !InternalBefore(o.key, e.key) {
      var b :| 0 <= b < |t.blocks| && o in t.blocks[b].layout.entries;
      var q :| 0 <= q < |t.blocks[b].layout.entries| && t.blocks[b].layout.entries[q] == o;
      assert o.key == KeyAt(t.blocks[b], q) && e.key == KeyAt(t.blocks[i], j);
      if b < i {
        EarlierBlocks(t, k, i, b, q);
      } else if b > i || q > j {
        assert InternalBefore(KeyAt(t.blocks[i], j), KeyAt(t.blocks[b], q));
        Transitive(e.key, o.key, e.key);
        NotBothWays(e.key, o.key);
      } else if q == j {
        NotBothWays(e.key, e.key);
      }
    }
  }

  lemma NotBothWays(a: Bytes, b: Bytes)
    ensures !(InternalBefore(a, b) && InternalBefore(b, a))
  {
    hide Before, DecodeFixed64;
    InternalTotal(a, b, a);
  }

  /** With nothing at or after k in its block, k's user key comes no more. */
  lemma NothingLater(t: Table, k: Bytes, i: nat, b: nat, q: nat)
    requires TableInv(t) && IndexAt(t, k, i) && i < b < |t.blocks| && q < |t.blocks[b].layout.entries|
    requires BlockAt(t, k, i, |t.blocks[i].layout.entries|) && |k| >= 8
    ensures UserPart(KeyAt(t.blocks[b], q)) != UserPart(k)
  {
    hide InternalBefore, StoredIn, IsBlock, BlocksAscend;
    var sep := t.index.layout.entries[i].key;
    var n := |t.blocks[i].layout.entries|;
    assert Separates(t.blocks, i, sep);
    assert InternalBefore(KeyAt(t.blocks[i], n - 1), k);
    assert sep != KeyAt(t.blocks[i], n - 1);
    SameUserBetween(k, sep, KeyAt(t.blocks[b], q));
  }

  /** A key between two keys of one user key has that user key. */
  lemma SameUserBetween(a: Bytes, b: Bytes, c: Bytes)
    requires |a| >= 8 && |b| >= 8 && |c| >= 8
    requires !InternalBefore(b, a) && InternalBefore(b, c)
    ensures UserPart(a) == UserPart(c) ==> UserPart(b) == UserPart(c)
  {
    hide DecodeFixed64;
    EmbedInOrder(UserPart(a), UserPart(b));
    EmbedInOrder(UserPart(b), UserPart(a));
    EmbedInOrder(UserPart(b), UserPart(c));
  }

  /** What InternalGet reports is right: the first entry at or after k, and it is
      reported whenever it has k's user key. */
  ghost predicate Answers(t: Table, k: Bytes, r: Option<Pair>) {
    && (r.Some? ==> FirstAtOrAfter(t.blocks, k, r.value))
    && (r.None? ==> forall e | FirstAtOrAfter(t.blocks, k, e) :: UserPart(e.key) != UserPart(k))
  }

  lemma NothingAnswers(t: Table, k: Bytes, i: nat)
    requires TableInv(t) && IndexAt(t, k, i) && |k| >= 8
    requires i == |t.blocks| || BlockAt(t, k, i, |t.blocks[i].layout.entries|) || NoUserKey(t, i, k)
    ensures Answers(t, k, None)
  {
    hide InternalBefore, StoredIn, IsBlock, Separates, BlocksAscend;
    forall e | FirstAtOrAfter(t.blocks, k, e) ensures UserPart(e.key) != UserPart(k) {
      var b :| 0 <= b < |t.blocks| && e in t.blocks[b].layout.entries;
      var q :| 0 <= q < |t.blocks[b].layout.entries| && t.blocks[b].layout.entries[q] == e;
      assert e.key == KeyAt(t.blocks[b], q);
      if b < i {
        EarlierBlocks(t, k, i, b, q);
      } else if b > i {
        if BlockAt(t, k, i, |t.blocks[i].layout.entries|) {
          NothingLater(t, k, i, b, q);
        } else {
          NotTheFirst(t, k, i, b, q);
        }
      }
    }
  }

  ghost predicate NoUserKey(t: Table, i: nat, k: Bytes)
    requires i < |t.blocks|
  {
    forall p | 0 <= p < |t.blocks[i].layout.entries| :: UserPart(KeyAt(t.blocks[i], p)) != UserPart(k)
  }

  /** If block i has an entry at or after k, the first one is not later. */
  lemma NotTheFirst(t: Table, k: Bytes, i: nat, b: nat, q: nat)
    requires TableInv(t) && IndexAt(t, k, i) && i < b < |t.blocks| && q < |t.blocks[b].layout.entries|
    requires !BlockAt(t, k, i, |t.blocks[i].layout.entries|)
    ensures !FirstAtOrAfter(t.blocks, k, t.blocks[b].layout.entries[q])
  {
    hide InternalBefore, StoredIn, IsBlock, Separates;
    var es := t.blocks[i].layout.entries;
    var p :| 0 <= p < |es| && !InternalBefore(es[p].key, k);
    assert InTable(t.blocks, es[p]);
    assert InternalBefore(KeyAt(t.blocks[i], p), KeyAt(t.blocks[b], q));
  }

  lemma IndexIsAscending(t: Table)
    requires TableInv(t)
    ensures Block.KeysAscend(t.index.layout.entries, InternalBefore)
  {
    hide InternalBefore, StoredIn, IsBlock, BlocksAscend;
    var es := t.index.layout.entries;
    forall i, j | 0 <= i < j < |es| ensures InternalBefore(es[i].key, es[j].key) {
      assert Separates(t.blocks, i, es[i].key);
      assert Separates(t.blocks, j, es[j].key);
      Transitive(es[i].key, KeyAt(t.blocks[j], 0), es[j].key);
    }
  }

  lemma BlockIsAscending(t: Table, i: nat)
    requires TableInv(t) && i < |t.blocks|
    ensures Block.KeysAscend(t.blocks[i].layout.entries, InternalBefore)
    ensures StoredIn(t.file, t.blocks[i])
    ensures t.index.layout.entries[i].value == HandleBytes(t.blocks[i].offset, |BytesOf(t.blocks[i])|)
    ensures Separates(t.blocks, i, t.index.layout.entries[i].key)
  {
    hide InternalBefore, IsBlock, Separates;
    var es := t.blocks[i].layout.entries;
    forall p, q | 0 <= p < q < |es| ensures InternalBefore(es[p].key, es[q].key) {
      assert InternalBefore(KeyAt(t.blocks[i], p), KeyAt(t.blocks[i], q));
    }
  }

  lemma FilterMeansAbsent(t: Table, hash: Bloom.Hash, filter: Option<Bytes>, i: nat, k: Bytes)
    requires FilterCovers(t.blocks, hash, filter) && filter.Some? && i < |t.blocks|
    requires !FilterBlock.KeyMayMatchBlock(hash, filter.value, t.blocks[i].offset, k)
    ensures NoUserKey(t, i, k)
  {
    hide FilterBlock.KeyMayMatchBlock, UserPart;
  }

  /** Looks k up.  `t` is the table that the file and the index block hold. */
  method InternalGet(ghost t: Table, file: Bytes, indexBlock: Bytes, hash: Bloom.Hash, filter: Option<Bytes>, verify: bool, k: Bytes)
    returns (r: Option<Pair>)
    requires TableInv(t) && file == t.file && indexBlock == BytesOf(t.index)
    requires FilterCovers(t.blocks, hash, filter)
    requires |k| >= 8
    ensures Answers(t, k, r)
  {
    hide TableInv, FilterCovers, Answers, FirstAtOrAfter, InternalBefore, FilterBlock.KeyMayMatchBlock, ReadBlock,
         Separates, Block.KeysAscend, BlocksAscend, BytesOf, Laid, Bounded, DecodeHandle, HandleBytes;
    TableParts(t);
    InternalOrder();
    IndexIsAscending(t);
    var iiter := new Block.Iter(indexBlock, InternalBefore, t.index.buffer, t.index.restarts, t.index.layout);
    ghost var i := iiter.Seek(k);
    iiter.ValidMeans(i);
    if !iiter.Valid() {
      NothingAnswers(t, k, i);
      return None;
    }
    BlockIsAscending(t, i);
    ghost var b := t.blocks[i];
    var handleValue := iiter.data[iiter.valueAt..iiter.valueAt + iiter.valueLength];
    HandleReads(b);
    var handle := DecodeHandle(handleValue);
    if filter.Some? && handle.Some? && !FilterBlock.KeyMayMatchBlock(hash, filter.value, handle.value.0, k) {
      // Not found.
      FilterMeansAbsent(t, hash, filter, i, k);
      NothingAnswers(t, k, i);
      return None;
    }
    var contents := ReadBlock(file, handle.value.0, handle.value.1, verify);
    var blockIter := new Block.Iter(contents.value, InternalBefore, b.buffer, b.restarts, b.layout);
    ghost var j := blockIter.Seek(k);
    blockIter.ValidMeans(j);
    if blockIter.Valid() {
      FoundIsFirst(t, k, i, j);
      r := Some(Pair(blockIter.key, blockIter.data[blockIter.valueAt..blockIter.valueAt + blockIter.valueLength]));
      FoundAnswers(t, k, r);
    } else {
      NothingAnswers(t, k, i);
      return None;
    }
  }

  lemma TableParts(t: Table)
    requires TableInv(t)
    ensures IsBlock(t.index) && |t.index.layout.entries| == |t.blocks|
    ensures BytesOf(t.index) == BlockBytes(t.index.buffer, t.index.restarts)
  {
    hide IsBlock;
  }

  lemma HandleReads(b: Stored)
    requires IsBlock(b)
    ensures DecodeHandle(HandleBytes(b.offset, |BytesOf(b)|)) == Some((b.offset, |BytesOf(b)|))
    ensures BytesOf(b) == BlockBytes(b.buffer, b.restarts)
  {
    hide Laid, Bounded;
    HandleRoundTrip(b.offset, |BytesOf(b)|, []);
    assert HandleBytes(b.offset, |BytesOf(b)|) + [] == HandleBytes(b.offset, |BytesOf(b)|);
  }

  lemma FoundAnswers(t: Table, k: Bytes, r: Option<Pair>)
    requires r.Some? && FirstAtOrAfter(t.blocks, k, r.value)
    ensures Answers(t, k, r)
  {
  }
}
