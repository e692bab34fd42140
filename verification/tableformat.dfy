/** Blocks in a table file: handles, trailers, and what a finished table is. */
module TableFormat {
  import opened DbFormat
  import opened Coding
  import opened Comparator
  import opened BlockFormat
  import opened BlockBuilders
  import Crc32c
  import CrcBurst
  import LogFormat

  // ----- Block handles -----

  function HandleBytes(offset: nat, size: nat): Bytes {
    Varint(offset) + Varint(size)
  }

  /** BlockHandle::DecodeFrom; extra bytes at the end are allowed. */
  function DecodeHandle(s: Bytes): Option<(nat, nat)> {
    var a := GetVarint(s, 10);
    if a.None? then None
    else
      var b := GetVarint(s[a.value.1..], 10);
      if b.None? then None else Some((a.value.0 % LIMIT64, b.value.0 % LIMIT64))
  }

  lemma HandleRoundTrip(offset: nat, size: nat, rest: Bytes)
    requires offset < LIMIT64 && size < LIMIT64
    ensures DecodeHandle(HandleBytes(offset, size) + rest) == Some((offset, size))
  {
    hide Varint, GetVarint;
    Sizes();
    VarintLength(offset, 10);
    VarintLength(size, 10);
    assert HandleBytes(offset, size) + rest == Varint(offset) + (Varint(size) + rest);
    VarintRoundTrip(offset, Varint(size) + rest, 10);
    assert (Varint(offset) + (Varint(size) + rest))[|Varint(offset)|..] == Varint(size) + rest;
    VarintRoundTrip(size, rest, 10);
  }

  lemma HandleOfBytes()
    ensures HandleBytes(300, 5) == [0xAC, 0x02, 5] && RawBlock([7])[..2] == [7, 0]
  {
    SomeBytes();
    VarintOfByte(5);
    hide BlockChecksum;
  }

  lemma HandleSize(offset: nat, size: nat)
    requires offset < LIMIT64 && size < LIMIT64
    ensures |HandleBytes(offset, size)| <= 20
  {
    hide Varint;
    Sizes();
    VarintLength(offset, 10);
    VarintLength(size, 10);
  }

  // ----- Blocks with their trailers -----

  const TRAILER_SIZE := 5
  const NO_COMPRESSION: byte := 0

  /** The checksum covers the contents and the compression type. */
  function BlockChecksum(contents: Bytes, kind: byte): (r: Bytes)
    ensures |r| == 4
  {
    LogFormat.EncodeCrc(Crc32c.Mask(Crc32c.Crc(LogFormat.ValueOf(contents), LogFormat.AllBits([kind]))))
  }

  function RawBlock(contents: Bytes): (r: Bytes)
    ensures |r| == |contents| + TRAILER_SIZE
  {
    contents + [NO_COMPRESSION] + BlockChecksum(contents, NO_COMPRESSION)
  }

  /** ReadBlock; `verify` is verify_checksums.  A block of any other type than
      an uncompressed one reads as an error. */
  function ReadBlock(file: Bytes, offset: nat, size: nat, verify: bool): Option<Bytes> {
    if offset + size + TRAILER_SIZE > |file| then None
    else if verify && !LogFormat.ChecksumMatches(file[offset + size + 1..offset + size + 5], file[offset..offset + size + 1]) then None
    else if file[offset + size] != NO_COMPRESSION then None
    else Some(file[offset..offset + size])
  }

  /** A block that was written reads back, with or without verification, and
      whatever is appended to the file later. */
  lemma BlockReads(before: Bytes, contents: Bytes, after: Bytes, verify: bool)
    ensures ReadBlock((before + RawBlock(contents)) + after, |before|, |contents|, verify) == Some(contents)
  {
    hide LogFormat.ChecksumMatches, BlockChecksum;
    var file := (before + RawBlock(contents)) + after;
    var o, n := |before|, |contents|;
    assert file[o..o + n] == contents;
    assert file[o..o + n + 1] == contents + [NO_COMPRESSION];
    assert file[o + n + 1..o + n + 5] == BlockChecksum(contents, NO_COMPRESSION);
    BlockChecksumMatches(contents, NO_COMPRESSION);
  }

  lemma BlockChecksumMatches(contents: Bytes, kind: byte)
    ensures LogFormat.ChecksumMatches(BlockChecksum(contents, kind), contents + [kind])
  {
    hide Crc32c.Mask, Crc32c.Unmask, Crc32c.Crc, LogFormat.EncodeCrc, LogFormat.DecodeCrc;
    Crc32c.ExtendTwice(0, LogFormat.AllBits(contents), LogFormat.AllBits([kind]));
    assert LogFormat.AllBits(contents + [kind]) == LogFormat.AllBits(contents) + LogFormat.AllBits([kind]);
    var crc := Crc32c.Crc(LogFormat.ValueOf(contents), LogFormat.AllBits([kind]));
    Crc32c.UnmaskMask(crc);
    LogFormat.CrcFieldRoundTrip(Crc32c.Mask(crc));
  }

  /** With verification a block that was damaged does not read. */
  lemma DamagedBlockIsRefused(file: Bytes, offset: nat, contents: Bytes, at: nat)
    requires offset + |contents| + TRAILER_SIZE <= |file|
    requires file[offset + |contents| + 1..offset + |contents| + 5] == BlockChecksum(contents, NO_COMPRESSION)
    requires var stored := file[offset..offset + |contents| + 1];
      && stored != contents + [NO_COMPRESSION]
      && CrcBurst.WithinBurst(LogFormat.AllBits(contents + [NO_COMPRESSION]), LogFormat.AllBits(stored), at)
    ensures ReadBlock(file, offset, |contents|, true) == None
  {
    hide LogFormat.ChecksumMatches, BlockChecksum, LogFormat.AllBits, CrcBurst.WithinBurst;
    BlockChecksumMatches(contents, NO_COMPRESSION);
    LogFormat.DamageIsSeen(BlockChecksum(contents, NO_COMPRESSION), contents + [NO_COMPRESSION],
                           file[offset..offset + |contents| + 1], at);
  }

  // ----- A table -----

  /** A finished block with what it was made of. */
  datatype Stored = Stored(offset: nat, buffer: Bytes, restarts: seq<nat>, layout: Layout)

  ghost predicate IsBlock(b: Stored) {
    && Bounded(b.restarts) && Laid(b.buffer, b.restarts, b.layout)
    && b.offset < LIMIT64 && |BlockBytes(b.buffer, b.restarts)| < LIMIT64
  }

  ghost function BytesOf(b: Stored): Bytes
    requires IsBlock(b)
  {
    BlockBytes(b.buffer, b.restarts)
  }

  ghost predicate StoredIn(file: Bytes, b: Stored) {
    IsBlock(b) && forall verify :: ReadBlock(file, b.offset, |BytesOf(b)|, verify) == Some(BytesOf(b))
  }

  ghost function KeyAt(b: Stored, p: nat): Bytes
    requires p < |b.layout.entries|
  {
    b.layout.entries[p].key
  }

  /** Keys ascend within each block and from block to block. */
  ghost predicate BlocksAscend(blocks: seq<Stored>) {
    && (forall i, p, q | 0 <= i < |blocks| && 0 <= p < q < |blocks[i].layout.entries| ::
          InternalBefore(KeyAt(blocks[i], p), KeyAt(blocks[i], q)))
    && forall i, j, p, q | 0 <= i < j < |blocks| && 0 <= p < |blocks[i].layout.entries| && 0 <= q < |blocks[j].layout.entries| ::
         InternalBefore(KeyAt(blocks[i], p), KeyAt(blocks[j], q))
  }

  /** A separator of block i: at or above its keys, below those of later blocks.
      Unless it is the last key itself, no later key has its user key. */
  ghost predicate Separates(blocks: seq<Stored>, i: nat, sep: Bytes)
    requires i < |blocks|
  {
    var n := |blocks[i].layout.entries|;
    && n > 0 && |sep| >= 8
    && (forall p | 0 <= p < n :: !InternalBefore(sep, KeyAt(blocks[i], p)))
    && (forall j, q | i < j < |blocks| && 0 <= q < |blocks[j].layout.entries| ::
          && InternalBefore(sep, KeyAt(blocks[j], q))
          && (sep == KeyAt(blocks[i], n - 1) || UserPart(sep) != UserPart(KeyAt(blocks[j], q))))
  }

  datatype Table = Table(file: Bytes, index: Stored, blocks: seq<Stored>)

  ghost predicate TableInv(t: Table) {
    && IsBlock(t.index)
    && |t.index.layout.entries| == |t.blocks|
    && BlocksAscend(t.blocks)
    && (forall i | 0 <= i < |t.blocks| :: StoredIn(t.file, t.blocks[i]))
    && (forall i, p | 0 <= i < |t.blocks| && 0 <= p < |t.blocks[i].layout.entries| :: |KeyAt(t.blocks[i], p)| >= 8)
    && forall i | 0 <= i < |t.blocks| ::
         && t.index.layout.entries[i].value == HandleBytes(t.blocks[i].offset, |BytesOf(t.blocks[i])|)
         && Separates(t.blocks, i, t.index.layout.entries[i].key)
  }

  // ----- Looking a key up -----

  ghost predicate InTable(blocks: seq<Stored>, e: Pair) {
    exists i | 0 <= i < |blocks| :: e in blocks[i].layout.entries
  }

  /** e is the first entry of the table at or after k. */
  ghost predicate FirstAtOrAfter(blocks: seq<Stored>, k: Bytes, e: Pair) {
    && InTable(blocks, e) && !InternalBefore(e.key, k)
    && forall o | InTable(blocks, o) && !InternalBefore(o.key, k) :: !InternalBefore(o.key, e.key)
  }
}
