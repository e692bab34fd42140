/** The physical layout of a log file: 32 KB blocks, 7-byte record headers and
    masked checksums, and what reading at a position yields. */
module LogFormat {
  import opened DbFormat
  import Crc32c
  import CrcBurst

  const BLOCK_SIZE := 32768
  const HEADER_SIZE := 7

  const ZERO_TYPE: nat := 0
  const FULL_TYPE: nat := 1
  const FIRST_TYPE: nat := 2
  const MIDDLE_TYPE: nat := 3
  const LAST_TYPE: nat := 4
  const MAX_RECORD_TYPE := LAST_TYPE
  // The reader's own codes; a record whose type byte is 5 or 6 reads as them.
  const EOF_CODE := MAX_RECORD_TYPE + 1
  const BAD_RECORD_CODE := MAX_RECORD_TYPE + 2

  // ----- Positions -----

  function BlockEnd(pos: nat): nat {
    (pos / BLOCK_SIZE + 1) * BLOCK_SIZE
  }

  function Left(pos: nat): nat {
    BlockEnd(pos) - pos
  }

  lemma LeftBounds(pos: nat)
    ensures 0 < Left(pos) <= BLOCK_SIZE
    ensures Left(pos) == BLOCK_SIZE <==> pos % BLOCK_SIZE == 0
    ensures Left(pos) == BLOCK_SIZE - pos % BLOCK_SIZE
    ensures BlockEnd(pos) == pos + Left(pos) && BlockEnd(pos) % BLOCK_SIZE == 0
    ensures Left(BlockEnd(pos)) == BLOCK_SIZE
  {
  }

  /** Where the next header goes: a block never holds a partial header. */
  function HeaderStart(pos: nat): (s: nat)
    ensures pos <= s && HEADER_SIZE <= Left(s)
  {
    LeftBounds(pos);
    if Left(pos) < HEADER_SIZE then BlockEnd(pos) else pos
  }

  function Zeros(n: nat): Bytes {
    seq(n, _ => 0 as byte)
  }

  // ----- Checksums -----

  function Bits(b: byte): bv8 {
    b as bv8
  }

  function AllBits(data: Bytes): seq<bv8> {
    seq(|data|, i requires 0 <= i < |data| => Bits(data[i]))
  }

  function EncodeCrc(x: bv32): (r: Bytes)
    ensures |r| == 4
  {
    [(x & 0xff) as byte, ((x >> 8) & 0xff) as byte, ((x >> 16) & 0xff) as byte, ((x >> 24) & 0xff) as byte]
  }

  function DecodeCrc(d: Bytes): bv32
    requires |d| == 4
  {
    (d[0] as bv32) | ((d[1] as bv32) << 8) | ((d[2] as bv32) << 16) | ((d[3] as bv32) << 24)
  }

  lemma CrcFieldRoundTrip(x: bv32)
    ensures DecodeCrc(EncodeCrc(x)) == x
  {
    ByteRoundTrip(x & 0xff);
    ByteRoundTrip((x >> 8) & 0xff);
    ByteRoundTrip((x >> 16) & 0xff);
    ByteRoundTrip((x >> 24) & 0xff);
  }

  lemma ByteRoundTrip(x: bv32)
    requires x <= 0xff
    ensures (x as byte) as bv32 == x
  {
  }

  function ValueOf(data: Bytes): bv32 {
    Crc32c.Crc(0, AllBits(data))
  }

  /** The checksum field the writer stores: the CRC of the type byte, extended
      by the payload, masked. */
  function StoredChecksum(kind: byte, payload: Bytes): (r: Bytes)
    ensures |r| == 4
  {
    EncodeCrc(Crc32c.Mask(Crc32c.Crc(ValueOf([kind]), AllBits(payload))))
  }

  /** The reader's test: `covered` is the type byte and the payload. */
  predicate ChecksumMatches(field: Bytes, covered: Bytes)
    requires |field| == 4
  {
    Crc32c.Unmask(DecodeCrc(field)) == ValueOf(covered)
  }

  lemma WriterChecksumMatches(kind: byte, payload: Bytes)
    ensures ChecksumMatches(StoredChecksum(kind, payload), [kind] + payload)
  {
    hide Crc32c.Mask, Crc32c.Unmask, Crc32c.Crc, EncodeCrc, DecodeCrc;
    Crc32c.ExtendTwice(0, AllBits([kind]), AllBits(payload));
    assert AllBits([kind] + payload) == AllBits([kind]) + AllBits(payload);
    var crc := Crc32c.Crc(ValueOf([kind]), AllBits(payload));
    Crc32c.UnmaskMask(crc);
    CrcFieldRoundTrip(Crc32c.Mask(crc));
  }

  lemma BitsKeep(x: int)
    requires 0 <= x < 256
    ensures (x as bv8) as int % 256 == x
  {
  }

  lemma BitsAreInjective(x: byte, y: byte)
    requires Bits(x) == Bits(y)
    ensures x == y
  {
    BitsKeep(x as int);
    BitsKeep(y as int);
  }

  lemma AllBitsAreInjective(a: Bytes, b: Bytes)
    requires AllBits(a) == AllBits(b)
    ensures a == b
  {
    assert |AllBits(a)| == |a| && |AllBits(b)| == |b|;
    forall i | 0 <= i < |a| ensures a[i] == b[i] {
      assert AllBits(a)[i] == Bits(a[i]) && AllBits(b)[i] == Bits(b[i]);
      BitsAreInjective(a[i], b[i]);
    }
  }

  /** What the checksum is stored for: contents damaged within 32 consecutive
      bits are refused. */
  lemma DamageIsSeen(field: Bytes, covered: Bytes, damaged: Bytes, at: nat)
    requires |field| == 4 && ChecksumMatches(field, covered)
    requires damaged != covered && CrcBurst.WithinBurst(AllBits(covered), AllBits(damaged), at)
    ensures !ChecksumMatches(field, damaged)
  {
    hide Crc32c.Crc, Crc32c.Unmask, DecodeCrc, CrcBurst.WithinBurst, AllBits;
    if AllBits(covered) == AllBits(damaged) {
      AllBitsAreInjective(covered, damaged);
    }
    CrcBurst.BurstIsDetected(0, AllBits(covered), AllBits(damaged), at);
  }

  // ----- One physical record -----

  function PhysicalRecord(kind: byte, payload: Bytes): (r: Bytes)
    requires |payload| <= 0xffff
    ensures |r| == HEADER_SIZE + |payload|
  {
    StoredChecksum(kind, payload) + [(|payload| % 256) as byte, (|payload| / 256) as byte, kind] + payload
  }

  datatype Reason =
    | BadRecordLength
    | ChecksumMismatch
    | PartialRecordWithoutEnd(which: nat)
    | MissingStart(which: nat)
    | ErrorInMiddle
    | UnknownRecordType(kind: nat)

  datatype Report = Report(bytes: nat, reason: Reason)

  /** What ReadPhysicalRecord returns: a type byte or one of the reader's two
      codes, the fragment, where it stops, and what it reported dropped. */
  datatype Physical = Physical(kind: nat, fragment: Bytes, next: nat, reports: seq<Report>)

  /** Reading at `pos` of `file` with initial offset 0 and checksums on.  The
      buffer is the rest of the 32 KB block, or of the file. */
  function PhysicalAt(file: Bytes, pos: nat): (r: Physical)
    requires pos <= |file|
    ensures pos <= r.next <= |file|
    ensures r.kind != EOF_CODE ==> pos < r.next
    decreases |file| - pos
  {
    LeftBounds(pos);
    var end := BlockEnd(pos);
    if end > |file| then InBuffer(file[pos..], pos, true)
    else if end - pos < HEADER_SIZE then PhysicalAt(file, end)
    else InBuffer(file[pos..end], pos, false)
  }

  /** The same where `buffer` is what is left at pos. */
  function InBuffer(buffer: Bytes, pos: nat, atEof: bool): (r: Physical)
    requires atEof || HEADER_SIZE <= |buffer|
    ensures pos <= r.next <= pos + |buffer|
    ensures r.kind != EOF_CODE ==> pos < r.next
  {
    var to := pos + |buffer|;
    if |buffer| < HEADER_SIZE then Physical(EOF_CODE, [], to, [])
    else
      var length := buffer[4] as nat + 256 * buffer[5] as nat;
      var kind := buffer[6] as nat;
      if HEADER_SIZE + length > |buffer| then
        if atEof then Physical(EOF_CODE, [], to, [])
        else Physical(BAD_RECORD_CODE, [], to, [Report(|buffer|, BadRecordLength)])
      else if kind == ZERO_TYPE && length == 0 then
        Physical(BAD_RECORD_CODE, [], to, [])
      else if !ChecksumMatches(buffer[..4], buffer[6..HEADER_SIZE + length]) then
        Physical(BAD_RECORD_CODE, [], to, [Report(|buffer|, ChecksumMismatch)])
      else
        Physical(kind, buffer[HEADER_SIZE..HEADER_SIZE + length], pos + HEADER_SIZE + length, [])
  }

  /** A record stands whole in one block, and its checksum matches. */
  ghost predicate Intact(file: Bytes, s: nat, kind: nat, fragment: Bytes, next: nat) {
    && s + 7 + |fragment| == next <= |file| && next <= (s / 32768 + 1) * 32768
    && file[s + 4] as nat + 256 * file[s + 5] as nat == |fragment|
    && file[s + 6] as nat == kind && file[s + 7..next] == fragment
    && ChecksumMatches(file[s..s + 4], file[s + 6..next])
  }

  lemma SliceOfSlice(file: Bytes, from: nat, to: nat, a: nat, b: nat)
    requires from <= to <= |file| && a <= b <= to - from
    ensures file[from..to][a..b] == file[from + a..from + b]
  {
    var part := file[from..to];
    assert forall i | 0 <= i < b - a :: part[a..b][i] == part[a + i] == file[from + a + i];
  }

  function BlockRest(file: Bytes, s: nat): nat {
    var end := (s / 32768 + 1) * 32768;
    if end < |file| then end else |file|
  }

  /** The length a header at s has, in bytes 4 and 5. */
  function LengthAt(file: Bytes, s: nat): nat
    requires s + 7 <= |file|
  {
    file[s + 4] as nat + 256 * file[s + 5] as nat
  }

  /** The file ends before the record at s does, and not with its block. */
  ghost predicate CutOff(file: Bytes, s: nat) {
    || |file| < s + 7
    || (|file| < (s / 32768 + 1) * 32768 && |file| < s + 7 + LengthAt(file, s))
  }

  /** Zeros that a preallocated file is filled with. */
  predicate Blank(file: Bytes, s: nat) {
    s + 7 <= |file| && LengthAt(file, s) == 0 && file[s + 6] == 0
  }

  /** The record at s cannot be right: all of what is left of its block is reported. */
  ghost predicate Refused(file: Bytes, s: nat, reports: seq<Report>) {
    && s + 7 <= |file| && !CutOff(file, s) && !Blank(file, s)
    && var end := s + 7 + LengthAt(file, s);
    if end > BlockRest(file, s) then reports == [Report(BlockRest(file, s) - s, BadRecordLength)]
    else !ChecksumMatches(file[s..s + 4], file[s + 6..end]) && reports == [Report(BlockRest(file, s) - s, ChecksumMismatch)]
  }

  ghost predicate PhysicalIs(file: Bytes, s: nat, p: Physical) {
    || (Intact(file, s, p.kind, p.fragment, p.next) && p.reports == [])
    || (p.kind == EOF_CODE && p.fragment == [] && CutOff(file, s) && p.next == |file| && p.reports == [])
    || (p.kind == BAD_RECORD_CODE && p.fragment == [] && Blank(file, s) && p.next == BlockRest(file, s) && p.reports == [])
    || (p.kind == BAD_RECORD_CODE && p.fragment == [] && Refused(file, s, p.reports) && p.next == BlockRest(file, s))
  }

  lemma Ends(file: Bytes, s: nat)
    requires s <= |file|
    ensures BlockEnd(s) == (s / 32768 + 1) * 32768 == s + Left(s) > s && s <= BlockRest(file, s)
    ensures BlockRest(file, s) == if BlockEnd(s) < |file| then BlockEnd(s) else |file|
  {
    LeftBounds(s);
  }

  lemma PhysicalHere(file: Bytes, s: nat)
    requires s <= |file| && HEADER_SIZE <= Left(s)
    ensures PhysicalIs(file, s, PhysicalAt(file, s))
  {
    hide InBuffer, PhysicalIs, BlockRest, BlockEnd;
    Ends(file, s);
    BufferIs(file, s);
    assert BlockEnd(s) > |file| ==> file[s..] == file[s..BlockRest(file, s)];
  }

  lemma BufferIs(file: Bytes, s: nat)
    requires s <= |file| && HEADER_SIZE <= Left(s)
    ensures s <= BlockRest(file, s) && (HEADER_SIZE <= BlockRest(file, s) - s || BlockEnd(s) > |file|)
    ensures PhysicalIs(file, s, InBuffer(file[s..BlockRest(file, s)], s, BlockEnd(s) > |file|))
  {
    Ends(file, s);
    hide ChecksumMatches, BlockEnd, BlockRest, Left, InBuffer, PhysicalIs;
    if HEADER_SIZE <= BlockRest(file, s) - s && HEADER_SIZE + LengthAt(file, s) <= BlockRest(file, s) - s {
      WholeIs(file, s);
    } else {
      NotWholeIs(file, s);
    }
  }

  lemma NotWholeIs(file: Bytes, s: nat)
    requires s <= BlockRest(file, s) && HEADER_SIZE <= Left(s)
    requires HEADER_SIZE <= BlockRest(file, s) - s ==> HEADER_SIZE + LengthAt(file, s) > BlockRest(file, s) - s
    requires HEADER_SIZE <= BlockRest(file, s) - s || BlockEnd(s) > |file|
    ensures PhysicalIs(file, s, InBuffer(file[s..BlockRest(file, s)], s, BlockEnd(s) > |file|))
  {
    Ends(file, s);
    hide ChecksumMatches, BlockEnd, BlockRest, Left, Intact;
    var buffer := file[s..BlockRest(file, s)];
    if HEADER_SIZE <= |buffer| {
      assert LengthAt(file, s) == buffer[4] as nat + 256 * buffer[5] as nat;
    }
  }

  lemma WholeIs(file: Bytes, s: nat)
    requires s + HEADER_SIZE <= BlockRest(file, s) && s + HEADER_SIZE + LengthAt(file, s) <= BlockRest(file, s)
    ensures PhysicalIs(file, s, InBuffer(file[s..BlockRest(file, s)], s, BlockEnd(s) > |file|))
  {
    hide *;
    RestEnds(file, s);
    var end := s + 7 + LengthAt(file, s);
    WholeBuffer(file, s, BlockRest(file, s), BlockEnd(s) > |file|);
    if Blank(file, s) {
      BlankIs(file, s);
    } else if ChecksumMatches(file[s..s + 4], file[s + 6..end]) {
      WholeIsIntact(file, s, end);
    } else {
      MismatchIs(file, s, end);
    }
  }

  lemma RestEnds(file: Bytes, s: nat)
    ensures HEADER_SIZE == 7 && BlockRest(file, s) <= |file| && BlockRest(file, s) <= (s / 32768 + 1) * 32768
  {
  }

  lemma WholeBuffer(file: Bytes, s: nat, to: nat, atEof: bool)
    requires s + HEADER_SIZE <= to <= |file| && s + HEADER_SIZE + LengthAt(file, s) <= to
    ensures var end := s + 7 + LengthAt(file, s);
      InBuffer(file[s..to], s, atEof) ==
        if Blank(file, s) then Physical(BAD_RECORD_CODE, [], to, [])
        else if !ChecksumMatches(file[s..s + 4], file[s + 6..end]) then
          Physical(BAD_RECORD_CODE, [], to, [Report(to - s, ChecksumMismatch)])
        else Physical(file[s + 6] as nat, file[s + 7..end], end, [])
  {
    hide ChecksumMatches;
    var buffer, length := file[s..to], LengthAt(file, s);
    assert buffer[4] == file[s + 4] && buffer[5] == file[s + 5] && buffer[6] == file[s + 6];
    SliceOfSlice(file, s, to, 0, 4);
    SliceOfSlice(file, s, to, 6, HEADER_SIZE + length);
    SliceOfSlice(file, s, to, HEADER_SIZE, HEADER_SIZE + length);
    assert buffer[..4] == buffer[0..4];
  }

  lemma WholeIsIntact(file: Bytes, s: nat, end: nat)
    requires s + HEADER_SIZE <= |file| && end == s + HEADER_SIZE + LengthAt(file, s) <= |file|
    requires end <= (s / 32768 + 1) * 32768 && ChecksumMatches(file[s..s + 4], file[s + 6..end])
    ensures PhysicalIs(file, s, Physical(file[s + 6] as nat, file[s + 7..end], end, []))
  {
    hide ChecksumMatches;
  }

  lemma BlankIs(file: Bytes, s: nat)
    requires Blank(file, s)
    ensures PhysicalIs(file, s, Physical(BAD_RECORD_CODE, [], BlockRest(file, s), []))
  {
    hide Blank, BlockRest;
  }

  lemma MismatchIs(file: Bytes, s: nat, end: nat)
    requires s + HEADER_SIZE <= |file| && end == s + HEADER_SIZE + LengthAt(file, s) <= BlockRest(file, s) <= |file|
    requires !Blank(file, s) && !ChecksumMatches(file[s..s + 4], file[s + 6..end])
    ensures PhysicalIs(file, s, Physical(BAD_RECORD_CODE, [], BlockRest(file, s), [Report(BlockRest(file, s) - s, ChecksumMismatch)]))
  {
    hide Blank, BlockRest, ChecksumMatches, LengthAt;
  }

  /** On any file whatever, a fragment is only returned from an intact record,
      and what is passed over is reported unless it is blank or cut off. */
  lemma PhysicalIsIntact(file: Bytes, pos: nat)
    requires pos <= |file|
    ensures PhysicalIs(file, HeaderStart(pos), PhysicalAt(file, pos))
  {
    var s := HeaderStart(pos);
    LeftBounds(pos);
    if s > |file| {
      assert PhysicalAt(file, pos) == Physical(EOF_CODE, [], |file|, []);
    } else {
      assert PhysicalAt(file, pos) == PhysicalAt(file, s);
      hide *;
      PhysicalHere(file, s);
    }
  }

  /** A record whose type or payload was damaged is refused and reported, with
      all that is left of its block. */
  lemma DamageIsReported(file: Bytes, pos: nat, s: nat, end: nat, covered: Bytes, at: nat)
    requires pos <= |file| && s == HeaderStart(pos) && s + 7 <= end <= BlockRest(file, s) <= |file|
    requires end == s + 7 + LengthAt(file, s) && !Blank(file, s)
    requires ChecksumMatches(file[s..s + 4], covered) && file[s + 6..end] != covered
    requires CrcBurst.WithinBurst(AllBits(covered), AllBits(file[s + 6..end]), at)
    ensures PhysicalAt(file, pos) == Physical(BAD_RECORD_CODE, [], BlockRest(file, s), [Report(BlockRest(file, s) - s, ChecksumMismatch)])
  {
    hide *;
    PhysicalIsIntact(file, pos);
    DamageIsSeen(file[s..s + 4], covered, file[s + 6..end], at);
    RestEnds(file, s);
    MustBeRefused(file, s, end, PhysicalAt(file, pos));
  }

  lemma MustBeRefused(file: Bytes, s: nat, end: nat, p: Physical)
    requires s + 7 <= end <= BlockRest(file, s) <= |file| && end == s + 7 + LengthAt(file, s)
    requires PhysicalIs(file, s, p) && !Blank(file, s) && !ChecksumMatches(file[s..s + 4], file[s + 6..end])
    requires BlockRest(file, s) <= (s / 32768 + 1) * 32768
    ensures p == Physical(BAD_RECORD_CODE, [], BlockRest(file, s), [Report(BlockRest(file, s) - s, ChecksumMismatch)])
  {
    hide ChecksumMatches, BlockRest, Blank;
  }

  /** The bytes from `pos` to the end of one record written there. */
  function Placed(pos: nat, kind: byte, payload: Bytes): Bytes
    requires |payload| <= Left(HeaderStart(pos)) - HEADER_SIZE
  {
    LeftBounds(HeaderStart(pos));
    Zeros(HeaderStart(pos) - pos) + PhysicalRecord(kind, payload)
  }

  lemma TrailerIsSkipped(file: Bytes, pos: nat)
    requires pos <= HeaderStart(pos) <= |file|
    ensures PhysicalAt(file, pos) == PhysicalAt(file, HeaderStart(pos))
  {
    hide ChecksumMatches;
    LeftBounds(pos);
  }

  lemma HeaderFields(kind: byte, payload: Bytes)
    requires |payload| <= 0xffff
    ensures var r := PhysicalRecord(kind, payload);
      && r[..4] == StoredChecksum(kind, payload)
      && r[4] as nat + 256 * r[5] as nat == |payload|
      && r[6] == kind && r[6..] == [kind] + payload && r[HEADER_SIZE..] == payload
  {
    hide StoredChecksum;
  }

  /** A record that is there whole reads back. */
  lemma PlacedReads(file: Bytes, pos: nat, kind: byte, payload: Bytes)
    requires pos <= |file|
    requires |payload| <= Left(HeaderStart(pos)) - HEADER_SIZE
    requires kind != ZERO_TYPE as byte
    requires Placed(pos, kind, payload) <= file[pos..]
    ensures PhysicalAt(file, pos) == Physical(kind as nat, payload, pos + |Placed(pos, kind, payload)|, [])
  {
    hide PhysicalAt, PhysicalRecord;
    var s, whole := HeaderStart(pos), Placed(pos, kind, payload);
    LeftBounds(s);
    TrailerIsSkipped(file, pos);
    assert file[s..s + HEADER_SIZE + |payload|] == PhysicalRecord(kind, payload) by {
      assert file[pos..][..|whole|] == whole;
      assert file[s..s + HEADER_SIZE + |payload|] == whole[s - pos..];
    }
    HeaderReads(file, s, kind, payload);
  }

  lemma HeaderReads(file: Bytes, s: nat, kind: byte, payload: Bytes)
    requires s + HEADER_SIZE + |payload| <= |file|
    requires HEADER_SIZE + |payload| <= Left(s)
    requires |payload| <= 0xffff
    requires kind != ZERO_TYPE as byte
    requires file[s..s + HEADER_SIZE + |payload|] == PhysicalRecord(kind, payload)
    ensures PhysicalAt(file, s) == Physical(kind as nat, payload, s + HEADER_SIZE + |payload|, [])
  {
    hide ChecksumMatches, StoredChecksum, PhysicalRecord;
    LeftBounds(s);
    HeaderFields(kind, payload);
    WriterChecksumMatches(kind, payload);
    var end := BlockEnd(s);
    var buffer := if end > |file| then file[s..] else file[s..end];
    var n := HEADER_SIZE + |payload|;
    var r := PhysicalRecord(kind, payload);
    assert buffer[..n] == r;
    assert buffer[4] == r[4] && buffer[5] == r[5] && buffer[6] == r[6];
    assert buffer[..4] == r[..4] && buffer[6..n] == r[6..] && buffer[HEADER_SIZE..n] == r[HEADER_SIZE..];
  }

  /** A record cut short by the end of the file reads as the end of the file,
      and nothing is reported. */
  lemma PlacedCut(file: Bytes, pos: nat, kind: byte, payload: Bytes)
    requires pos <= |file|
    requires |payload| <= Left(HeaderStart(pos)) - HEADER_SIZE
    requires |file| - pos < |Placed(pos, kind, payload)|
    requires file[pos..] <= Placed(pos, kind, payload)
    ensures PhysicalAt(file, pos) == Physical(EOF_CODE, [], |file|, [])
  {
    hide PhysicalRecord, PhysicalAt;
    var s, whole := HeaderStart(pos), Placed(pos, kind, payload);
    LeftBounds(s);
    if s <= |file| {
      TrailerIsSkipped(file, pos);
      assert file[s..] == PhysicalRecord(kind, payload)[..|file| - s] by {
        assert file[s..] == file[pos..][s - pos..];
        assert file[pos..] == whole[..|file| - pos];
      }
      HeaderCut(file, s, kind, payload);
    } else {
      InsideTrailer(file, pos);
    }
  }

  lemma InsideTrailer(file: Bytes, pos: nat)
    requires pos <= |file| < HeaderStart(pos)
    ensures PhysicalAt(file, pos) == Physical(EOF_CODE, [], |file|, [])
  {
    LeftBounds(pos);
  }

  lemma HeaderCut(file: Bytes, s: nat, kind: byte, payload: Bytes)
    requires s <= |file| < s + HEADER_SIZE + |payload|
    requires HEADER_SIZE + |payload| <= Left(s)
    requires |payload| <= 0xffff
    requires file[s..] == PhysicalRecord(kind, payload)[..|file| - s]
    ensures PhysicalAt(file, s) == Physical(EOF_CODE, [], |file|, [])
  {
    hide ChecksumMatches, StoredChecksum, PhysicalRecord;
    LeftBounds(s);
    HeaderFields(kind, payload);
    var buffer, r := file[s..], PhysicalRecord(kind, payload);
    if |buffer| >= HEADER_SIZE {
      assert buffer[4] == r[4] && buffer[5] == r[5];
    }
  }
}
