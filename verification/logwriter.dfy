/** log::Writer: a record is cut into fragments that never cross a block. */
module LogWriter {
  import opened DbFormat
  import opened LogFormat
  import Crc32c

  function TypeOf(begin: bool, end: bool): byte {
    if begin && end then FULL_TYPE as byte
    else if begin then FIRST_TYPE as byte
    else if end then LAST_TYPE as byte
    else MIDDLE_TYPE as byte
  }

  /** How much of `left` bytes the next fragment holds. */
  function FragmentLength(pos: nat, left: nat): (n: nat)
    ensures n <= left && n <= Left(HeaderStart(pos)) - HEADER_SIZE
  {
    var avail := Left(HeaderStart(pos)) - HEADER_SIZE;
    if left < avail then left else avail
  }

  /** The position after a fragment of n bytes. */
  function After(pos: nat, n: nat): nat {
    HeaderStart(pos) + HEADER_SIZE + n
  }

  /** An empty fragment of a non-empty rest ends its block, so the next one is
      not empty. */
  lemma EmptyFragment(pos: nat, left: nat)
    requires 0 < left && FragmentLength(pos, left) == 0
    ensures Left(HeaderStart(pos)) == HEADER_SIZE
    ensures Left(HeaderStart(After(pos, 0))) == BLOCK_SIZE
  {
    var s := HeaderStart(pos);
    LeftBounds(s);
    LeftBounds(BlockEnd(s));
  }

  function Stuck(pos: nat): nat {
    if Left(HeaderStart(pos)) == HEADER_SIZE then 1 else 0
  }

  /** The bytes AddRecord appends at position `pos` for the rest of a record. */
  function Fragmented(pos: nat, data: Bytes, begin: bool): (r: Bytes)
    ensures |r| >= HEADER_SIZE
    decreases |data|, Stuck(pos)
  {
    var n := FragmentLength(pos, |data|);
    var first := Placed(pos, TypeOf(begin, n == |data|), data[..n]);
    if n == |data| then first
    else
      if n == 0 then EmptyFragment(pos, |data|); first + Fragmented(After(pos, n), data, false)
      else first + Fragmented(After(pos, n), data[n..], false)
  }

  lemma FragmentedStep(pos: nat, data: Bytes, begin: bool)
    ensures var n := FragmentLength(pos, |data|);
      Fragmented(pos, data, begin)
        == Placed(pos, TypeOf(begin, n == |data|), data[..n])
         + if n == |data| then [] else Fragmented(After(pos, n), data[n..], false)
    ensures var n := FragmentLength(pos, |data|);
      n != |data| ==> n > 0 || Stuck(pos) > Stuck(After(pos, n))
  {
    hide Placed;
    var n := FragmentLength(pos, |data|);
    if n == 0 && 0 < |data| {
      EmptyFragment(pos, |data|);
      assert data[0..] == data;
    }
  }

  /** Nothing is wasted: at most six bytes are skipped before a header, and a
      fragment that is not the last of its record ends its 32 KB block. */
  lemma NoWaste(pos: nat, left: nat)
    ensures HeaderStart(pos) < pos + 7 && (HeaderStart(pos) != pos ==> HeaderStart(pos) % 32768 == 0)
    ensures FragmentLength(pos, left) < left ==> After(pos, FragmentLength(pos, left)) % 32768 == 0
    ensures HeaderStart(pos) / 32768 == (After(pos, FragmentLength(pos, left)) - 1) / 32768
  {
    LeftBounds(pos);
    LeftBounds(HeaderStart(pos));
  }

  /** A record of one byte, and the types of the fragments. */
  lemma RecordBytes()
    ensures Fragmented(0, [0x61], true)[4..] == [1, 0, 1, 0x61]
    ensures TypeOf(true, true) == 1 && TypeOf(true, false) == 2 && TypeOf(false, false) == 3 && TypeOf(false, true) == 4
  {
    hide StoredChecksum;
    LeftBounds(0);
    assert HeaderStart(0) == 0 && Zeros(0) == [];
    var data: Bytes := [0x61];
    assert FragmentLength(0, 1) == 1 && data[..1] == data;
    assert Placed(0, 1, data) == [] + PhysicalRecord(1, data);
    assert Fragmented(0, data, true) == PhysicalRecord(1, data);
  }

  /** What AddRecord's loop has still to append. */
  function Remaining(pos: nat, rest: Bytes, begin: bool): Bytes {
    if begin || |rest| > 0 then Fragmented(pos, rest, begin) else []
  }

  /** One turn of AddRecord's loop moves one fragment from what is still to be
      appended to the file. */
  lemma LoopStep(dest: Bytes, rest: Bytes, begin: bool)
    requires begin || |rest| > 0
    ensures var pos := |dest|;
      var n := FragmentLength(pos, |rest|);
      var kind := TypeOf(begin, n == |rest|);
      && n <= 0xffff
      && dest + Remaining(pos, rest, begin)
      == ((dest + Zeros(HeaderStart(pos) - pos)) + PhysicalRecord(kind, rest[..n])) + Remaining(After(pos, n), rest[n..], false)
  {
    hide *;
    var pos := |dest|;
    var n := FragmentLength(pos, |rest|);
    var kind := TypeOf(begin, n == |rest|);
    FragmentedStep(pos, rest, begin);
    PlacedParts(pos, kind, rest[..n]);
    RemainingCases(pos, rest, begin);
    RemainingCases(After(pos, n), rest[n..], false);
    Reassociate(dest, Zeros(HeaderStart(pos) - pos), PhysicalRecord(kind, rest[..n]), Remaining(After(pos, n), rest[n..], false));
  }

  lemma RemainingCases(pos: nat, rest: Bytes, begin: bool)
    ensures begin || |rest| > 0 ==> Remaining(pos, rest, begin) == Fragmented(pos, rest, begin)
    ensures !begin && |rest| == 0 ==> Remaining(pos, rest, begin) == []
  {
  }

  lemma Reassociate(a: Bytes, b: Bytes, c: Bytes, d: Bytes)
    ensures a + ((b + c) + d) == ((a + b) + c) + d
  {
  }

  lemma LengthParts(pos: nat, left: nat)
    ensures var avail := Left(HeaderStart(pos)) - HEADER_SIZE;
      FragmentLength(pos, left) == if left < avail then left else avail
    ensures After(pos, FragmentLength(pos, left)) == HeaderStart(pos) + HEADER_SIZE + FragmentLength(pos, left)
  {
  }

  /** The writer's block offset follows the file length; a block that was just
      filled is not yet switched away from. */
  predicate Aligned(pos: nat, offset: nat) {
    offset <= BLOCK_SIZE && (pos - offset) % BLOCK_SIZE == 0
  }

  /** Switching blocks when less than a header is left. */
  lemma SwitchBlock(pos: nat, offset: nat)
    requires Aligned(pos, offset)
    ensures offset <= BLOCK_SIZE
    ensures var switch := BLOCK_SIZE - offset < HEADER_SIZE;
      && HeaderStart(pos) == pos + (if switch then BLOCK_SIZE - offset else 0)
      && Aligned(HeaderStart(pos), if switch then 0 else offset)
      && Left(HeaderStart(pos)) == BLOCK_SIZE - (if switch then 0 else offset)
  {
    assert offset < BLOCK_SIZE ==> Left(pos) == BLOCK_SIZE - offset;
    assert offset == BLOCK_SIZE ==> Left(pos) == BLOCK_SIZE;
    LeftBounds(pos);
  }

  lemma StaysAligned(pos: nat, offset: nat, n: nat)
    requires Aligned(pos, offset) && offset + n <= BLOCK_SIZE
    ensures Aligned(pos + n, offset + n)
  {
  }

  /** The log that holds `records`, from position `pos` on. */
  function Log(pos: nat, records: seq<Bytes>): Bytes
    decreases |records|
  {
    if records == [] then []
    else
      var r := Fragmented(pos, records[0], true);
      r + Log(pos + |r|, records[1..])
  }

  lemma LogUnfolds(pos: nat, records: seq<Bytes>)
    requires |records| > 0
    ensures Log(pos, records) ==
            Fragmented(pos, records[0], true) + Log(pos + |Fragmented(pos, records[0], true)|, records[1..])
  {
    hide Fragmented;
  }

  lemma LogOfNone(pos: nat)
    ensures Log(pos, []) == []
  {
  }

  lemma {:induction false} LogAppend(pos: nat, a: seq<Bytes>, b: seq<Bytes>)
    ensures Log(pos, a + b) == Log(pos, a) + Log(pos + |Log(pos, a)|, b)
    decreases |a|
  {
    hide *;
    LogOfNone(pos);
    if a == [] {
      assert a + b == b;
    } else {
      var next := pos + |Fragmented(pos, a[0], true)|;
      assert (a + b)[1..] == a[1..] + b && (a + b)[0] == a[0];
      LogUnfolds(pos, a);
      LogUnfolds(pos, a + b);
      LogAppend(next, a[1..], b);
      assert pos + |Log(pos, a)| == next + |Log(next, a[1..])|;
    }
  }

  lemma PlacedParts(pos: nat, kind: byte, payload: Bytes)
    requires |payload| <= Left(HeaderStart(pos)) - HEADER_SIZE
    ensures |payload| <= 0xffff
    ensures Placed(pos, kind, payload) == Zeros(HeaderStart(pos) - pos) + PhysicalRecord(kind, payload)
  {
    LeftBounds(HeaderStart(pos));
  }

  lemma LogOfOne(pos: nat, slice: Bytes)
    ensures Log(pos, [slice]) == Fragmented(pos, slice, true)
  {
    hide Fragmented;
    var r := Fragmented(pos, slice, true);
    assert [slice][1..] == [];
    assert r + [] == r;
  }

  /** Appending the fragments of one more record extends the log by it. */
  lemma LogGrows(origin: nat, dest: Bytes, records: seq<Bytes>, slice: Bytes)
    requires origin <= |dest| && dest[origin..] == Log(origin, records)
    ensures (dest + Fragmented(|dest|, slice, true))[origin..] == Log(origin, records + [slice])
  {
    hide *;
    var log := dest[origin..];
    assert origin + |log| == |dest|;
    LogAppend(origin, records, [slice]);
    LogOfOne(|dest|, slice);
    DropConcat(dest, Fragmented(|dest|, slice, true), origin);
  }

  lemma DropConcat(a: Bytes, b: Bytes, n: nat)
    requires n <= |a|
    ensures (a + b)[n..] == a[n..] + b
  {
  }

  lemma ZerosLength(n: nat)
    ensures |Zeros(n)| == n && (n == 0 ==> Zeros(n) == [])
  {
  }

  class Writer {
    var dest: Bytes
    var blockOffset: nat
    ghost var records: seq<Bytes>
    ghost var origin: nat

    ghost predicate Valid()
      reads this
    {
      && Aligned(|dest|, blockOffset)
      && origin <= |dest|
      && dest[origin..] == Log(origin, records)
    }

    /** A writer for a file that already holds `contents`. */
    constructor (contents: Bytes)
      ensures Valid() && dest == contents && records == [] && origin == |contents|
    {
      dest := contents;
      blockOffset := |contents| % BLOCK_SIZE;
      records := [];
      origin := |contents|;
    }

    method EmitPhysicalRecord(kind: byte, payload: Bytes)
      requires |payload| <= 0xffff
      modifies this`dest, this`blockOffset
      ensures dest == old(dest) + PhysicalRecord(kind, payload)
      ensures blockOffset == old(blockOffset) + HEADER_SIZE + |payload|
    {
      var header := [(|payload| % 256) as byte, (|payload| / 256) as byte, kind];
      var crc := Crc32c.Crc(ValueOf([kind]), AllBits(payload));
      dest := dest + (EncodeCrc(Crc32c.Mask(crc)) + header);
      dest := dest + payload;
      blockOffset := blockOffset + HEADER_SIZE + |payload|;
    }

    /** Appends one record.  The file only grows, by exactly the fragments of
        the record, and stays the log of the records added so far. */
    method AddRecord(slice: Bytes)
      requires Valid()
      modifies this
      ensures Valid()
      ensures dest == old(dest) + Fragmented(|old(dest)|, slice, true)
      ensures records == old(records) + [slice] && origin == old(origin)
    {
      hide *;
      ghost var total := dest + Remaining(|dest|, slice, true);
      RemainingCases(|dest|, slice, true);
      ValidParts();
      var rest := slice;
      var begin := true;
      while begin || |rest| > 0
        invariant Aligned(|dest|, blockOffset)
        invariant dest + Remaining(|dest|, rest, begin) == total
        invariant records == old(records) && origin == old(origin)
        decreases begin, |rest|, Stuck(|dest|)
      {
        ghost var pos := |dest|;
        SwitchBlock(pos, blockOffset);
        LoopStep(dest, rest, begin);
        FragmentedStep(pos, rest, begin);
        LengthParts(pos, |rest|);
        var leftover := BLOCK_SIZE - blockOffset;
        if leftover < HEADER_SIZE {
          // Switch to a new block, filling the trailer.
          if leftover > 0 {
            dest := dest + Zeros(leftover);
          }
          blockOffset := 0;
        }
        ZerosLength(HeaderStart(pos) - pos);
        var avail := BLOCK_SIZE - blockOffset - HEADER_SIZE;
        var fragmentLength := if |rest| < avail then |rest| else avail;
        var kind := TypeOf(begin, |rest| == fragmentLength);
        StaysAligned(|dest|, blockOffset, HEADER_SIZE + fragmentLength);
        EmitPhysicalRecord(kind, rest[..fragmentLength]);
        rest := rest[fragmentLength..];
        begin := false;
      }
      RemainingCases(|dest|, rest, begin);
      LogGrows(origin, old(dest), old(records), slice);
      records := records + [slice];
      MakeValid();
    }

    lemma ValidParts()
      requires Valid()
      ensures Aligned(|dest|, blockOffset)
      ensures origin <= |dest| && dest[origin..] == Log(origin, records)
    {
    }

    lemma MakeValid()
      requires Aligned(|dest|, blockOffset)
      requires origin <= |dest| && dest[origin..] == Log(origin, records)
      ensures Valid()
    {
    }
  }
}
