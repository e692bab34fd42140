/** log::Reader: fragments are put back together.  Initial offset 0. */
module LogReader {
  import opened DbFormat
  import opened LogFormat
  import opened LogWriter

  /** What one call of ReadRecord does: a record or the end, where the reader
      then is, and what it reported. */
  datatype Logical =
    | Record(data: Bytes, next: nat, reports: seq<Report>)
    | End(next: nat, reports: seq<Report>)

  function Prepend(reports: seq<Report>, l: Logical): Logical {
    l.(reports := reports + l.reports)
  }

  /** ReadRecord from `pos`, part way through a fragmented record when
      `inFragment`, with the fragments so far in `scratch`. */
  function LogicalAt(file: Bytes, pos: nat, inFragment: bool, scratch: Bytes): (r: Logical)
    requires pos <= |file|
    ensures pos <= r.next <= |file|
    ensures r.Record? ==> pos < r.next
    decreases |file| - pos
  {
    var p := PhysicalAt(file, pos);
    var n := |p.fragment|;
    if p.kind == EOF_CODE then End(p.next, p.reports)
    else if p.kind == FULL_TYPE then
      Record(p.fragment, p.next, p.reports + PartialReport(inFragment, scratch, 1))
    else if p.kind == FIRST_TYPE then
      Prepend(p.reports + PartialReport(inFragment, scratch, 2), LogicalAt(file, p.next, true, p.fragment))
    else if p.kind == MIDDLE_TYPE then
      if inFragment then Prepend(p.reports, LogicalAt(file, p.next, true, scratch + p.fragment))
      else Prepend(p.reports + [Report(n, MissingStart(1))], LogicalAt(file, p.next, false, scratch))
    else if p.kind == LAST_TYPE then
      if inFragment then Record(scratch + p.fragment, p.next, p.reports)
      else Prepend(p.reports + [Report(n, MissingStart(2))], LogicalAt(file, p.next, false, scratch))
    else if p.kind == BAD_RECORD_CODE then
      if inFragment then Prepend(p.reports + [Report(|scratch|, ErrorInMiddle)], LogicalAt(file, p.next, false, []))
      else Prepend(p.reports, LogicalAt(file, p.next, false, scratch))
    else
      Prepend(p.reports + [Report(n + if inFragment then |scratch| else 0, UnknownRecordType(p.kind))],
              LogicalAt(file, p.next, false, []))
  }

  function PartialReport(inFragment: bool, scratch: Bytes, which: nat): seq<Report> {
    if inFragment && scratch != [] then [Report(|scratch|, PartialRecordWithoutEnd(which))] else []
  }

  /** Calling ReadRecord until it returns false. */
  function ReadAll(file: Bytes, pos: nat): (r: (seq<Bytes>, seq<Report>))
    requires pos <= |file|
    decreases |file| - pos
  {
    var l := LogicalAt(file, pos, false, []);
    if l.End? then ([], l.reports)
    else
      var rest := ReadAll(file, l.next);
      ([l.data] + rest.0, l.reports + rest.1)
  }

  /** How one more call of ReadRecord continues a reading of the whole file. */
  lemma NextRecord(file: Bytes, pos: nat, all: (seq<Bytes>, seq<Report>), n: nat)
    requires pos <= |file| && n <= |all.0| && ReadAll(file, pos) == (all.0[n..], all.1)
    ensures var l := LogicalAt(file, pos, false, []);
      && (l.reports != [] ==> all.1 != [])
      && (l.End? ==> n == |all.0| && all.1 == l.reports)
      && (l.Record? ==> n < |all.0| && all.0[n] == l.data)
      && (l.Record? && l.reports == [] ==> ReadAll(file, l.next) == (all.0[n + 1..], all.1))
  {
    hide LogicalAt;
    UnfoldReadAll(file, pos);
    var l := LogicalAt(file, pos, false, []);
    if l.Record? {
      var rest := ReadAll(file, l.next);
      assert all.0[n..] == [l.data] + rest.0;
      SuffixHead(all.0, n, l.data, rest.0);
      assert l.reports == [] ==> l.reports + rest.1 == rest.1;
    }
  }

  lemma SuffixHead(s: seq<Bytes>, n: nat, x: Bytes, t: seq<Bytes>)
    requires n <= |s| && s[n..] == [x] + t
    ensures n < |s| && s[n] == x && s[n + 1..] == t
  {
    assert |s[n..]| == 1 + |t|;
    assert s[n] == s[n..][0] && s[n + 1..] == s[n..][1..];
  }

  lemma UnfoldReadAll(file: Bytes, pos: nat)
    requires pos <= |file|
    ensures var l := LogicalAt(file, pos, false, []);
      ReadAll(file, pos)
        == if l.End? then ([], l.reports)
           else ([l.data] + ReadAll(file, l.next).0, l.reports + ReadAll(file, l.next).1)
  {
    hide LogicalAt;
  }

  // ----- Round trip -----

  /** One fragment of a well-formed record. */
  lemma FragmentTaken(file: Bytes, pos: nat, begin: bool, end: bool, payload: Bytes, scratch: Bytes)
    requires pos <= |file|
    requires PhysicalAt(file, pos).kind == TypeOf(begin, end) as nat
    requires PhysicalAt(file, pos).fragment == payload && PhysicalAt(file, pos).reports == []
    requires begin ==> scratch == []
    ensures var next := PhysicalAt(file, pos).next;
      LogicalAt(file, pos, !begin, scratch)
        == if end then Record(scratch + payload, next, []) else LogicalAt(file, next, true, scratch + payload)
  {
    hide PhysicalAt;
    var next := PhysicalAt(file, pos).next;
    assert [] + payload == payload;
    if !end {
      var rest := LogicalAt(file, next, true, scratch + payload);
      assert [] + rest.reports == rest.reports;
    }
  }

  /** The rest of a record whose fragments are all there is put together. */
  lemma {:induction false} RecordReads(file: Bytes, pos: nat, data: Bytes, begin: bool, scratch: Bytes)
    requires pos <= |file|
    requires Fragmented(pos, data, begin) <= file[pos..]
    requires begin ==> scratch == []
    ensures LogicalAt(file, pos, !begin, scratch) == Record(scratch + data, pos + |Fragmented(pos, data, begin)|, [])
    decreases |data|, Stuck(pos)
  {
    hide *;
    var n := FragmentLength(pos, |data|);
    var kind := TypeOf(begin, n == |data|);
    var placed := Placed(pos, kind, data[..n]);
    FragmentedStep(pos, data, begin);
    PlacedParts(pos, kind, data[..n]);
    NeverZeroType(begin, n == |data|);
    PlacedReads(file, pos, kind, data[..n]);
    FragmentTaken(file, pos, begin, n == |data|, data[..n], scratch);
    if n == |data| {
      assert data[..n] == data;
    } else {
      PlacedLength(pos, kind, data[..n]);
      SuffixOfPrefix(file, pos, placed, Fragmented(After(pos, n), data[n..], false));
      RecordReads(file, After(pos, n), data[n..], false, scratch + data[..n]);
      assert (scratch + data[..n]) + data[n..] == scratch + data;
    }
  }

  lemma NeverZeroType(begin: bool, end: bool)
    ensures TypeOf(begin, end) != ZERO_TYPE as byte
  {
  }

  lemma PlacedLength(pos: nat, kind: byte, payload: Bytes)
    requires |payload| <= Left(HeaderStart(pos)) - HEADER_SIZE
    ensures pos + |Placed(pos, kind, payload)| == After(pos, |payload|)
  {
    PlacedParts(pos, kind, payload);
  }

  lemma SuffixOfPrefix(file: Bytes, pos: nat, a: Bytes, b: Bytes)
    requires pos <= |file| && a + b <= file[pos..]
    ensures pos + |a| <= |file| && b <= file[pos + |a|..]
  {
    assert file[pos..][|a|..] == file[pos + |a|..];
  }

  lemma PrefixOfSuffix(file: Bytes, pos: nat, a: Bytes, b: Bytes)
    requires pos <= |file| && file[pos..] <= a + b
    ensures |file| - pos < |a| ==> file[pos..] <= a
    ensures |a| <= |file| - pos ==> a <= file[pos..] && file[pos + |a|..] <= b
  {
    if |a| <= |file| - pos {
      assert file[pos..][|a|..] == file[pos + |a|..];
    }
  }

  /** A record whose last fragment is not all there reads as the end. */
  lemma {:induction false} RecordCut(file: Bytes, pos: nat, data: Bytes, begin: bool, scratch: Bytes)
    requires pos <= |file| < pos + |Fragmented(pos, data, begin)|
    requires file[pos..] <= Fragmented(pos, data, begin)
    requires begin ==> scratch == []
    ensures LogicalAt(file, pos, !begin, scratch) == End(|file|, [])
    decreases |data|, Stuck(pos)
  {
    hide *;
    var n := FragmentLength(pos, |data|);
    var kind := TypeOf(begin, n == |data|);
    var placed := Placed(pos, kind, data[..n]);
    var next := After(pos, n);
    var tail := if n == |data| then [] else Fragmented(next, data[n..], false);
    FragmentedStep(pos, data, begin);
    PlacedLength(pos, kind, data[..n]);
    PrefixOfSuffix(file, pos, placed, tail);
    if |file| - pos < |placed| {
      PlacedCut(file, pos, kind, data[..n]);
      EndsHere(file, pos, !begin, scratch);
    } else {
      NeverZeroType(begin, n == |data|);
      PlacedReads(file, pos, kind, data[..n]);
      FragmentTaken(file, pos, begin, n == |data|, data[..n], scratch);
      RecordCut(file, next, data[n..], false, scratch + data[..n]);
    }
  }

  lemma EndsHere(file: Bytes, pos: nat, inFragment: bool, scratch: Bytes)
    requires pos <= |file|
    requires PhysicalAt(file, pos) == Physical(EOF_CODE, [], |file|, [])
    ensures LogicalAt(file, pos, inFragment, scratch) == End(|file|, [])
  {
  }

  /** How many of the records written from `pos` on end at or before `end`. */
  function Complete(pos: nat, records: seq<Bytes>, end: nat): (k: nat)
    ensures k <= |records|
    decreases |records|
  {
    if records == [] then 0
    else
      var next := pos + |Fragmented(pos, records[0], true)|;
      if end < next then 0 else 1 + Complete(next, records[1..], end)
  }

  /** Complete counts exactly the records whose last fragment is complete. */
  lemma {:induction false} CompleteCounts(pos: nat, records: seq<Bytes>, end: nat, i: nat)
    requires i <= |records| && pos <= end
    ensures i <= Complete(pos, records, end) <==> pos + |Log(pos, records[..i])| <= end
    decreases |records|
  {
    hide Fragmented;
    if i > 0 {
      var next := pos + |Fragmented(pos, records[0], true)|;
      assert records[..i][0] == records[0] && records[..i][1..] == records[1..][..i - 1];
      if next <= end {
        CompleteCounts(next, records[1..], end, i - 1);
      }
    }
  }

  lemma ReadAllStep(file: Bytes, pos: nat, data: Bytes, next: nat)
    requires pos <= |file| && LogicalAt(file, pos, false, []) == Record(data, next, [])
    ensures pos < next <= |file|
    ensures ReadAll(file, pos) == ([data] + ReadAll(file, next).0, ReadAll(file, next).1)
  {
    hide LogicalAt;
    var rest := ReadAll(file, next);
    assert [] + rest.1 == rest.1;
  }

  /** For every list of records, every starting position and every truncation
      of the file, reading from that position returns exactly the records that
      are complete in the file, in order, and reports nothing. */
  lemma {:induction false} TruncatedLogReads(file: Bytes, pos: nat, records: seq<Bytes>)
    requires pos <= |file|
    requires file[pos..] <= Log(pos, records)
    ensures ReadAll(file, pos) == (records[..Complete(pos, records, |file|)], [])
    decreases |records|
  {
    hide Fragmented, LogicalAt, PhysicalAt;
    if records == [] {
      EndOfFile(file, []);
    } else {
      var r := Fragmented(pos, records[0], true);
      var next := pos + |r|;
      PrefixOfSuffix(file, pos, r, Log(next, records[1..]));
      if |file| < next {
        RecordCut(file, pos, records[0], true, []);
      } else {
        RecordReads(file, pos, records[0], true, []);
        assert [] + records[0] == records[0];
        ReadAllStep(file, pos, records[0], next);
        TruncatedLogReads(file, next, records[1..]);
        var k := Complete(next, records[1..], |file|);
        assert records[..1 + k] == [records[0]] + records[1..][..k];
      }
    }
  }

  lemma EndOfFile(file: Bytes, scratch: Bytes)
    ensures LogicalAt(file, |file|, false, scratch) == End(|file|, [])
  {
    LeftBounds(|file|);
  }

  /** A whole log reads back as the records written. */
  lemma LogReads(before: Bytes, records: seq<Bytes>)
    ensures ReadAll(before + Log(|before|, records), |before|) == (records, [])
  {
    hide *;
    var file := before + Log(|before|, records);
    assert file[|before|..] == Log(|before|, records);
    assert records[..|records|] == records;
    CompleteCounts(|before|, records, |file|, |records|);
    CompleteBound(|before|, records, |file|);
    TruncatedLogReads(file, |before|, records);
  }

  lemma CompleteBound(pos: nat, records: seq<Bytes>, end: nat)
    ensures Complete(pos, records, end) <= |records|
  {
  }

  // ----- Any file at all -----

  /** What follows at `pos` completes a record that began with `acc`. */
  ghost predicate Completes(file: Bytes, pos: nat, acc: Bytes, data: Bytes, next: nat)
    requires pos <= |file|
    decreases |file| - pos
  {
    var p := PhysicalAt(file, pos);
    || (p.kind == LAST_TYPE && data == acc + p.fragment && next == p.next)
    || (p.kind == MIDDLE_TYPE && Completes(file, p.next, acc + p.fragment, data, next))
  }

  /** One whole record, or a first one and its continuation without a gap. */
  ghost predicate Assembled(file: Bytes, pos: nat, data: Bytes, next: nat)
    requires pos <= |file|
  {
    var p := PhysicalAt(file, pos);
    || (p.kind == FULL_TYPE && data == p.fragment && next == p.next)
    || (p.kind == FIRST_TYPE && Completes(file, p.next, p.fragment, data, next))
  }

  /** On any file, whatever is damaged in it, a record that is returned was put
      together from intact fragments that follow one another. */
  lemma {:induction false} ReturnedIsAssembled(file: Bytes, pos: nat, inFragment: bool, scratch: Bytes)
    requires pos <= |file|
    ensures var l := LogicalAt(file, pos, inFragment, scratch);
      l.Record? ==>
        || (inFragment && Completes(file, pos, scratch, l.data, l.next))
        || exists q :: pos <= q < l.next && Assembled(file, q, l.data, l.next)
    decreases |file| - pos
  {
    var l, p := LogicalAt(file, pos, inFragment, scratch), PhysicalAt(file, pos);
    hide PhysicalAt;
    if l.Record? {
      if p.kind == FULL_TYPE {
        assert Assembled(file, pos, l.data, l.next);
      } else if p.kind == FIRST_TYPE {
        ReturnedIsAssembled(file, p.next, true, p.fragment);
        assert Completes(file, p.next, p.fragment, l.data, l.next) ==> Assembled(file, pos, l.data, l.next);
      } else if p.kind == MIDDLE_TYPE {
        if inFragment {
          ReturnedIsAssembled(file, p.next, true, scratch + p.fragment);
        } else {
          ReturnedIsAssembled(file, p.next, false, scratch);
        }
      } else if p.kind == LAST_TYPE {
        if !inFragment {
          ReturnedIsAssembled(file, p.next, false, scratch);
        }
      } else if p.kind == BAD_RECORD_CODE {
        ReturnedIsAssembled(file, p.next, false, if inFragment then [] else scratch);
      } else {
        ReturnedIsAssembled(file, p.next, false, []);
      }
    }
  }

  // ----- What is reported -----

  predicate AboutBlock(r: Report) {
    r.reason.BadRecordLength? || r.reason.ChecksumMismatch?
  }

  /** The reports about blocks, which have their reasons in the bytes alone. */
  function OfBlocks(reports: seq<Report>): seq<Report> {
    if reports == [] then []
    else (if AboutBlock(reports[0]) then [reports[0]] else []) + OfBlocks(reports[1..])
  }

  /** How many bytes of intact fragments the other reports give up. */
  function Dropped(reports: seq<Report>): nat {
    if reports == [] then 0
    else (if AboutBlock(reports[0]) then 0 else reports[0].bytes) + Dropped(reports[1..])
  }

  lemma FirstReport(a: seq<Report>)
    requires a != []
    ensures OfBlocks(a) == (if AboutBlock(a[0]) then [a[0]] else []) + OfBlocks(a[1..])
    ensures Dropped(a) == (if AboutBlock(a[0]) then 0 else a[0].bytes) + Dropped(a[1..])
  {
  }

  lemma {:induction false} ReportsAdd(a: seq<Report>, b: seq<Report>)
    ensures OfBlocks(a + b) == OfBlocks(a) + OfBlocks(b) && Dropped(a + b) == Dropped(a) + Dropped(b)
  {
    if a == [] {
      assert a + b == b;
    } else {
      FirstReport(a);
      FirstReport(a + b);
      hide OfBlocks, Dropped;
      assert (a + b)[0] == a[0] && (a + b)[1..] == a[1..] + b;
      ReportsAdd(a[1..], b);
    }
  }

  /** What reading from pos to `end` refuses, and how many bytes of fragments it finds. */
  ghost function Refusals(file: Bytes, pos: nat, end: nat): seq<Report>
    requires pos <= |file|
    decreases |file| - pos
  {
    var p := PhysicalAt(file, pos);
    if pos >= end || p.kind == EOF_CODE then [] else p.reports + Refusals(file, p.next, end)
  }

  ghost function FragmentBytes(file: Bytes, pos: nat, end: nat): nat
    requires pos <= |file|
    decreases |file| - pos
  {
    var p := PhysicalAt(file, pos);
    if pos >= end || p.kind == EOF_CODE then 0
    else (if p.kind == BAD_RECORD_CODE then 0 else |p.fragment|) + FragmentBytes(file, p.next, end)
  }

  ghost predicate Accounted(file: Bytes, pos: nat, scratch: Bytes, l: Logical)
    requires pos <= |file|
  {
    && OfBlocks(l.reports) == Refusals(file, pos, l.next)
    && (l.Record? ==> |l.data| + Dropped(l.reports) == |scratch| + FragmentBytes(file, pos, l.next))
    && (l.End? ==> Dropped(l.reports) <= |scratch| + FragmentBytes(file, pos, l.next))
  }

  /** Everything is accounted for: the refused blocks are reported, and every
      byte of an intact fragment is in the record that is returned or reported
      as dropped, save those of a record the file ends in. */
  lemma {:induction false} NothingIsLostSilently(file: Bytes, pos: nat, inFragment: bool, scratch: Bytes)
    requires pos <= |file| && (inFragment || scratch == [])
    ensures Accounted(file, pos, scratch, LogicalAt(file, pos, inFragment, scratch))
    decreases |file| - pos
  {
    hide *;
    PhysicalReports(file, pos);
    var p := PhysicalAt(file, pos);
    if p.kind == EOF_CODE || p.kind == FULL_TYPE || (p.kind == LAST_TYPE && inFragment) {
      LastStep(file, pos, inFragment, scratch);
    } else {
      var own, still, next := OneStep(file, pos, inFragment, scratch);
      assert still || next == [] by {
        GoesOnInFragment(file, pos, inFragment, scratch, own, still, next);
      }
      NothingIsLostSilently(file, p.next, still, next);
      AddStep(file, pos, inFragment, scratch, own, still, next);
    }
  }

  lemma PhysicalReports(file: Bytes, pos: nat)
    requires pos <= |file|
    ensures var p := PhysicalAt(file, pos);
      && OfBlocks(p.reports) == p.reports && Dropped(p.reports) == 0
      && (p.kind != BAD_RECORD_CODE ==> p.reports == [])
      && (p.kind != EOF_CODE ==> pos < p.next)
  {
    PhysicalIsIntact(file, pos);
    hide PhysicalAt, Intact, CutOff, Blank, ChecksumMatches;
    var reports := PhysicalAt(file, pos).reports;
    if reports != [] {
      assert |reports| == 1 && reports[1..] == [] && AboutBlock(reports[0]);
    }
  }

  /** Reading at pos reports `own` and goes on after p with `next` in hand. */
  ghost predicate GoesOn(file: Bytes, pos: nat, inFragment: bool, scratch: Bytes, own: seq<Report>, still: bool, next: Bytes)
    requires pos <= |file|
  {
    var p := PhysicalAt(file, pos);
    && LogicalAt(file, pos, inFragment, scratch) == Prepend(p.reports + own, LogicalAt(file, p.next, still, next))
    && (still || next == []) && OfBlocks(own) == []
    && Dropped(own) + |next| == |scratch| + if p.kind == BAD_RECORD_CODE then 0 else |p.fragment|
  }

  /** A step after which the reader goes on: what it reports of its own, and the
      state it goes on with. */
  lemma OneStep(file: Bytes, pos: nat, inFragment: bool, scratch: Bytes) returns (own: seq<Report>, still: bool, next: Bytes)
    requires pos <= |file| && (inFragment || scratch == [])
    requires var k := PhysicalAt(file, pos).kind; k != EOF_CODE && k != FULL_TYPE && !(k == LAST_TYPE && inFragment)
    ensures GoesOn(file, pos, inFragment, scratch, own, still, next)
  {
    hide *;
    Kinds();
    var p := PhysicalAt(file, pos);
    own, still, next := [], false, [];
    if p.kind == FIRST_TYPE {
      own, still, next := PartialReport(inFragment, scratch, 2), true, p.fragment;
      StepFirst(file, pos, inFragment, scratch);
    } else if p.kind == MIDDLE_TYPE && inFragment {
      still, next := true, scratch + p.fragment;
      StepMiddle(file, pos, scratch);
    } else if p.kind == MIDDLE_TYPE || p.kind == LAST_TYPE {
      own := [Report(|p.fragment|, MissingStart(if p.kind == MIDDLE_TYPE then 1 else 2))];
      StepMissing(file, pos);
    } else if p.kind == BAD_RECORD_CODE {
      own := if inFragment then [Report(|scratch|, ErrorInMiddle)] else [];
      StepBad(file, pos, inFragment, scratch);
    } else {
      own := [Report(|p.fragment| + if inFragment then |scratch| else 0, UnknownRecordType(p.kind))];
      StepUnknown(file, pos, inFragment, scratch);
    }
  }

  lemma Kinds()
    ensures ZERO_TYPE == 0 && FULL_TYPE == 1 && FIRST_TYPE == 2 && MIDDLE_TYPE == 3 && LAST_TYPE == 4
    ensures EOF_CODE == 5 && BAD_RECORD_CODE == 6
  {
  }

  lemma GoesOnInFragment(file: Bytes, pos: nat, inFragment: bool, scratch: Bytes, own: seq<Report>, still: bool, next: Bytes)
    requires pos <= |file| && GoesOn(file, pos, inFragment, scratch, own, still, next)
    ensures still || next == []
  {
    hide PhysicalAt, LogicalAt;
  }

  lemma StepFirst(file: Bytes, pos: nat, inFragment: bool, scratch: Bytes)
    requires pos <= |file| && (inFragment || scratch == []) && PhysicalAt(file, pos).kind == FIRST_TYPE
    ensures GoesOn(file, pos, inFragment, scratch, PartialReport(inFragment, scratch, 2), true, PhysicalAt(file, pos).fragment)
  {
    FewReports(PartialReport(inFragment, scratch, 2));
    hide PhysicalAt, OfBlocks, Dropped;
  }

  lemma StepMiddle(file: Bytes, pos: nat, scratch: Bytes)
    requires pos <= |file| && PhysicalAt(file, pos).kind == MIDDLE_TYPE
    ensures GoesOn(file, pos, true, scratch, [], true, scratch + PhysicalAt(file, pos).fragment)
  {
    FewReports([]);
    hide PhysicalAt, OfBlocks, Dropped;
    assert PhysicalAt(file, pos).reports + [] == PhysicalAt(file, pos).reports;
  }

  lemma StepMissing(file: Bytes, pos: nat)
    requires pos <= |file| && (PhysicalAt(file, pos).kind == MIDDLE_TYPE || PhysicalAt(file, pos).kind == LAST_TYPE)
    ensures var p := PhysicalAt(file, pos);
      GoesOn(file, pos, false, [], [Report(|p.fragment|, MissingStart(if p.kind == MIDDLE_TYPE then 1 else 2))], false, [])
  {
    var p := PhysicalAt(file, pos);
    FewReports([Report(|p.fragment|, MissingStart(if p.kind == MIDDLE_TYPE then 1 else 2))]);
    hide PhysicalAt, OfBlocks, Dropped;
  }

  lemma StepBad(file: Bytes, pos: nat, inFragment: bool, scratch: Bytes)
    requires pos <= |file| && (inFragment || scratch == []) && PhysicalAt(file, pos).kind == BAD_RECORD_CODE
    ensures GoesOn(file, pos, inFragment, scratch, if inFragment then [Report(|scratch|, ErrorInMiddle)] else [], false, [])
  {
    FewReports(if inFragment then [Report(|scratch|, ErrorInMiddle)] else []);
    hide PhysicalAt, OfBlocks, Dropped;
    assert PhysicalAt(file, pos).reports + [] == PhysicalAt(file, pos).reports;
  }

  lemma StepUnknown(file: Bytes, pos: nat, inFragment: bool, scratch: Bytes)
    requires pos <= |file| && (inFragment || scratch == [])
    requires var k := PhysicalAt(file, pos).kind; k == ZERO_TYPE || k > BAD_RECORD_CODE
    ensures var p := PhysicalAt(file, pos);
      GoesOn(file, pos, inFragment, scratch,
             [Report(|p.fragment| + if inFragment then |scratch| else 0, UnknownRecordType(p.kind))], false, [])
  {
    var p := PhysicalAt(file, pos);
    UnknownReads(file, pos, inFragment, scratch);
    FewReports([Report(|p.fragment| + if inFragment then |scratch| else 0, UnknownRecordType(p.kind))]);
    hide PhysicalAt, LogicalAt, OfBlocks, Dropped;
  }

  lemma UnknownReads(file: Bytes, pos: nat, inFragment: bool, scratch: Bytes)
    requires pos <= |file|
    requires var k := PhysicalAt(file, pos).kind; k == ZERO_TYPE || k > BAD_RECORD_CODE
    ensures var p := PhysicalAt(file, pos);
      LogicalAt(file, pos, inFragment, scratch) ==
        Prepend(p.reports + [Report(|p.fragment| + if inFragment then |scratch| else 0, UnknownRecordType(p.kind))],
                LogicalAt(file, p.next, false, []))
  {
    hide PhysicalAt, Prepend;
  }

  lemma FewReports(own: seq<Report>)
    requires |own| <= 1 && (own != [] ==> !AboutBlock(own[0]))
    ensures OfBlocks(own) == [] && Dropped(own) == if own == [] then 0 else own[0].bytes
  {
    if own != [] {
      assert own[1..] == [];
    }
  }

  lemma AddStep(file: Bytes, pos: nat, inFragment: bool, scratch: Bytes, own: seq<Report>, still: bool, next: Bytes)
    requires pos <= |file| && PhysicalAt(file, pos).kind != EOF_CODE && pos < PhysicalAt(file, pos).next
    requires var p := PhysicalAt(file, pos);
      && OfBlocks(p.reports) == p.reports && Dropped(p.reports) == 0
      && GoesOn(file, pos, inFragment, scratch, own, still, next)
    requires Accounted(file, PhysicalAt(file, pos).next, next, LogicalAt(file, PhysicalAt(file, pos).next, still, next))
    ensures Accounted(file, pos, scratch, LogicalAt(file, pos, inFragment, scratch))
  {
    var p := PhysicalAt(file, pos);
    var l, after := LogicalAt(file, pos, inFragment, scratch), LogicalAt(file, p.next, still, next);
    ReportsAdd(p.reports + own, after.reports);
    ReportsAdd(p.reports, own);
    hide PhysicalAt, LogicalAt, OfBlocks, Dropped;
    assert p.reports + [] == p.reports;
  }

  lemma LastStep(file: Bytes, pos: nat, inFragment: bool, scratch: Bytes)
    requires pos <= |file| && (inFragment || scratch == [])
    requires var k := PhysicalAt(file, pos).kind; k == EOF_CODE || k == FULL_TYPE || (k == LAST_TYPE && inFragment)
    ensures Accounted(file, pos, scratch, LogicalAt(file, pos, inFragment, scratch))
  {
    PhysicalReports(file, pos);
    var p := PhysicalAt(file, pos);
    hide PhysicalAt;
    var own := PartialReport(inFragment, scratch, 1);
    FewReports(own);
    FewReports([]);
    assert [] + own == own;
    hide OfBlocks, Dropped;
    if p.kind != EOF_CODE {
      assert FragmentBytes(file, p.next, p.next) == 0 && Refusals(file, p.next, p.next) == [];
    }
  }

  // ----- The reader object -----

  /** `buffer` holds the unread part of the last block read, which ends at
      `endOfBuffer`; a block that came short means the end of the file. */
  predicate Buffered(file: Bytes, buffer: Bytes, endOfBuffer: nat, eof: bool) {
    && |buffer| <= endOfBuffer <= |file|
    && buffer == file[endOfBuffer - |buffer|..endOfBuffer]
    && (eof ==> endOfBuffer == |file| && |buffer| <= endOfBuffer % BLOCK_SIZE)
    && (!eof ==> endOfBuffer % BLOCK_SIZE == 0 && |buffer| <= BLOCK_SIZE)
  }

  /** The buffer holds what PhysicalAt looks at. */
  lemma BufferIsRest(file: Bytes, buffer: Bytes, endOfBuffer: nat, eof: bool)
    requires Buffered(file, buffer, endOfBuffer, eof) && 0 < |buffer|
    ensures var pos := endOfBuffer - |buffer|;
      && (eof <==> BlockEnd(pos) > |file|)
      && (eof ==> buffer == file[pos..])
      && (!eof ==> BlockEnd(pos) == endOfBuffer && buffer == file[pos..BlockEnd(pos)])
  {
    var pos := endOfBuffer - |buffer|;
    LeftBounds(pos);
  }

  /** With too little left for a header the next block decides. */
  lemma ShortBuffer(file: Bytes, buffer: Bytes, endOfBuffer: nat, eof: bool)
    requires Buffered(file, buffer, endOfBuffer, eof) && |buffer| < HEADER_SIZE
    ensures var pos := endOfBuffer - |buffer|;
      PhysicalAt(file, pos)
        == if eof then Physical(EOF_CODE, [], |file|, []) else PhysicalAt(file, endOfBuffer)
  {
    hide ChecksumMatches;
    var pos := endOfBuffer - |buffer|;
    LeftBounds(pos);
    if |buffer| > 0 {
      BufferIsRest(file, buffer, endOfBuffer, eof);
    }
  }

  lemma NextBlock(file: Bytes, buffer: Bytes, endOfBuffer: nat, next: nat)
    requires endOfBuffer <= |file| && Buffered(file, buffer, endOfBuffer, false)
    requires next == if |file| < endOfBuffer + BLOCK_SIZE then |file| else endOfBuffer + BLOCK_SIZE
    ensures Buffered(file, file[endOfBuffer..next], next, next - endOfBuffer < BLOCK_SIZE)
  {
  }

  lemma BufferFacts(file: Bytes, buffer: Bytes, endOfBuffer: nat, eof: bool)
    requires Buffered(file, buffer, endOfBuffer, eof)
    ensures |buffer| <= endOfBuffer <= |file|
    ensures eof ==> endOfBuffer == |file|
    ensures Buffered(file, [], endOfBuffer, eof)
  {
  }

  /** With a header in the buffer, it decides. */
  lemma HeaderDecides(file: Bytes, buffer: Bytes, endOfBuffer: nat, eof: bool)
    requires Buffered(file, buffer, endOfBuffer, eof) && HEADER_SIZE <= |buffer|
    ensures var pos := endOfBuffer - |buffer|;
      var length := buffer[4] as nat + 256 * buffer[5] as nat;
      var kind := buffer[6] as nat;
      PhysicalAt(file, pos)
        == if HEADER_SIZE + length > |buffer| then
             if eof then Physical(EOF_CODE, [], endOfBuffer, [])
             else Physical(BAD_RECORD_CODE, [], endOfBuffer, [Report(|buffer|, BadRecordLength)])
           else if kind == ZERO_TYPE && length == 0 then Physical(BAD_RECORD_CODE, [], endOfBuffer, [])
           else if !ChecksumMatches(buffer[..4], buffer[6..HEADER_SIZE + length]) then
             Physical(BAD_RECORD_CODE, [], endOfBuffer, [Report(|buffer|, ChecksumMismatch)])
           else Physical(kind, buffer[HEADER_SIZE..HEADER_SIZE + length], pos + HEADER_SIZE + length, [])
  {
    hide ChecksumMatches;
    BufferIsRest(file, buffer, endOfBuffer, eof);
  }

  /** Dropping from the front of the buffer, or all of it, keeps it a buffer. */
  lemma StaysBuffered(file: Bytes, buffer: Bytes, endOfBuffer: nat, eof: bool, n: nat)
    requires Buffered(file, buffer, endOfBuffer, eof) && n <= |buffer|
    ensures Buffered(file, buffer[n..], endOfBuffer, eof)
  {
  }

  lemma PrependStep(r: seq<Report>, a: seq<Report>, b: seq<Report>, l: Logical)
    ensures Prepend(r, Prepend(a + b, l)) == Prepend((r + a) + b, l)
  {
    assert r + ((a + b) + l.reports) == ((r + a) + b) + l.reports;
  }

  /** LogicalAt, one physical record at a time. */
  lemma LogicalStep(file: Bytes, pos: nat, inFragment: bool, scratch: Bytes)
    requires pos <= |file|
    ensures var p := PhysicalAt(file, pos);
      var n := |p.fragment|;
      var l := LogicalAt(file, pos, inFragment, scratch);
      && (p.kind == EOF_CODE ==> l == End(p.next, p.reports))
      && (p.kind == FULL_TYPE ==> l == Record(p.fragment, p.next, p.reports + PartialReport(inFragment, scratch, 1)))
      && (p.kind == FIRST_TYPE ==>
            l == Prepend(p.reports + PartialReport(inFragment, scratch, 2), LogicalAt(file, p.next, true, p.fragment)))
      && (p.kind == MIDDLE_TYPE && inFragment ==> l == Prepend(p.reports + [], LogicalAt(file, p.next, true, scratch + p.fragment)))
      && (p.kind == MIDDLE_TYPE && !inFragment ==>
            l == Prepend(p.reports + [Report(n, MissingStart(1))], LogicalAt(file, p.next, false, scratch)))
      && (p.kind == LAST_TYPE && inFragment ==> l == Record(scratch + p.fragment, p.next, p.reports))
      && (p.kind == LAST_TYPE && !inFragment ==>
            l == Prepend(p.reports + [Report(n, MissingStart(2))], LogicalAt(file, p.next, false, scratch)))
      && (p.kind == BAD_RECORD_CODE && inFragment ==>
            l == Prepend(p.reports + [Report(|scratch|, ErrorInMiddle)], LogicalAt(file, p.next, false, [])))
      && (p.kind == BAD_RECORD_CODE && !inFragment ==> l == Prepend(p.reports + [], LogicalAt(file, p.next, false, scratch)))
      && (p.kind == ZERO_TYPE || p.kind > BAD_RECORD_CODE ==>
            l == Prepend(p.reports + [Report(n + if inFragment then |scratch| else 0, UnknownRecordType(p.kind))],
                         LogicalAt(file, p.next, false, [])))
  {
    hide PhysicalAt;
    var p := PhysicalAt(file, pos);
    assert p.reports + [] == p.reports;
  }

  class Reader {
    const file: Bytes
    var buffer: Bytes
    var endOfBuffer: nat
    var eof: bool
    var reports: seq<Report>

    ghost predicate Valid()
      reads this
    {
      |buffer| <= endOfBuffer <= |file| && Buffered(file, buffer, endOfBuffer, eof)
    }

    ghost function Pos(): nat
      requires Valid()
      reads this
    {
      endOfBuffer - |buffer|
    }

    constructor (contents: Bytes)
      ensures Valid() && file == contents && Pos() == 0 && reports == []
    {
      file := contents;
      buffer, endOfBuffer, eof, reports := [], 0, false, [];
    }

    /** The part of ReadPhysicalRecord that reads blocks until a header is
        buffered; false at the end of the file. */
    method FillBuffer() returns (ok: bool)
      requires Valid()
      modifies this`buffer, this`endOfBuffer, this`eof
      ensures Valid()
      ensures ok ==> HEADER_SIZE <= |buffer| && PhysicalAt(file, Pos()) == old(PhysicalAt(file, Pos()))
      ensures !ok ==> Pos() == |file| && old(PhysicalAt(file, Pos())) == Physical(EOF_CODE, [], |file|, [])
    {
      hide PhysicalAt, Buffered;
      ghost var p := PhysicalAt(file, Pos());
      while |buffer| < HEADER_SIZE
        invariant Valid()
        invariant PhysicalAt(file, Pos()) == p
        decreases |file| - endOfBuffer, !eof
      {
        ShortBuffer(file, buffer, endOfBuffer, eof);
        BufferFacts(file, buffer, endOfBuffer, eof);
        if eof {
          // A truncated header at the end of the file is not an error.
          buffer := [];
          return false;
        }
        // The last read was a full read, so this is a trailer to skip.
        var next := if |file| < endOfBuffer + BLOCK_SIZE then |file| else endOfBuffer + BLOCK_SIZE;
        NextBlock(file, buffer, endOfBuffer, next);
        buffer := file[endOfBuffer..next];
        eof := |buffer| < BLOCK_SIZE;
        endOfBuffer := next;
      }
      return true;
    }

    /** Returns the type of the next physical record, or one of the codes. */
    method ReadPhysicalRecord() returns (kind: nat, fragment: Bytes)
      requires Valid()
      modifies this`buffer, this`endOfBuffer, this`eof, this`reports
      ensures Valid()
      ensures var p := PhysicalAt(file, old(Pos()));
        && kind == p.kind && fragment == p.fragment && Pos() == p.next && reports == old(reports) + p.reports
    {
      hide ChecksumMatches, PhysicalAt, Buffered;
      fragment := [];
      var ok := FillBuffer();
      if !ok {
        return EOF_CODE, [];
      }
      HeaderDecides(file, buffer, endOfBuffer, eof);
      BufferFacts(file, buffer, endOfBuffer, eof);
      var header := buffer;
      var length := header[4] as nat + 256 * header[5] as nat;
      kind := header[6] as nat;
      if HEADER_SIZE + length > |buffer| {
        var dropSize := |buffer|;
        buffer := [];
        if !eof {
          reports := reports + [Report(dropSize, BadRecordLength)];
          kind := BAD_RECORD_CODE;
        } else {
          kind := EOF_CODE;
        }
      } else if kind == ZERO_TYPE && length == 0 {
        buffer := [];
        kind := BAD_RECORD_CODE;
      } else if !ChecksumMatches(header[..4], header[6..HEADER_SIZE + length]) {
        var dropSize := |buffer|;
        buffer := [];
        reports := reports + [Report(dropSize, ChecksumMismatch)];
        kind := BAD_RECORD_CODE;
      } else {
        StaysBuffered(file, buffer, endOfBuffer, eof, HEADER_SIZE + length);
        buffer := buffer[HEADER_SIZE + length..];
        fragment := header[HEADER_SIZE..HEADER_SIZE + length];
      }
    }

    /** Reads the next record; false at the end of the file. */
    method ReadRecord() returns (ok: bool, record: Bytes)
      requires Valid()
      modifies this`buffer, this`endOfBuffer, this`eof, this`reports
      ensures Valid()
      ensures var l := LogicalAt(file, old(Pos()), false, []);
        && ok == l.Record? && Pos() == l.next && reports == old(reports) + l.reports
        && record == if l.Record? then l.data else []
    {
      hide PhysicalAt, LogicalAt, Buffered;
      var scratch: Bytes := [];
      var inFragment := false;
      ghost var whole := Prepend(reports, LogicalAt(file, Pos(), false, []));
      while true
        invariant Valid()
        invariant whole == Prepend(reports, LogicalAt(file, Pos(), inFragment, scratch))
        decreases |file| - Pos()
      {
        ghost var before := reports;
        ghost var p := PhysicalAt(file, Pos());
        LogicalStep(file, Pos(), inFragment, scratch);
        var kind, fragment := ReadPhysicalRecord();
        var dropped: seq<Report> := [];
        if kind == FULL_TYPE {
          if inFragment && scratch != [] {
            reports := reports + [Report(|scratch|, PartialRecordWithoutEnd(1))];
          }
          return true, fragment;
        } else if kind == FIRST_TYPE {
          if inFragment && scratch != [] {
            dropped := [Report(|scratch|, PartialRecordWithoutEnd(2))];
          }
          scratch := fragment;
          inFragment := true;
        } else if kind == MIDDLE_TYPE {
          if !inFragment {
            dropped := [Report(|fragment|, MissingStart(1))];
          } else {
            scratch := scratch + fragment;
          }
        } else if kind == LAST_TYPE {
          if !inFragment {
            dropped := [Report(|fragment|, MissingStart(2))];
          } else {
            scratch := scratch + fragment;
            return true, scratch;
          }
        } else if kind == EOF_CODE {
          return false, [];
        } else if kind == BAD_RECORD_CODE {
          if inFragment {
            dropped := [Report(|scratch|, ErrorInMiddle)];
            inFragment := false;
            scratch := [];
          }
        } else {
          dropped := [Report(|fragment| + if inFragment then |scratch| else 0, UnknownRecordType(kind))];
          inFragment := false;
          scratch := [];
        }
        PrependStep(before, p.reports, dropped, LogicalAt(file, Pos(), inFragment, scratch));
        reports := reports + dropped;
      }
    }
  }
}
