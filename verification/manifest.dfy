/** VersionSet::Recover: from the manifest's bytes to the version. */
module Manifest {
  import opened DbFormat
  import opened Coding
  import opened Versions
  import opened VersionBuilder
  import opened VersionEdits
  import LogFormat
  import LogWriter
  import LogReader
  import Keys = Comparator

  /** The entries of each table, by file number. */
  type Disk = map<nat, seq<Entry>>

  function ToKey(k: Bytes): InternalKey {
    if |k| < 8 then InternalKey(0.0, 0, TypeDeletion)
    else
      var packed := Keys.ExtractPacked(k);
      InternalKey(Keys.Embed(Keys.ExtractUserKey(k)), packed / 256, if packed % 256 == 1 then TypeValue else TypeDeletion)
  }

  function ToFile(disk: Disk, f: FileMeta): File {
    File(f.number, f.size, ToKey(f.smallest), ToKey(f.largest), if f.number in disk then disk[f.number] else [])
  }

  function ToEdit(disk: Disk, e: VersionEdit): Edit {
    Edit(set d | d in e.deleted, seq(|e.newFiles|, i requires 0 <= i < |e.newFiles| => (e.newFiles[i].0, ToFile(disk, e.newFiles[i].1))))
  }

  function ToEdits(disk: Disk, es: seq<VersionEdit>): (r: seq<Edit>)
    ensures |r| == |es|
  {
    seq(|es|, i requires 0 <= i < |es| => ToEdit(disk, es[i]))
  }

  // ----- The counters of the manifest: the last one written counts -----

  datatype Counters = Counters(next: Option<nat>, log: Option<nat>, prev: Option<nat>, last: Option<nat>)

  function Or(a: Option<nat>, b: Option<nat>): Option<nat> {
    if a.Some? then a else b
  }

  function Later(c: Counters, e: VersionEdit): Counters {
    Counters(Or(e.nextFileNumber, c.next), Or(e.logNumber, c.log), Or(e.prevLogNumber, c.prev), Or(e.lastSequence, c.last))
  }

  function CountersOf(es: seq<VersionEdit>): Counters {
    if es == [] then Counters(None, None, None, None) else Later(CountersOf(es[..|es| - 1]), es[|es| - 1])
  }

  datatype Which = Next | Log | Prev | Last

  function NumberIn(e: VersionEdit, w: Which): Option<nat> {
    match w
    case Next => e.nextFileNumber
    case Log => e.logNumber
    case Prev => e.prevLogNumber
    case Last => e.lastSequence
  }

  function NumberOf(c: Counters, w: Which): Option<nat> {
    match w
    case Next => c.next
    case Log => c.log
    case Prev => c.prev
    case Last => c.last
  }

  ghost predicate Written(es: seq<VersionEdit>, w: Which) {
    exists i | 0 <= i < |es| :: NumberIn(es[i], w).Some?
  }

  /** x is in one of the edits, and no later one has another. */
  ghost predicate Latest(es: seq<VersionEdit>, w: Which, x: nat) {
    exists i | 0 <= i < |es| :: NumberIn(es[i], w) == Some(x) && forall j | i < j < |es| :: NumberIn(es[j], w) == None
  }

  lemma {:induction false} CountersAreLatest(es: seq<VersionEdit>, w: Which)
    ensures var x := NumberOf(CountersOf(es), w);
      (x.Some? <==> Written(es, w)) && (x.Some? ==> Latest(es, w, x.value))
  {
    if es != [] {
      var n := |es| - 1;
      var before, x := NumberOf(CountersOf(es[..n]), w), NumberOf(CountersOf(es), w);
      CountersAreLatest(es[..n], w);
      assert x == Or(NumberIn(es[n], w), before);
      hide CountersOf, NumberIn, NumberOf;
      if NumberIn(es[n], w).None? && before.Some? {
        var i :| 0 <= i < n && NumberIn(es[..n][i], w) == before && forall j | i < j < n :: NumberIn(es[..n][j], w) == None;
        assert NumberIn(es[i], w) == before;
        forall j | i < j < |es| ensures NumberIn(es[j], w) == None {
          assert j < n ==> es[..n][j] == es[j];
        }
      }
      if NumberIn(es[n], w).None? && before.None? {
        forall i | 0 <= i < |es| ensures NumberIn(es[i], w).None? {
          assert i < n ==> es[..n][i] == es[i];
        }
      }
    }
  }

  /** Every record decodes and names the right comparator, if it names one. */
  function DecodeAll(records: seq<Bytes>, name: Bytes): (r: Option<seq<VersionEdit>>)
    ensures r.Some? ==> |r.value| == |records|
  {
    if records == [] then Some([])
    else
      var n := |records| - 1;
      var es, e := DecodeAll(records[..n], name), Decode(records[n]);
      if es.None? || e.None? || (e.value.comparator.Some? && e.value.comparator.value != name) then None
      else Some(es.value + [e.value])
  }

  datatype Recovered = Recovered(version: Version, manifestFileNumber: nat, nextFileNumber: nat, lastSequence: nat,
                                 logNumber: nat, prevLogNumber: nat)

  function SavedVersion(edits: seq<Edit>): (v: Version)
    ensures |v.levels| == NUM_LEVELS
  {
    Version(seq(NUM_LEVELS, l requires 0 <= l < NUM_LEVELS => SaveLevel([], BatchLevel(edits, l))))
  }

  function Outcome(records: seq<Bytes>, reported: bool, name: Bytes, disk: Disk): Option<Recovered> {
    var es := DecodeAll(records, name);
    if reported || es.None? then None
    else
      var c := CountersOf(es.value);
      if c.next.None? || c.log.None? || c.last.None? then None
      else
        Some(Recovered(SavedVersion(ToEdits(disk, es.value)), c.next.value, c.next.value + 1, c.last.value, c.log.value,
                       if c.prev.Some? then c.prev.value else 0))
  }

  lemma {:induction false} DecodedLevels(e: VersionEdit, input: Bytes)
    requires forall i | 0 <= i < |e.newFiles| :: e.newFiles[i].0 < NUM_LEVELS
    ensures DecodeRest(e, input).Some? ==>
      forall i | 0 <= i < |DecodeRest(e, input).value.newFiles| :: DecodeRest(e, input).value.newFiles[i].0 < NUM_LEVELS
    decreases |input|
  {
    hide Take64, TakeSlice, TakeLevel, Take32;
    var tag := Take32(input);
    if tag.Some? {
      var field := TakeField(tag.value.0, tag.value.1);
      if field.Some? {
        FieldLevel(tag.value.0, tag.value.1);
        DecodedLevels(AddItem(e, field.value.0), field.value.1);
      }
    }
  }

  lemma FieldLevel(tag: nat, s: Bytes)
    ensures var f := TakeField(tag, s); f.Some? && f.value.0.NewFile? ==> f.value.0.level < NUM_LEVELS
  {
    hide Take64, TakeSlice, Take32;
  }

  /** The loop of Recover: applies every record of the manifest. */
  method ApplyRecords(manifest: Bytes, name: Bytes, disk: Disk, builder: Builder) returns (counters: Option<Counters>)
    requires builder.Valid() && forall l | 0 <= l < NUM_LEVELS :: builder.levels[l] == EMPTY
    modifies builder
    ensures builder.Valid()
    ensures var all := LogReader.ReadAll(manifest, 0);
      var es := DecodeAll(all.0, name);
      && (counters.Some? <==> all.1 == [] && es.Some?)
      && (counters.Some? ==> counters.value == CountersOf(es.value))
      && (counters.Some? ==> forall l | 0 <= l < NUM_LEVELS :: builder.levels[l] == BatchLevel(ToEdits(disk, es.value), l))
  {
    hide LogReader.LogicalAt, LogReader.ReadAll, Decode, ApplyLevel, LogReader.Buffered, BatchLevel, DecodeAll, CountersOf, Later, ToEdits;
    var reader := new LogReader.Reader(manifest);
    var c := Counters(None, None, None, None);
    ghost var all := LogReader.ReadAll(manifest, 0);
    ghost var done: seq<VersionEdit> := [];
    NothingYet(all.0, name, disk);
    while true
      invariant reader.Valid() && builder.Valid() && fresh(reader) && reader.file == manifest && reader.reports == []
      invariant |done| <= |all.0| && DecodeAll(all.0[..|done|], name) == Some(done)
      invariant LogReader.ReadAll(manifest, reader.Pos()) == (all.0[|done|..], all.1)
      invariant c == CountersOf(done)
      invariant forall l | 0 <= l < NUM_LEVELS :: builder.levels[l] == BatchLevel(ToEdits(disk, done), l)
      decreases |manifest| - reader.Pos()
    {
      LogReader.NextRecord(manifest, reader.Pos(), all, |done|);
      var ok, record := reader.ReadRecord();
      if reader.reports != [] {
        return None;
      }
      if !ok {
        assert all.0[..|done|] == all.0;
        return Some(c);
      }
      var edit := DecodeFrom(record);
      DecodeOneMore(all.0, |done|, name);
      if edit.None? || (edit.value.comparator.Some? && edit.value.comparator.value != name) {
        StaysUndecoded(all.0, |done| + 1, name);
        return None;
      }
      LevelsInRange(disk, record);
      builder.Apply(ToEdit(disk, edit.value));
      c := Later(c, edit.value);
      OneMore(disk, done, edit.value);
      done := done + [edit.value];
    }
  }

  lemma NothingYet(records: seq<Bytes>, name: Bytes, disk: Disk)
    ensures records[0..] == records && DecodeAll(records[..0], name) == Some([])
    ensures CountersOf([]) == Counters(None, None, None, None)
    ensures forall l | 0 <= l < NUM_LEVELS :: BatchLevel(ToEdits(disk, []), l) == EMPTY
  {
  }

  lemma DecodeOneMore(records: seq<Bytes>, n: nat, name: Bytes)
    requires n < |records| && DecodeAll(records[..n], name).Some?
    ensures var e := Decode(records[n]);
      DecodeAll(records[..n + 1], name)
        == if e.None? || (e.value.comparator.Some? && e.value.comparator.value != name) then None
           else Some(DecodeAll(records[..n], name).value + [e.value])
  {
    hide Decode;
    assert records[..n + 1][..n] == records[..n];
  }

  lemma LevelsInRange(disk: Disk, record: Bytes)
    requires Decode(record).Some?
    ensures var e := ToEdit(disk, Decode(record).value);
      forall i | 0 <= i < |e.added| :: e.added[i].0 < NUM_LEVELS
  {
    hide DecodeRest;
    DecodedLevels(CLEAR, record);
  }

  lemma OneMore(disk: Disk, done: seq<VersionEdit>, e: VersionEdit)
    ensures CountersOf(done + [e]) == Later(CountersOf(done), e)
    ensures forall l | 0 <= l < NUM_LEVELS ::
              BatchLevel(ToEdits(disk, done + [e]), l) == ApplyLevel(BatchLevel(ToEdits(disk, done), l), l, ToEdit(disk, e))
  {
    hide ApplyLevel, ToEdit, Later;
    assert (done + [e])[..|done|] == done;
    assert ToEdits(disk, done + [e])[..|done|] == ToEdits(disk, done);
  }

  method Recover(manifest: Bytes, name: Bytes, disk: Disk) returns (r: Option<Recovered>)
    ensures var all := LogReader.ReadAll(manifest, 0);
      r == Outcome(all.0, all.1 != [], name, disk)
  {
    hide LogReader.ReadAll, DecodeAll, CountersOf, SaveLevel, BatchLevel, ToEdits;
    var builder := new Builder();
    var c := ApplyRecords(manifest, name, disk, builder);
    if c.None? {
      return None;
    }
    var counters := c.value;
    if counters.next.None? || counters.log.None? || counters.last.None? {
      return None;
    }
    ghost var edits := ToEdits(disk, DecodeAll(LogReader.ReadAll(manifest, 0).0, name).value);
    var levels: seq<seq<File>> := [];
    for level := 0 to NUM_LEVELS
      invariant |levels| == level && builder.Valid()
      invariant forall l | 0 <= l < NUM_LEVELS :: builder.levels[l] == BatchLevel(edits, l)
      invariant forall l | 0 <= l < level :: levels[l] == SaveLevel([], BatchLevel(edits, l))
    {
      var files := builder.SaveLevelTo(level, []);
      levels := levels + [files];
    }
    assert levels == SavedVersion(edits).levels;
    r := Some(Recovered(Version(levels), counters.next.value, counters.next.value + 1, counters.last.value, counters.log.value,
                        if counters.prev.Some? then counters.prev.value else 0));
  }

  lemma {:induction false} StaysUndecoded(records: seq<Bytes>, n: nat, name: Bytes)
    requires n <= |records| && DecodeAll(records[..n], name).None?
    ensures DecodeAll(records, name).None?
    decreases |records|
  {
    hide Decode;
    if n < |records| {
      var front := records[..|records| - 1];
      assert front[..n] == records[..n];
      StaysUndecoded(front, n, name);
    } else {
      assert records[..n] == records;
    }
  }

  // ----- A manifest that was written, and perhaps cut short -----

  function Encoded(es: seq<VersionEdit>): (r: seq<Bytes>)
    ensures |r| == |es|
  {
    seq(|es|, i requires 0 <= i < |es| => Encode(es[i]))
  }

  lemma {:induction false} EncodedDecodes(es: seq<VersionEdit>, name: Bytes)
    requires forall e | e in es :: Fits(e) && (e.comparator.Some? ==> e.comparator.value == name)
    ensures DecodeAll(Encoded(es), name) == Some(es)
  {
    hide Decode, Encode, Fits;
    if es != [] {
      var n := |es| - 1;
      assert Encoded(es)[..n] == Encoded(es[..n]);
      EncodedDecodes(es[..n], name);
      assert es[n] in es;
      EditRoundTrip(es[n]);
      assert es[..n] + [es[n]] == es;
    }
  }

  const NO_FILES: Version := Version(seq(NUM_LEVELS, _ => []))

  /** How many edits a manifest cut at `size` still holds. */
  function Survivors(es: seq<VersionEdit>, size: nat): (k: nat)
    ensures k <= |es|
  {
    LogReader.Complete(0, Encoded(es), size)
  }

  predicate ReadsAsEdit(record: Bytes, name: Bytes) {
    var e := Decode(record);
    e.Some? && (e.value.comparator.Some? ==> e.value.comparator.value == name)
  }

  lemma {:induction false} DecodesExactly(records: seq<Bytes>, name: Bytes)
    ensures DecodeAll(records, name).Some? <==> forall i | 0 <= i < |records| :: ReadsAsEdit(records[i], name)
    ensures DecodeAll(records, name).Some? ==>
      forall i | 0 <= i < |records| :: Decode(records[i]) == Some(DecodeAll(records, name).value[i])
  {
    hide Decode;
    if records != [] {
      var n := |records| - 1;
      DecodesExactly(records[..n], name);
      assert forall i | 0 <= i < n :: records[..n][i] == records[i];
    }
  }

  ghost predicate WrittenIn(records: seq<Bytes>, w: Which) {
    exists i | 0 <= i < |records| :: Decode(records[i]).Some? && NumberIn(Decode(records[i]).value, w).Some?
  }

  /** Recover refuses exactly a manifest with a report from the log, a record
      that is no edit, another comparator, or no counter to start from. */
  lemma RefusesExactly(records: seq<Bytes>, reported: bool, name: Bytes, disk: Disk)
    ensures Outcome(records, reported, name, disk).Some? <==>
      && !reported && (forall i | 0 <= i < |records| :: ReadsAsEdit(records[i], name))
      && WrittenIn(records, Next) && WrittenIn(records, Log) && WrittenIn(records, Last)
  {
    hide Decode, DecodeAll, CountersOf, SavedVersion, NumberIn;
    DecodesExactly(records, name);
    if DecodeAll(records, name).Some? {
      var es := DecodeAll(records, name).value;
      forall w: Which ensures NumberOf(CountersOf(es), w).Some? <==> WrittenIn(records, w) {
        CountersAreLatest(es, w);
      }
      assert NumberOf(CountersOf(es), Next) == CountersOf(es).next && NumberOf(CountersOf(es), Log) == CountersOf(es).log;
      assert NumberOf(CountersOf(es), Last) == CountersOf(es).last;
    }
  }

  /** Wherever the manifest was cut off, Recover finds the version that the live
      run had after the edits that were completely written, with the counters
      last written. */
  lemma RecoverRebuilds(manifest: Bytes, es: seq<VersionEdit>, name: Bytes, disk: Disk)
    requires forall e | e in es :: Fits(e) && (e.comparator.Some? ==> e.comparator.value == name)
    requires manifest <= LogWriter.Log(0, Encoded(es))
    requires var kept := es[..Survivors(es, |manifest|)];
      forall l | 0 <= l < NUM_LEVELS :: FreshAdds([], ToEdits(disk, kept), l)
    ensures var kept := es[..Survivors(es, |manifest|)];
      var all := LogReader.ReadAll(manifest, 0);
      var r := Outcome(all.0, all.1 != [], name, disk);
      && (r.Some? <==> Written(kept, Next) && Written(kept, Log) && Written(kept, Last))
      && (r.Some? ==>
            && r.value.version == ReplayVersion(NO_FILES, ToEdits(disk, kept))
            && Latest(kept, Last, r.value.lastSequence) && Latest(kept, Log, r.value.logNumber)
            && Latest(kept, Next, r.value.manifestFileNumber) && r.value.nextFileNumber == r.value.manifestFileNumber + 1
            && (if Written(kept, Prev) then Latest(kept, Prev, r.value.prevLogNumber) else r.value.prevLogNumber == 0))
  {
    hide *;
    var kept := es[..Survivors(es, |manifest|)];
    var records := LogReader.ReadAll(manifest, 0).0;
    KeptIsDecoded(manifest, es, name);
    OutcomeIs(records, name, disk);
    SavedIsLive(ToEdits(disk, kept));
    CountersAreLatest(kept, Next);
    CountersAreLatest(kept, Log);
    CountersAreLatest(kept, Prev);
    CountersAreLatest(kept, Last);
    FourNumbers(CountersOf(kept));
  }

  lemma FourNumbers(c: Counters)
    ensures NumberOf(c, Next) == c.next && NumberOf(c, Log) == c.log && NumberOf(c, Prev) == c.prev && NumberOf(c, Last) == c.last
  {
  }

  lemma KeptIsDecoded(manifest: Bytes, es: seq<VersionEdit>, name: Bytes)
    requires forall e | e in es :: Fits(e) && (e.comparator.Some? ==> e.comparator.value == name)
    requires manifest <= LogWriter.Log(0, Encoded(es))
    ensures var all := LogReader.ReadAll(manifest, 0);
      all.1 == [] && DecodeAll(all.0, name) == Some(es[..Survivors(es, |manifest|)])
  {
    hide LogReader.ReadAll, LogWriter.Log, LogReader.Complete, Encode, Fits, DecodeAll;
    var k := Survivors(es, |manifest|);
    assert manifest[0..] == manifest;
    LogReader.TruncatedLogReads(manifest, 0, Encoded(es));
    assert Encoded(es)[..k] == Encoded(es[..k]);
    EncodedDecodes(es[..k], name);
  }

  lemma OutcomeIs(records: seq<Bytes>, name: Bytes, disk: Disk)
    requires DecodeAll(records, name).Some?
    ensures var es := DecodeAll(records, name).value; var c := CountersOf(es);
      Outcome(records, false, name, disk) ==
        if c.next.None? || c.log.None? || c.last.None? then None
        else Some(Recovered(SavedVersion(ToEdits(disk, es)), c.next.value, c.next.value + 1, c.last.value, c.log.value,
                            if c.prev.Some? then c.prev.value else 0))
  {
    hide DecodeAll, CountersOf, SavedVersion, ToEdits;
  }

  lemma SavedIsLive(edits: seq<Edit>)
    requires forall l | 0 <= l < NUM_LEVELS :: FreshAdds([], edits, l)
    ensures SavedVersion(edits) == ReplayVersion(NO_FILES, edits)
  {
    hide SaveLevel, BatchLevel, FreshAdds, OneByOne, ReplayVersion;
    forall l | 0 <= l < NUM_LEVELS ensures SavedVersion(edits).levels[l] == ReplayVersion(NO_FILES, edits).levels[l] {
      ReplayEqualsLiveRun([], edits, l);
      ReplayVersionLevel(NO_FILES, edits, l);
    }
    assert SavedVersion(edits).levels == ReplayVersion(NO_FILES, edits).levels;
  }
}
