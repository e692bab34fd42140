/** DBImpl::Recover and RecoverLogFile: logs back into memtables, memtables into
    level-0 tables, and the version that holds them. */
module Recovery {
  import opened DbFormat
  import opened Versions
  import opened VersionBuilder
  import opened CompactionWork
  import opened LsmTree
  import opened LsmSteps
  import opened WriteBatches
  import Coding
  import Comparator
  import LogReader
  import LogWriter
  import MemTables
  import opened Durability
  import opened DurableTree

  /** A batch as the writer logged it. */
  datatype Batch = Batch(sequence: nat, ops: seq<BatchOp>)

  ghost predicate Writable(b: Batch) {
    && 0 < b.sequence && b.sequence + |b.ops| <= MAX_SEQUENCE && |b.ops| < 0x8000_0000
    && forall op | op in b.ops :: Sized(op)
  }

  ghost predicate AllWritable(bs: seq<Batch>) {
    forall i | 0 <= i < |bs| :: Writable(bs[i])
  }

  /** Each batch begins after the one before it ended. */
  ghost predicate InOrder(bs: seq<Batch>) {
    forall i, j | 0 <= i < j < |bs| :: bs[i].sequence + |bs[i].ops| <= bs[j].sequence
  }

  function BytesOf(b: Batch): Bytes
    requires b.sequence < Coding.LIMIT64 && |b.ops| < Coding.LIMIT32
  {
    Rep(b.sequence, b.ops)
  }

  /** The records of a log. */
  ghost function Payloads(bs: seq<Batch>): seq<Bytes>
    requires AllWritable(bs)
  {
    seq(|bs|, i requires 0 <= i < |bs| => BytesOf(bs[i]))
  }

  /** The batches of a log whose records are complete in the file. */
  ghost function Surviving(file: Bytes, written: seq<Batch>): seq<Batch>
    requires AllWritable(written)
  {
    written[..LogReader.Complete(0, Payloads(written), |file|)]
  }

  ghost function EntriesOf(b: Batch): set<Entry> {
    BatchEntries(b.ops, b.sequence)
  }

  ghost function Logged(bs: seq<Batch>): set<Entry> {
    if bs == [] then {} else Logged(bs[..|bs| - 1]) + EntriesOf(bs[|bs| - 1])
  }

  /** The last sequence number of a batch. */
  function LastOf(b: Batch): int {
    b.sequence + |b.ops| - 1
  }

  /** max_sequence */
  function Highest(bs: seq<Batch>): nat {
    if bs == [] then 0
    else
      var high, last := Highest(bs[..|bs| - 1]), LastOf(bs[|bs| - 1]);
      if last > high then last else high
  }

  // ----- The entries of a list of batches -----

  lemma LoggedNext(bs: seq<Batch>, n: nat)
    requires n < |bs|
    ensures Logged(bs[..n + 1]) == Logged(bs[..n]) + EntriesOf(bs[n])
    ensures Highest(bs[..n + 1]) == if LastOf(bs[n]) > Highest(bs[..n]) then LastOf(bs[n]) else Highest(bs[..n])
  {
    assert bs[..n + 1][..n] == bs[..n];
  }

  lemma {:induction false} LoggedIn(bs: seq<Batch>, e: Entry) returns (i: nat)
    requires e in Logged(bs)
    ensures i < |bs| && e in EntriesOf(bs[i])
  {
    hide EntriesOf;
    var n := |bs| - 1;
    if e in EntriesOf(bs[n]) {
      i := n;
    } else {
      i := LoggedIn(bs[..n], e);
    }
  }

  lemma EntryRange(b: Batch, e: Entry)
    requires e in EntriesOf(b)
    ensures b.sequence <= e.key.seqno < b.sequence + |b.ops|
    ensures e == OpEntry(OpOf(b.ops[e.key.seqno - b.sequence]), e.key.seqno)
  {
    var i :| 0 <= i < |b.ops| && e == OpEntry(OpOf(b.ops[i]), b.sequence + i);
    EntryNumber(b.ops[i], b.sequence + i);
  }

  /** A batch is newer than those before it. */
  lemma LoggedBelow(bs: seq<Batch>, n: nat)
    requires InOrder(bs) && n < |bs|
    ensures forall e | e in Logged(bs[..n]) :: e.key.seqno < bs[n].sequence
    ensures Newer(EntriesOf(bs[n]), Logged(bs[..n]))
  {
    hide EntriesOf;
    forall e | e in Logged(bs[..n]) ensures e.key.seqno < bs[n].sequence {
      var i := LoggedIn(bs[..n], e);
      EntryRange(bs[i], e);
    }
    forall e | e in EntriesOf(bs[n]) ensures bs[n].sequence <= e.key.seqno {
      EntryRange(bs[n], e);
    }
  }

  // ----- What recovery has at any moment -----

  /** The recovered tables: numbered upwards from `first`, newer ones later. */
  ghost predicate Stacked(files: seq<File>, first: nat, next: nat) {
    && first <= next
    && (forall i | 0 <= i < |files| :: files[i].Valid() && first <= files[i].number < next)
    && (forall i, j | 0 <= i < j < |files| :: files[i].number < files[j].number && Newer(files[j].Set(), files[i].Set()))
  }

  /** Tables and memtable hold the batches read so far, the memtable the newer ones. */
  ghost predicate Holding(files: seq<File>, mem: set<Entry>, bs: seq<Batch>) {
    LevelEntries(files) + mem == Logged(bs) && Newer(mem, LevelEntries(files))
  }

  lemma BatchHolds(files: seq<File>, mem: set<Entry>, bs: seq<Batch>, n: nat)
    requires InOrder(bs) && n < |bs| && Holding(files, mem, bs[..n])
    ensures Holding(files, mem + EntriesOf(bs[n]), bs[..n + 1])
    ensures Free(mem, bs[n].ops, bs[n].sequence)
  {
    hide EntriesOf, LevelEntries, Logged, InOrder;
    LoggedNext(bs, n);
    LoggedBelow(bs, n);
    forall i | 0 <= i < |bs[n].ops| ensures OpEntry(OpOf(bs[n].ops[i]), bs[n].sequence + i).key.seqno == bs[n].sequence + i {
      EntryNumber(bs[n].ops[i], bs[n].sequence + i);
    }
  }

  lemma LevelGrows(files: seq<File>, f: File)
    ensures LevelEntries(files + [f]) == LevelEntries(files) + f.Set()
  {
    var more := files + [f];
    assert forall i | 0 <= i < |files| :: more[i] == files[i];
    assert more[|files|] == f;
  }

  lemma TableHolds(files: seq<File>, mem: set<Entry>, bs: seq<Batch>, f: File, first: nat, next: nat)
    requires Holding(files, mem, bs) && Stacked(files, first, next)
    requires f.Valid() && f.number == next && f.Set() == mem
    ensures Holding(files + [f], {}, bs) && Stacked(files + [f], first, next + 1)
  {
    LevelGrows(files, f);
    StackGrows(files, f, first, next);
    NothingNewer(LevelEntries(files + [f]));
    hide LevelEntries, Logged, Newer, Stacked;
    assert LevelEntries(files + [f]) + {} == LevelEntries(files) + mem;
  }

  lemma StackGrows(files: seq<File>, f: File, first: nat, next: nat)
    requires Stacked(files, first, next) && f.Valid() && f.number == next && Newer(f.Set(), LevelEntries(files))
    ensures Stacked(files + [f], first, next + 1)
  {
    forall i | 0 <= i < |files| ensures Newer(f.Set(), files[i].Set()) {
      NewerThanFile(files, i, f.Set());
    }
    hide Newer, LevelEntries;
  }

  lemma NewerThanFile(files: seq<File>, i: nat, S: set<Entry>)
    requires i < |files| && Newer(S, LevelEntries(files))
    ensures Newer(S, files[i].Set())
  {
    forall e | e in files[i].Set() ensures e in LevelEntries(files) {
      InLevelEntries(files, files[i], e);
    }
    hide LevelEntries;
  }

  lemma NothingNewer(S: set<Entry>)
    ensures Newer({}, S)
  {
  }

  // ----- A table of a memtable -----

  /** What the memtable's iterator shows of an entry. */
  function EntryAt(entry: Bytes): Entry {
    var key := MemTables.KeyOf(entry);
    var packed := MemTables.PackedPart(key);
    Entry(InternalKey(Comparator.Embed(Comparator.UserPart(key)), packed / 256, if packed % 256 == 1 then TypeValue else TypeDeletion),
          MemTables.ValueOf(entry))
  }

  lemma EntryAtIs(r: MemTables.Record)
    requires MemTables.Sound(r)
    ensures EntryAt(MemTables.EncodeRecord(r)) == MemTables.EntryOf(r)
  {
    hide MemTables.KeyOf, MemTables.ValueOf, MemTables.EncodeRecord, Comparator.EncodeKey, Comparator.Embed, Comparator.ExtractPacked,
         Comparator.ExtractUserKey;
    MemTables.RecordReads(r);
    Comparator.KeyParts(r.user, MemTables.Tag(r.seqno, r.kind));
  }

  lemma TableInOrder(records: seq<MemTables.Record>, entries: seq<Entry>)
    requires MemTables.Sorted(records) && |entries| == |records|
    requires forall i | 0 <= i < |records| :: entries[i] == MemTables.EntryOf(records[i])
    ensures SortedEntries(entries) && Contents(entries) == MemTables.Entries(records)
  {
    hide Less, MemTables.EntryOf;
    forall e ensures e in Contents(entries) <==> e in MemTables.Entries(records) {
      if e in entries {
        var i :| 0 <= i < |entries| && entries[i] == e;
        assert records[i] in records;
      }
      if e in MemTables.Entries(records) {
        var r :| r in records && MemTables.EntryOf(r) == e;
        var i :| 0 <= i < |records| && records[i] == r;
        assert entries[i] == e;
      }
    }
  }

  /** WriteLevel0Table with no version to pick a level from: a table with what
      the memtable holds, and none for an empty one. */
  method WriteLevel0Table(mem: MemTables.MemTable, number: nat, size: nat) returns (f: Option<File>)
    requires mem.Valid()
    ensures f.None? <==> mem.Contents() == {}
    ensures f.Some? ==> f.value.Valid() && f.value.number == number && f.value.Set() == mem.Contents()
  {
    hide MemTables.EntryOf, MemTables.EncodeRecord, EntryAt, Less;
    var entries := [];
    for i := 0 to |mem.table|
      invariant |entries| == i && forall j | 0 <= j < i :: entries[j] == MemTables.EntryOf(mem.records[j])
    {
      EntryAtIs(mem.records[i]);
      entries := entries + [EntryAt(mem.table[i])];
    }
    TableInOrder(mem.records, entries);
    if |entries| == 0 {
      return None;
    }
    assert entries[0] in Contents(entries);
    f := Some(FinishFile(number, size, entries));
  }

  // ----- One log -----

  lemma PayloadsAre(bs: seq<Batch>)
    requires AllWritable(bs)
    ensures |Payloads(bs)| == |bs| && forall i | 0 <= i < |bs| :: Payloads(bs)[i] == BytesOf(bs[i])
  {
    hide BytesOf;
  }

  /** SetContents and InsertInto for one record of the log, and the running
      maximum of the sequence numbers. */
  method InsertRecord(batch: WriteBatch, mem: MemTables.MemTable, record: Bytes, maxSequence: nat, ghost b: Batch)
    returns (higher: nat)
    requires mem.Valid() && Writable(b) && record == BytesOf(b) && Free(mem.Contents(), b.ops, b.sequence)
    modifies batch, mem
    ensures mem.Valid() && mem.Contents() == old(mem.Contents()) + EntriesOf(b)
    ensures higher == if LastOf(b) > maxSequence then LastOf(b) else maxSequence
  {
    hide Rep, Free, BatchEntries;
    RepSize(b);
    batch.SetContents(record, b.sequence, b.ops);
    var status := InsertInto(batch, mem);
    batch.HeaderReads();
    var last := batch.Sequence() + batch.Count() - 1;
    higher := if last > maxSequence then last else maxSequence;
  }

  /** The memtable so far becomes one more table of the edit. */
  method Flush(mem: MemTables.MemTable, files: seq<File>, first: nat, next: nat, size: nat, ghost bs: seq<Batch>)
    returns (more: seq<File>, next': nat)
    requires mem.Valid() && Holding(files, mem.Contents(), bs) && Stacked(files, first, next)
    ensures Holding(more, {}, bs) && Stacked(more, first, next') && next <= next'
  {
    hide Holding;
    var f := WriteLevel0Table(mem, next, size);
    if f.None? {
      more, next' := files, next;
    } else {
      TableHolds(files, mem.Contents(), bs, f.value, first, next);
      more, next' := files + [f.value], next + 1;
    }
  }

  /** RecoverLogFile on a log that a crash may have cut off anywhere: the batches
      that are complete in it are in the recovered tables afterwards, with those
      of earlier logs, and their highest sequence number is known. */
  method RecoverLogFile(file: Bytes, files: seq<File>, first: nat, next: nat, maxSequence: nat,
                        ghost earlier: seq<Batch>, ghost written: seq<Batch>)
    returns (files': seq<File>, next': nat, maxSequence': nat)
    requires AllWritable(written) && file <= LogWriter.Log(0, Payloads(written))
    requires InOrder(earlier + Surviving(file, written))
    requires Holding(files, {}, earlier) && Stacked(files, first, next) && maxSequence == Highest(earlier)
    ensures Holding(files', {}, earlier + Surviving(file, written)) && Stacked(files', first, next') && next <= next'
    ensures maxSequence' == Highest(earlier + Surviving(file, written))
  {
    hide *;
    ghost var survivors := Surviving(file, written);
    ghost var bs := earlier + survivors;
    ghost var all := LogReader.ReadAll(file, 0);
    SurvivorsAreRead(file, written);
    var reader := new LogReader.Reader(file);
    var batch := new WriteBatch();
    var mem: MemTables.MemTable? := null;
    ghost var n: nat := 0;
    files', next', maxSequence' := files, next, maxSequence;
    assert bs[..|earlier|] == earlier && all.0[0..] == all.0;
    while true
      invariant reader.Valid() && fresh(reader) && fresh(batch) && reader.file == file
      invariant reader.Pos() <= |file|
      invariant n <= |survivors| && LogReader.ReadAll(file, reader.Pos()) == (all.0[n..], all.1)
      invariant mem != null ==> mem.Valid() && fresh(mem)
      invariant Holding(files', if mem == null then {} else mem.Contents(), bs[..|earlier| + n]) && Stacked(files', first, next')
      invariant maxSequence' == Highest(bs[..|earlier| + n]) && next <= next'
      decreases |file| - reader.Pos()
    {
      LogReader.NextRecord(file, reader.Pos(), all, n);
      RecordEndsLater(file, reader.Pos());
      var ok, record := reader.ReadRecord();
      if !ok {
        break;
      }
      SurvivorIs(file, written, n);
      if |record| < HEADER {
        // log record too small
        assert false;
      }
      if mem == null {
        mem := new MemTables.MemTable();
      }
      BatchHolds(files', mem.Contents(), bs, |earlier| + n);
      LoggedNext(bs, |earlier| + n);
      maxSequence' := InsertRecord(batch, mem, record, maxSequence', survivors[n]);
      n := n + 1;
      // ApproximateMemoryUsage() > write_buffer_size
      var full: bool := *;
      if full {
        var size: nat := *;
        files', next' := Flush(mem, files', first, next', size, bs[..|earlier| + n]);
        mem := null;
      }
    }
    assert bs[..|earlier| + n] == bs;
    if mem != null {
      var size: nat := *;
      files', next' := Flush(mem, files', first, next', size, bs);
    }
  }

  lemma RecordEndsLater(file: Bytes, pos: nat)
    requires pos <= |file|
    ensures var l := LogReader.LogicalAt(file, pos, false, []); l.next <= |file| && (l.Record? ==> pos < l.next)
  {
    hide LogReader.LogicalAt;
  }

  lemma SurvivorsAreRead(file: Bytes, written: seq<Batch>)
    requires AllWritable(written) && file <= LogWriter.Log(0, Payloads(written))
    ensures LogReader.ReadAll(file, 0) == (Payloads(written)[..|Surviving(file, written)|], [])
    ensures |Payloads(written)| == |written| && |Surviving(file, written)| <= |written|
  {
    hide LogReader.ReadAll, LogWriter.Log, LogReader.Complete;
    assert file[0..] == file;
    LogReader.TruncatedLogReads(file, 0, Payloads(written));
  }

  lemma SurvivorIs(file: Bytes, written: seq<Batch>, n: nat)
    requires AllWritable(written) && n < |Surviving(file, written)|
    ensures n < |written| && Surviving(file, written)[n] == written[n] && Writable(written[n])
    ensures n < |Payloads(written)| && Payloads(written)[n] == BytesOf(written[n]) && |BytesOf(written[n])| >= HEADER
  {
    hide LogReader.Complete, Rep, Writable;
    PayloadsAre(written);
    RepSize(written[n]);
  }

  lemma RepSize(b: Batch)
    requires Writable(b)
    ensures |BytesOf(b)| >= HEADER
  {
  }

  // ----- All the logs -----

  /** What survives in the first n logs. */
  ghost function SurvivingIn(logs: seq<Bytes>, written: seq<seq<Batch>>, n: nat): seq<Batch>
    requires |written| == |logs| && n <= |logs| && forall i | 0 <= i < |logs| :: AllWritable(written[i])
  {
    if n == 0 then [] else SurvivingIn(logs, written, n - 1) + Surviving(logs[n - 1], written[n - 1])
  }

  ghost predicate LogsWritten(logs: seq<Bytes>, written: seq<seq<Batch>>) {
    && |written| == |logs|
    && forall i | 0 <= i < |logs| :: AllWritable(written[i]) && logs[i] <= LogWriter.Log(0, Payloads(written[i]))
  }

  lemma LogIs(logs: seq<Bytes>, written: seq<seq<Batch>>, i: nat)
    requires LogsWritten(logs, written) && i < |logs|
    ensures |written| == |logs| && (forall j | 0 <= j < |logs| :: AllWritable(written[j]))
    ensures logs[i] <= LogWriter.Log(0, Payloads(written[i]))
    ensures SurvivingIn(logs, written, i + 1) == SurvivingIn(logs, written, i) + Surviving(logs[i], written[i])
  {
    hide LogWriter.Log, Surviving;
  }

  lemma {:induction false} SurvivingGrows(logs: seq<Bytes>, written: seq<seq<Batch>>, i: nat, n: nat)
    requires LogsWritten(logs, written) && i <= n <= |logs|
    ensures SurvivingIn(logs, written, i) <= SurvivingIn(logs, written, n)
  {
    hide LogWriter.Log, Surviving;
    if i < n {
      SurvivingGrows(logs, written, i, n - 1);
    }
  }

  lemma OrderedPrefix(a: seq<Batch>, b: seq<Batch>)
    requires InOrder(b) && a <= b
    ensures InOrder(a)
  {
  }

  lemma NothingRecovered(first: nat)
    ensures Holding([], {}, []) && Stacked([], first, first) && Highest([]) == 0
  {
  }

  lemma StackedLater(files: seq<File>, first: nat, next: nat, later: nat)
    requires Stacked(files, first, next) && next <= later
    ensures Stacked(files, first, later)
  {
  }

  /** The log part of DBImpl::Recover: the logs in the order of their numbers. */
  method RecoverLogs(numbers: seq<nat>, logs: seq<Bytes>, first: nat, ghost written: seq<seq<Batch>>)
    returns (files: seq<File>, next: nat, maxSequence: nat)
    requires |numbers| == |logs| && LogsWritten(logs, written) && InOrder(SurvivingIn(logs, written, |logs|))
    ensures Holding(files, {}, SurvivingIn(logs, written, |logs|)) && Stacked(files, first, next)
    ensures maxSequence == Highest(SurvivingIn(logs, written, |logs|))
    ensures forall i | 0 <= i < |numbers| :: numbers[i] < next
  {
    hide *;
    NothingRecovered(first);
    NoneSurviving(logs, written);
    files, next, maxSequence := [], first, 0;
    for i := 0 to |logs|
      invariant Holding(files, {}, SurvivingIn(logs, written, i)) && Stacked(files, first, next)
      invariant maxSequence == Highest(SurvivingIn(logs, written, i))
      invariant forall j | 0 <= j < i :: numbers[j] < next
    {
      LogIs(logs, written, i);
      SurvivingGrows(logs, written, i + 1, |logs|);
      OrderedPrefix(SurvivingIn(logs, written, i + 1), SurvivingIn(logs, written, |logs|));
      files, next, maxSequence :=
        RecoverLogFile(logs[i], files, first, next, maxSequence, SurvivingIn(logs, written, i), written[i]);
      // MarkFileNumberUsed
      if next <= numbers[i] {
        StackedLater(files, first, next, numbers[i] + 1);
        next := numbers[i] + 1;
      }
    }
  }

  lemma NoneSurviving(logs: seq<Bytes>, written: seq<seq<Batch>>)
    requires LogsWritten(logs, written)
    ensures |written| == |logs| && (forall j | 0 <= j < |logs| :: AllWritable(written[j]))
    ensures SurvivingIn(logs, written, 0) == []
  {
    hide LogWriter.Log, Payloads, AllWritable;
  }

  // ----- The version with the recovered tables -----

  /** The AddFile calls of recovery, in order. */
  function RecoveredEdit(files: seq<File>): Edit {
    Edit({}, seq(|files|, i requires 0 <= i < |files| => (0, files[i])))
  }

  lemma StackDistinct(v: Version, files: seq<File>, first: nat, next: nat, l: nat)
    requires WellFormed(v) && NumbersBelow(v, first) && Stacked(files, first, next) && l < NUM_LEVELS
    ensures SortedFiles(v.levels[l])
    ensures DistinctNumbers(v.levels[l] + if l == 0 then files else [])
  {
    var base := v.levels[l];
    assert ValidFiles(base);
    assert forall i | 0 <= i < |base| :: base[i] in base;
  }

  lemma RecoveredLevel(v: Version, files: seq<File>, first: nat, next: nat, l: nat)
    requires WellFormed(v) && |v.levels| == NUM_LEVELS && NumbersBelow(v, first) && Stacked(files, first, next) && l < NUM_LEVELS
    ensures SortedFiles(ApplyEdit(v, RecoveredEdit(files)).levels[l])
    ensures forall g :: g in ApplyEdit(v, RecoveredEdit(files)).levels[l] <==> (l == 0 && g in files) || g in v.levels[l]
  {
    var e := RecoveredEdit(files);
    AddedFilesOf(files, 0, l, e.added);
    StackDistinct(v, files, first, next, l);
    hide ApplyEdit, WellFormed, Stacked, AddedFiles;
    ApplyEditLevel(v, e, l);
  }

  /** One more recovered table is one more file of level 0. */
  lemma RecoveredAdds(v: Version, files: seq<File>, f: File, first: nat, next: nat)
    requires WellFormed(v) && |v.levels| == NUM_LEVELS && NumbersBelow(v, first) && Stacked(files + [f], first, next)
    ensures Stacked(files, first, f.number) && f.number < next && f.Valid()
    ensures Added(ApplyEdit(v, RecoveredEdit(files)), 0, f, ApplyEdit(v, RecoveredEdit(files + [f])))
  {
    StackShrinks(files, f, first, next);
    hide *;
    var r0, r1 := ApplyEdit(v, RecoveredEdit(files)), ApplyEdit(v, RecoveredEdit(files + [f]));
    forall l | 0 <= l < NUM_LEVELS
      ensures SortedFiles(r1.levels[l]) && forall g :: g in r1.levels[l] <==> (l == 0 && g == f) || g in r0.levels[l]
    {
      RecoveredLevel(v, files, first, f.number, l);
      RecoveredLevel(v, files + [f], first, next, l);
    }
    MakeAdded(r0, 0, f, r1);
  }

  lemma MakeAdded(v: Version, level: nat, f: File, r: Version)
    requires |v.levels| == NUM_LEVELS && |r.levels| == NUM_LEVELS
    requires forall l | 0 <= l < NUM_LEVELS ::
      SortedFiles(r.levels[l]) && forall g :: g in r.levels[l] <==> (l == level && g == f) || g in v.levels[l]
    ensures Added(v, level, f, r)
  {
    hide SortedFiles;
  }

  lemma StackShrinks(files: seq<File>, f: File, first: nat, next: nat)
    requires Stacked(files + [f], first, next)
    ensures Stacked(files, first, f.number) && first <= f.number < next && f.Valid()
    ensures Newer(f.Set(), LevelEntries(files))
  {
    var more := files + [f];
    assert more[|files|] == f && forall i | 0 <= i < |files| :: more[i] == files[i];
    forall a, b | a in f.Set() && b in LevelEntries(files) && a.key.user == b.key.user ensures a.key.seqno > b.key.seqno {
      var i :| 0 <= i < |files| && b in files[i].entries;
      assert Newer(more[|files|].Set(), more[i].Set()) && b in files[i].Set();
    }
  }

  /** LogAndApply of the recovery's edit: level 0 gains the tables, and the level
      invariant holds. */
  lemma {:induction false} RecoveredVersion(v: Version, files: seq<File>, first: nat, next: nat)
    requires WellFormed(v) && |v.levels| == NUM_LEVELS && NumbersBelow(v, first) && Stacked(files, first, next)
    requires Newer(LevelEntries(files), VersionEntries(v)) && Unique(LevelEntries(files) + VersionEntries(v))
    ensures var r := ApplyEdit(v, RecoveredEdit(files));
      WellFormed(r) && NumbersBelow(r, next) && VersionEntries(r) == LevelEntries(files) + VersionEntries(v)
  {
    hide *;
    if files == [] {
      NothingAdded(v, first, next);
    } else {
      var n := |files| - 1;
      var some, f := files[..n], files[n];
      assert files == some + [f];
      LevelGrows(some, f);
      StackShrinks(some, f, first, next);
      RecoveredAdds(v, some, f, first, next);
      FewerRecovered(LevelEntries(some), f.Set(), VersionEntries(v));
      RecoveredVersion(v, some, first, f.number);
      OneMoreTable(ApplyEdit(v, RecoveredEdit(some)), f, ApplyEdit(v, RecoveredEdit(files)), next);
    }
  }

  lemma FewerRecovered(A: set<Entry>, B: set<Entry>, C: set<Entry>)
    requires Newer(A + B, C) && Unique(A + B + C) && Newer(B, A)
    ensures Newer(A, C) && Unique(A + C) && Newer(B, A + C) && Unique(B + (A + C)) && A + B + C == B + (A + C)
  {
    assert A + B + C == B + (A + C);
  }

  lemma OneMoreTable(v: Version, f: File, r: Version, next: nat)
    requires WellFormed(v) && NumbersBelow(v, f.number) && f.number < next && f.Valid()
    requires |v.levels| == NUM_LEVELS && Added(v, 0, f, r)
    requires Newer(f.Set(), VersionEntries(v)) && Unique(f.Set() + VersionEntries(v))
    ensures WellFormed(r) && NumbersBelow(r, next) && VersionEntries(r) == f.Set() + VersionEntries(v)
  {
    hide WellFormed, VersionEntries, Newer, Unique, SortedFiles;
    FlushedMayJoin(v, 0, f);
    AddedIsWellFormed(v, 0, f, r);
  }

  lemma NothingAdded(v: Version, first: nat, next: nat)
    requires WellFormed(v) && |v.levels| == NUM_LEVELS && NumbersBelow(v, first) && Stacked([], first, next)
    ensures var r := ApplyEdit(v, RecoveredEdit([]));
      WellFormed(r) && NumbersBelow(r, next) && VersionEntries(r) == LevelEntries([]) + VersionEntries(v)
  {
    hide *;
    var r := ApplyEdit(v, RecoveredEdit([]));
    forall l | 0 <= l < NUM_LEVELS ensures r.levels[l] == v.levels[l] {
      RecoveredLevel(v, [], first, next, l);
      StackDistinct(v, [], first, next, l);
      SortedListsAgree(r.levels[l], v.levels[l]);
    }
    assert r.levels == v.levels && r == v;
    NumbersLater(v, first, next);
    NoTables();
  }

  lemma NoTables()
    ensures LevelEntries([]) == {}
  {
  }

  lemma NumbersLater(v: Version, first: nat, next: nat)
    requires NumbersBelow(v, first) && Stacked([], first, next)
    ensures NumbersBelow(v, next)
  {
  }

  // ----- Recovery as a step of the durable system -----

  /** The disk as CURRENT's manifest and the logs describe it: the version's
      files are the live tables, and each log that is needed holds what survives
      in it. */
  ghost predicate OnDisk(d: Disk, v: Version, numbers: seq<nat>, logs: seq<Bytes>, written: seq<seq<Batch>>)
    requires LogsWritten(logs, written) && Recoverable(d)
  {
    var m := d.manifests[d.current];
    && Holds(d.tables, m.live, v) && NumbersBelow(v, m.next)
    && |numbers| == |logs|
    && (forall i | 0 <= i < |numbers| :: m.log <= numbers[i] && numbers[i] in d.logs
          && d.logs[numbers[i]] == Logged(Surviving(logs[i], written[i])))
    && forall n | n in d.logs && m.log <= n && d.logs[n] != {} :: n in numbers
  }

  lemma LoggedJoin(a: seq<Batch>, b: seq<Batch>)
    ensures Logged(a + b) == Logged(a) + Logged(b)
  {
    hide EntriesOf;
    if b == [] {
      assert a + b == a;
    } else {
      var n := |b| - 1;
      LoggedJoin(a, b[..n]);
      assert (a + b)[..|a + b| - 1] == a + b[..n];
      assert Logged(a) + (Logged(b[..n]) + EntriesOf(b[n])) == Logged(a) + Logged(b[..n]) + EntriesOf(b[n]);
    }
  }

  lemma {:induction false} SurvivingEntries(logs: seq<Bytes>, written: seq<seq<Batch>>, n: nat, e: Entry)
    requires LogsWritten(logs, written) && n <= |logs|
    ensures e in Logged(SurvivingIn(logs, written, n)) <==>
      exists i :: 0 <= i < n && e in Logged(Surviving(logs[i], written[i]))
  {
    hide Logged, Surviving, LogWriter.Log;
    if n == 0 {
      NoneLogged();
    } else {
      SurvivingEntries(logs, written, n - 1, e);
      LoggedJoin(SurvivingIn(logs, written, n - 1), Surviving(logs[n - 1], written[n - 1]));
    }
  }

  lemma NoneLogged()
    ensures Logged([]) == {}
  {
  }

  /** The entries of the logs on disk are those of the surviving batches. */
  lemma LogsHoldSurvivors(d: Disk, v: Version, numbers: seq<nat>, logs: seq<Bytes>, written: seq<seq<Batch>>)
    requires LogsWritten(logs, written) && Recoverable(d) && OnDisk(d, v, numbers, logs, written)
    ensures LogEntries(d.logs, d.manifests[d.current].log) == Logged(SurvivingIn(logs, written, |logs|))
  {
    hide Logged, Surviving, SurvivingIn, LogWriter.Log, Payloads, AllWritable, Holds, NumbersBelow;
    var from := d.manifests[d.current].log;
    forall e ensures e in LogEntries(d.logs, from) <==> e in Logged(SurvivingIn(logs, written, |logs|)) {
      SurvivingEntries(logs, written, |logs|, e);
      if e in LogEntries(d.logs, from) {
        var n :| n in d.logs && from <= n && e in d.logs[n];
        var i :| 0 <= i < |numbers| && numbers[i] == n;
        assert e in Logged(Surviving(logs[i], written[i]));
      }
      if i :| 0 <= i < |logs| && e in Logged(Surviving(logs[i], written[i])) {
        assert e in d.logs[numbers[i]];
      }
    }
  }

  // ----- The last sequence number -----

  /** Every batch begins right after the one before it, the first one after what
      the manifest knows, as WriterQueue numbers them. */
  ghost predicate Consecutive(bs: seq<Batch>, last: nat) {
    && AllWritable(bs) && (|bs| > 0 ==> bs[0].sequence <= last + 1)
    && forall i | 0 < i < |bs| :: bs[i].sequence == bs[i - 1].sequence + |bs[i - 1].ops|
  }

  lemma {:induction false} ConsecutiveInOrder(bs: seq<Batch>, last: nat)
    requires Consecutive(bs, last)
    ensures InOrder(bs)
  {
    var n := |bs| - 1;
    if n > 0 {
      ConsecutiveInOrder(bs[..n], last);
      forall i | 0 <= i < n ensures bs[i].sequence + |bs[i].ops| <= bs[n].sequence {
        assert i < n - 1 ==> bs[..n][i].sequence + |bs[..n][i].ops| <= bs[..n][n - 1].sequence;
      }
      hide Writable;
      forall i, j | 0 <= i < j < |bs| ensures bs[i].sequence + |bs[i].ops| <= bs[j].sequence {
        assert j < n ==> bs[..n][i].sequence + |bs[..n][i].ops| <= bs[..n][j].sequence;
      }
    }
  }

  /** The running maximum is at or after every logged number, and is one of them
      or one the manifest knows. */
  lemma {:induction false} HighestIsLast(bs: seq<Batch>, last: nat)
    requires Consecutive(bs, last)
    ensures forall e | e in Logged(bs) :: e.key.seqno <= Highest(bs)
    ensures Highest(bs) <= last || exists e :: e in Logged(bs) && e.key.seqno == Highest(bs)
    ensures |bs| > 0 ==> LastOf(bs[|bs| - 1]) <= Highest(bs)
  {
    hide EntriesOf, Writable;
    var n := |bs| - 1;
    if n >= 0 {
      assert Writable(bs[n]);
      HighestIsLast(bs[..n], last);
      forall e | e in EntriesOf(bs[n]) ensures e.key.seqno <= LastOf(bs[n]) {
        EntryRange(bs[n], e);
      }
      if LastOf(bs[n]) > Highest(bs[..n]) && LastOf(bs[n]) > last {
        LastHasEntry(bs[n]);
      }
    }
  }

  lemma LastHasEntry(b: Batch)
    ensures |b.ops| > 0 ==> exists e :: e in EntriesOf(b) && e.key.seqno == LastOf(b)
  {
    if |b.ops| > 0 {
      var i := |b.ops| - 1;
      var e := OpEntry(OpOf(b.ops[i]), b.sequence + i);
      EntryNumber(b.ops[i], b.sequence + i);
      assert e in EntriesOf(b);
    }
  }

  /** `if (versions_->LastSequence() < max_sequence) versions_->SetLastSequence(max_sequence)` */
  function LastSequence(manifestLast: nat, maxSequence: nat): nat {
    if manifestLast < maxSequence then maxSequence else manifestLast
  }

  lemma LastIsRecovered(d: Disk, bs: seq<Batch>)
    requires Recoverable(d) && LogEntries(d.logs, d.manifests[d.current].log) == Logged(bs)
    requires Consecutive(bs, d.manifests[d.current].last)
    ensures RecoveredLast(d, LastSequence(d.manifests[d.current].last, Highest(bs)))
  {
    hide Logged, Highest, Consecutive, LogEntries;
    HighestIsLast(bs, d.manifests[d.current].last);
  }

  // ----- The database is open again -----

  lemma DurableParts(d: Disk, v: Version, logged: set<Entry>, acked: set<Entry>, horizon: nat)
    requires Durable(d, logged, acked, horizon) && Holds(d.tables, d.manifests[d.current].live, v)
    ensures var m := d.manifests[d.current]; var L := LogEntries(d.logs, m.log);
      && RecoveredEntries(d) == L + VersionEntries(v)
      && Newer(L, VersionEntries(v)) && Unique(L + VersionEntries(v))
  {
    var m := d.manifests[d.current];
    HeldEntries(d.tables, m.live, v);
    hide SameReads, TableEntries, LogEntries, Newer, Holds, VersionEntries;
    var L := LogEntries(d.logs, m.log);
    assert RecoveredEntries(d) == L + VersionEntries(v);
    Durability.UniqueSubset(L + VersionEntries(v), logged);
  }

  /** DB::Open on what a crash left: the reopened version is well-formed, holds
      what the disk held, and at the recovered last sequence number reads as
      everything ever logged. */
  method Reopen(v: Version, manifestLast: nat, manifestNext: nat, numbers: seq<nat>, logs: seq<Bytes>, ghost written: seq<seq<Batch>>,
                ghost d: Disk, ghost logged: set<Entry>, ghost acked: set<Entry>, ghost horizon: nat)
    returns (r: Version, files: seq<File>, next: nat, last: nat)
    requires Durable(d, logged, acked, horizon) && WellFormed(v)
    requires manifestLast == d.manifests[d.current].last && manifestNext == d.manifests[d.current].next
    requires LogsWritten(logs, written) && OnDisk(d, v, numbers, logs, written)
    requires Consecutive(SurvivingIn(logs, written, |logs|), manifestLast)
    ensures Stacked(files, manifestNext, next) && LevelEntries(files) == LogEntries(d.logs, d.manifests[d.current].log)
    ensures |v.levels| == NUM_LEVELS && r == ApplyEdit(v, RecoveredEdit(files))
    ensures WellFormed(r) && NumbersBelow(r, next) && VersionEntries(r) == RecoveredEntries(d)
    ensures RecoveredLast(d, last)
    ensures forall e | e in logged :: e.key.seqno <= last
    ensures forall k :: ReadAt(VersionEntries(r), k, last) == ReadAt(logged, k, last)
  {
    DiskParts(d, v, numbers, logs, written);
    hide *;
    WellFormedSize(v);
    ghost var bs := SurvivingIn(logs, written, |logs|);
    ConsecutiveInOrder(bs, manifestLast);
    LogsHoldSurvivors(d, v, numbers, logs, written);
    DurableParts(d, v, logged, acked, horizon);
    LastIsRecovered(d, bs);
    var maxSequence;
    files, next, maxSequence := RecoverLogs(numbers, logs, manifestNext, written);
    AllInTables(files, bs);
    RecoveredVersion(v, files, manifestNext, next);
    last := LastSequence(manifestLast, maxSequence);
    EditAtZero(files);
    r := LogAndApply(v, RecoveredEdit(files));
    forall k ensures ReadAt(VersionEntries(r), k, last) == ReadAt(logged, k, last) {
      AcknowledgedSurvives(d, logged, acked, horizon, last, k);
    }
    AcknowledgedSurvives(d, logged, acked, horizon, last, 0.0);
  }

  lemma DiskParts(d: Disk, v: Version, numbers: seq<nat>, logs: seq<Bytes>, written: seq<seq<Batch>>)
    requires Recoverable(d) && LogsWritten(logs, written) && OnDisk(d, v, numbers, logs, written)
    ensures Holds(d.tables, d.manifests[d.current].live, v) && NumbersBelow(v, d.manifests[d.current].next) && |numbers| == |logs|
    ensures |written| == |logs| && forall i | 0 <= i < |logs| :: AllWritable(written[i])
  {
    hide Holds, NumbersBelow, LogWriter.Log, Payloads, AllWritable, Logged;
  }

  lemma AllInTables(files: seq<File>, bs: seq<Batch>)
    requires Holding(files, {}, bs)
    ensures LevelEntries(files) == Logged(bs)
  {
    hide Logged, LevelEntries;
    assert LevelEntries(files) + {} == LevelEntries(files);
  }

  lemma EditAtZero(files: seq<File>)
    ensures forall i | 0 <= i < |RecoveredEdit(files).added| :: RecoveredEdit(files).added[i].0 < NUM_LEVELS
  {
  }

  /** A read of the reopened database finds the newest write that was logged. */
  method GetAfterReopen(v: Version, manifestLast: nat, manifestNext: nat, numbers: seq<nat>, logs: seq<Bytes>, k: UserKey,
                        ghost written: seq<seq<Batch>>, ghost d: Disk, ghost logged: set<Entry>, ghost acked: set<Entry>,
                        ghost horizon: nat)
    returns (value: Option<Value>, last: nat)
    requires Durable(d, logged, acked, horizon) && WellFormed(v)
    requires manifestLast == d.manifests[d.current].last && manifestNext == d.manifests[d.current].next
    requires LogsWritten(logs, written) && OnDisk(d, v, numbers, logs, written)
    requires Consecutive(SurvivingIn(logs, written, |logs|), manifestLast)
    ensures value == ReadAt(logged, k, last) && forall e | e in logged :: e.key.seqno <= last
    ensures forall a | a in acked && Newest(logged, k, last, a) :: value == DbFormat.Outcome(a)
  {
    DurableUnique(d, logged, acked, horizon);
    hide *;
    var r, files, next;
    r, files, next, last := Reopen(v, manifestLast, manifestNext, numbers, logs, written, d, logged, acked, horizon);
    ValidWhenWellFormed(r);
    var hit := VersionGet(r, k, last);
    value := if hit.Hit? then DbFormat.Outcome(hit.entry) else None;
    forall a | a in acked && Newest(logged, k, last, a) ensures ReadAt(logged, k, last) == DbFormat.Outcome(a) {
      ReadOfNewest(logged, k, last, a);
    }
  }

  lemma DurableUnique(d: Disk, logged: set<Entry>, acked: set<Entry>, horizon: nat)
    requires Durable(d, logged, acked, horizon)
    ensures Unique(logged)
  {
  }

  lemma ValidWhenWellFormed(v: Version)
    requires WellFormed(v)
    ensures ValidVersion(v)
  {
  }

  /** The system after CURRENT was switched to the new manifest. */
  ghost function Opened(c: System, k: nat, log: nat): System
    requires k in c.disk.manifests
  {
    var M := c.disk.manifests[k];
    c.(disk := c.disk.(current := k),
       process := Up({}, None, None, 0, log, M.live, log, k, M.next, M.last, {}, Idle))
  }

  lemma NumbersOf(d: Disk, files: seq<File>, e: Entry)
    requires forall f | f in files :: f.number in d.tables && d.tables[f.number] == f.Set()
    ensures e in TableEntries(d.tables, Numbers(files)) <==> e in LevelEntries(files)
  {
    if e in LevelEntries(files) {
      var f := HolderOf(files, e);
      assert f.number in Numbers(files) && e in d.tables[f.number];
    }
    if n :| n in Numbers(files) && n in d.tables && e in d.tables[n] {
      var f :| f in files && f.number == n;
      assert e in f.Set();
      InLevelEntries(files, f, e);
    }
  }

  /** With the recovered tables written, a new empty log and a manifest that
      names them, opening is the step of the durable system: its guard holds. */
  lemma RecoveryOpens(c: System, v: Version, files: seq<File>, next: nat, k: nat, log: nat, last: nat)
    requires Durability.Inv(c) && c.process.Down? && Recoverable(c.disk)
    requires var m := c.disk.manifests[c.disk.current];
      && Stacked(files, m.next, next) && LevelEntries(files) == LogEntries(c.disk.logs, m.log)
      && RecoveredLast(c.disk, last)
      && k in c.disk.manifests && c.disk.manifests[k] == Manifest(m.live + Numbers(files), log, log + 1, last)
    requires forall f | f in files :: f.number in c.disk.tables && c.disk.tables[f.number] == f.Set()
    requires log in c.disk.logs && c.disk.logs[log] == {} && next <= log && forall n | n in c.disk.logs && n != log :: n < log
    ensures Open(c, Opened(c, k, log), k, Numbers(files), log) && Durability.Inv(Opened(c, k, log))
  {
    var d, m := c.disk, c.disk.manifests[c.disk.current];
    forall e ensures e in TableEntries(d.tables, Numbers(files)) <==> e in LevelEntries(files) {
      NumbersOf(d, files, e);
    }
    assert forall n | n in m.live :: n < m.next;
    hide TableEntries, LevelEntries, LogEntries, RecoveredLast, SameReads, Newer, Unique;
    assert TableEntries(d.tables, Numbers(files)) == LevelEntries(files);
    NumbersAbove(files, m.next, next);
    hide Stacked, Numbers;
    assert Open(c, Opened(c, k, log), k, Numbers(files), log);
    hide Open, Durability.Inv;
    OpenKeeps(c, Opened(c, k, log), k, Numbers(files), log);
  }

  lemma NumbersAbove(files: seq<File>, first: nat, next: nat)
    requires Stacked(files, first, next)
    ensures forall n | n in Numbers(files) :: first <= n < next
    ensures first <= next
  {
  }
}
