/** From an empty database to the state of module Tombstones, step by step: two
    puts, a snapshot, a deletion, a flush, a compaction whose output is cut
    between the deletion and the older value, the release of the snapshot,
    another put and flush. */
module SplitRun {
  import opened DbFormat
  import opened Versions
  import opened Picking
  import opened VersionBuilder
  import opened CompactionWork
  import opened LsmTree
  import opened LsmSteps
  import opened Database
  import opened Tombstones

  /** Ten output files of two megabytes. */
  const GRANDPARENT_LIMIT: nat := 20971520

  const FIRST_WRITE := [PutOp(0.0, OLD_VALUE), PutOp(1.0, OLD_VALUE)]

  function FirstEntries(): seq<Entry> { [Put(0.0, 1), Put(1.0, 2)] }

  function ThreeEntries(): seq<Entry> { [Put(0.0, 1), Tombstone(1.0, 3), Put(1.0, 2)] }

  function Whole(): File { FinishFile(2, 200, ThreeEntries()) }

  function AfterFlush(): Version { Version([[], [], [Whole()], [], [], [], []]) }

  function AfterCompaction(): Version { Version([[], [], [], [SplitLeft(), SplitRight()], [], [], []]) }

  function Put2(): State { State(FirstEntries(), None, EMPTY_VERSION, 2, 2, []) }

  function Pinned(): State { State(FirstEntries(), None, EMPTY_VERSION, 2, 2, [2]) }

  function Deleted(): State { State(ThreeEntries(), None, EMPTY_VERSION, 3, 2, [2]) }

  function Full(): State { State([], Some(ThreeEntries()), EMPTY_VERSION, 3, 2, [2]) }

  function OneFile(): State { State([], None, AfterFlush(), 3, 3, [2]) }

  function TwoFiles(): State { State([], None, AfterCompaction(), 3, 5, [2]) }

  function Unpinned(): State { State([], None, AfterCompaction(), 3, 5, []) }

  function PutMore(): State { State([Put(0.5, 4)], None, AfterCompaction(), 4, 5, []) }

  function FullAgain(): State { State([], Some([Put(0.5, 4)]), AfterCompaction(), 4, 5, []) }

  function Split(): State { State([], None, SplitState(), 4, 6, []) }

  function States(): seq<State> {
    [EMPTY_STATE, Put2(), Pinned(), Deleted(), Full(), OneFile(), TwoFiles(), Unpinned(), PutMore(), FullAgain(), Split()]
  }

  function Cut(): Event { Compacted(2, [Whole()], [], [SplitLeft(), SplitRight()]) }

  function Events(): seq<Event> {
    [ Wrote(FIRST_WRITE),
      TookSnapshot,
      Wrote([DeleteOp(1.0)]),
      Switched,
      Flushed(200, GRANDPARENT_LIMIT),
      Cut(),
      Released(0),
      Wrote([PutOp(0.5, OLD_VALUE)]),
      Switched,
      Flushed(100, GRANDPARENT_LIMIT)
    ]
  }

  // ----- The writes -----

  lemma WritesFirst()
    ensures InsertBatch([], FIRST_WRITE, 1) == FirstEntries()
  {
    var ops := FIRST_WRITE;
    assert ops[..1] == [PutOp(0.0, OLD_VALUE)] && ops[..1][..0] == [];
    assert InsertBatch([], ops[..1], 1) == [Put(0.0, 1)];
    InsertFirst();
  }

  lemma InsertFirst()
    ensures InsertEntry(Put(1.0, 2), [Put(0.0, 1)]) == FirstEntries()
  {
    assert [Put(0.0, 1)][1..] == [];
  }

  lemma WritesSecond()
    ensures InsertBatch(FirstEntries(), [DeleteOp(1.0)], 3) == ThreeEntries()
  {
    assert [DeleteOp(1.0)][..0] == [];
    assert InsertBatch(FirstEntries(), [], 3) == FirstEntries();
    InsertSecond();
  }

  lemma InsertSecond()
    ensures InsertEntry(Tombstone(1.0, 3), FirstEntries()) == ThreeEntries()
  {
    assert FirstEntries()[1..] == [Put(1.0, 2)];
  }

  lemma WritesThird()
    ensures InsertBatch([], [PutOp(0.5, OLD_VALUE)], 4) == [Put(0.5, 4)]
  {
    assert [PutOp(0.5, OLD_VALUE)][..0] == [];
  }

  // ----- The versions -----

  /** A file added to an empty level is that level. */
  lemma AddedExactly(v: Version, level: nat, f: File)
    requires WellFormed(v) && |v.levels| == NUM_LEVELS && level < NUM_LEVELS && NumbersBelow(v, f.number) && v.levels[level] == []
    ensures ApplyEdit(v, AddFileEdit(level, f)) == Version(v.levels[level := [f]])
  {
    var r := ApplyEdit(v, AddFileEdit(level, f));
    AddFileApplies(v, level, f);
    forall l | 0 <= l < NUM_LEVELS ensures r.levels[l] == v.levels[level := [f]][l] {
      assert SortedFiles(v.levels[l]) && SortedFiles([f]);
      SortedListsAgree(r.levels[l], v.levels[level := [f]][l]);
    }
    assert r.levels == v.levels[level := [f]];
  }

  lemma NoOverlapInEmpty(lo: UserKey, hi: UserKey)
    ensures !SomeOverlap([], Some(lo), Some(hi)) && !TooMany([], lo, hi, GRANDPARENT_LIMIT)
  {
  }

  lemma WholeIsValid()
    ensures Whole().Valid() && SortedEntries(ThreeEntries()) && Whole().Set() == {Put(0.0, 1), Tombstone(1.0, 3), Put(1.0, 2)}
    ensures Whole().Set() == Contents(ThreeEntries()) && Unique(Contents(ThreeEntries()))
  {
  }

  lemma FirstFlushLevel()
    ensures 2 < NUM_LEVELS && |EMPTY_VERSION.levels| == NUM_LEVELS && EMPTY_VERSION.levels[2] == []
    ensures FlushLevel(EMPTY_VERSION, 0.0, 1.0, GRANDPARENT_LIMIT, 2)
  {
    NoOverlapInEmpty(0.0, 1.0);
    hide SomeOverlap, TooMany;
  }

  lemma WholeAlone()
    ensures |EMPTY_VERSION.levels| == NUM_LEVELS && Version(EMPTY_VERSION.levels[2 := [Whole()]]) == AfterFlush()
  {
    hide Whole;
    assert EMPTY_VERSION.levels[2 := [Whole()]] == AfterFlush().levels;
  }

  lemma WholeIs()
    ensures Whole() == FinishFile(2, 200, ThreeEntries()) && Whole().number == 2 && |ThreeEntries()| == 3
    ensures Whole().smallest.user == 0.0 && Whole().largest.user == 1.0
  {
  }

  lemma FlushIs(v: Version, mem: seq<Entry>, number: nat, size: nat, level: nat, r: Version)
    requires |v.levels| == NUM_LEVELS && |mem| > 0
    requires var f := FinishFile(number, size, mem);
      FlushLevel(v, f.smallest.user, f.largest.user, GRANDPARENT_LIMIT, level) && r == ApplyEdit(v, AddFileEdit(level, f))
    ensures FlushesTo(v, mem, number, size, GRANDPARENT_LIMIT, r)
  {
    hide FlushLevel, ApplyEdit, AddFileEdit, FinishFile;
  }

  lemma FirstFlush()
    ensures |EMPTY_VERSION.levels| == NUM_LEVELS
    ensures FlushesTo(EMPTY_VERSION, ThreeEntries(), 2, 200, GRANDPARENT_LIMIT, AfterFlush())
    ensures WellFormed(AfterFlush()) && NumbersBelow(AfterFlush(), 3)
  {
    hide *;
    EmptyVersion();
    FirstFlushLevel();
    WholeIs();
    WholeIsValid();
    WholeAlone();
    NumbersUp(EMPTY_VERSION, 0, 2);
    AddedExactly(EMPTY_VERSION, 2, Whole());
    FlushIs(EMPTY_VERSION, ThreeEntries(), 2, 200, 2, AfterFlush());
    NewerThanNothing(ThreeEntries());
    assert Contents(ThreeEntries()) + {} == Contents(ThreeEntries());
    FlushIsWellFormed(EMPTY_VERSION, ThreeEntries(), 2, 200, GRANDPARENT_LIMIT, AfterFlush());
  }

  lemma NumbersUp(v: Version, n: nat, m: nat)
    requires NumbersBelow(v, n) && n <= m
    ensures NumbersBelow(v, m)
  {
  }

  lemma NewerThanNothing(es: seq<Entry>)
    ensures Newer(Contents(es), {})
  {
  }

  // ----- The compaction that splits the key -----

  lemma WholeInputs()
    ensures GoodInputs(AfterFlush(), 2, [Whole()], [])
  {
    var files := AfterFlush().levels[2];
    assert [Whole()] == files[0..1];
    assert AfterFlush().levels[3] == [];
  }

  lemma MergedInput()
    ensures SortEntries(Flatten([Whole()]) + Flatten([])) == ThreeEntries()
  {
    var es := ThreeEntries();
    assert [Whole()][..0] == [];
    assert Flatten([Whole()]) + Flatten([]) == es;
    assert es[1..] == [Tombstone(1.0, 3), Put(1.0, 2)] && es[1..][1..] == [Put(1.0, 2)] && es[1..][1..][1..] == [];
    assert SortEntries(es[1..][1..]) == [Put(1.0, 2)];
    assert SortEntries(es[1..]) == es[1..];
  }

  /** The snapshot at 2 keeps both the deletion at 3 and the value at 2. */
  lemma AllKept()
    ensures Kept(AfterFlush(), 2, 2, ThreeEntries(), 3) == ThreeEntries()
  {
    var v, es := AfterFlush(), ThreeEntries();
    assert |v.levels| == NUM_LEVELS;
    assert !Dropped(v, 2, 2, es, 0) && !Dropped(v, 2, 2, es, 1) && !Dropped(v, 2, 2, es, 2);
    hide Dropped;
    assert Kept(v, 2, 2, es, 0) == [];
    assert Kept(v, 2, 2, es, 1) == [Put(0.0, 1)];
    assert Kept(v, 2, 2, es, 2) == [Put(0.0, 1), Tombstone(1.0, 3)];
  }

  lemma CutBetween()
    ensures OutputsOf([SplitLeft(), SplitRight()], [], 3, ThreeEntries())
  {
    var outs := [SplitLeft(), SplitRight()];
    assert outs[..1] == [SplitLeft()] && outs[..1][..0] == [];
    assert Flatten(outs[..1]) == SplitLeft().entries;
  }

  /** The version after a replacement, when its two levels are known. */
  lemma ReplacedExactly(v: Version, level: nat, in0: seq<File>, in1: seq<File>, outs: seq<File>, r: Version, a: seq<File>, b: seq<File>)
    requires WellFormed(v) && |v.levels| == NUM_LEVELS && level + 1 < NUM_LEVELS && Replaced(v, level, in0, in1, outs, r)
    requires SortedFiles(a) && forall f :: f in a <==> Stays(v, level, in0, in1, outs, level, f)
    requires SortedFiles(b) && forall f :: f in b <==> Stays(v, level, in0, in1, outs, level + 1, f)
    ensures r == Version(v.levels[level := a][level + 1 := b])
  {
    var want := v.levels[level := a][level + 1 := b];
    forall l | 0 <= l < NUM_LEVELS ensures r.levels[l] == want[l] {
      assert SortedFiles(v.levels[l]);
      ReplacedStays(v, level, in0, in1, outs, r, l);
      SortedListsAgree(r.levels[l], want[l]);
    }
    assert r.levels == want;
  }

  lemma CutLevels()
    ensures var v, outs := AfterFlush(), [SplitLeft(), SplitRight()];
      && 3 < NUM_LEVELS && |v.levels| == NUM_LEVELS && v.levels[2] == [Whole()] && v.levels[3] == [] && v.levels[3] + outs == outs
      && Version(v.levels[2 := []][3 := outs]) == AfterCompaction()
  {
    hide Whole, SplitLeft, SplitRight;
    var v, outs := AfterFlush(), [SplitLeft(), SplitRight()];
    assert v.levels[2 := []][3 := outs] == AfterCompaction().levels;
  }

  lemma CutFiles()
    ensures SortedFiles([SplitLeft(), SplitRight()]) && SortedFiles([]) && DistinctNumbers([SplitLeft(), SplitRight()])
  {
    SplitFilesValid();
  }

  lemma CutStays(outs: seq<File>)
    requires |AfterFlush().levels| == NUM_LEVELS && AfterFlush().levels[2] == [Whole()] && AfterFlush().levels[3] == []
    ensures forall f :: f in [] <==> Stays(AfterFlush(), 2, [Whole()], [], outs, 2, f)
    ensures forall f :: f in outs <==> Stays(AfterFlush(), 2, [Whole()], [], outs, 3, f)
    ensures forall f | f in [Whole()] :: f in AfterFlush().levels[2]
  {
    hide Whole, AfterFlush;
  }

  lemma FreshIs(v: Version, level: nat, outs: seq<File>)
    requires |v.levels| == NUM_LEVELS && level + 1 < NUM_LEVELS && v.levels[level + 1] + outs == outs && DistinctNumbers(outs)
    ensures FreshOutputs(v, level, outs)
  {
  }

  lemma CompactedExactly()
    requires WellFormed(AfterFlush())
    ensures |AfterFlush().levels| == NUM_LEVELS
    ensures ApplyEdit(AfterFlush(), CompactionEdit(2, [Whole()], [], [SplitLeft(), SplitRight()])) == AfterCompaction()
  {
    hide *;
    var v, outs := AfterFlush(), [SplitLeft(), SplitRight()];
    CutLevels();
    CutFiles();
    CutStays(outs);
    FreshIs(v, 2, outs);
    EditReplaces(v, 2, [Whole()], [], outs);
    ReplacedExactly(v, 2, [Whole()], [], outs, ApplyEdit(v, CompactionEdit(2, [Whole()], [], outs)), [], outs);
  }

  lemma SplittingCompaction()
    requires WellFormed(AfterFlush()) && NumbersBelow(AfterFlush(), 3)
    ensures CompactsTo(AfterFlush(), 2, [Whole()], [], 2, 3, [SplitLeft(), SplitRight()], AfterCompaction())
    ensures WellFormed(AfterCompaction()) && NumbersBelow(AfterCompaction(), 5)
  {
    var v, outs := AfterFlush(), [SplitLeft(), SplitRight()];
    assert |v.levels| == NUM_LEVELS && |ThreeEntries()| == 3;
    assert Numbered(outs, 3) && |outs| == 2;
    hide *;
    MergedInput();
    AllKept();
    CutBetween();
    CompactedExactly();
    WholeInputs();
    IsCompaction(v, 2, [Whole()], [], 2, 3, outs, AfterCompaction());
    InputIsSortedUnion(v, 2, [Whole()], [], ThreeEntries());
    CompactedVersion(v, 2, [Whole()], [], ThreeEntries(), 2, outs, 3);
    WrittenNumbers(v, 2, [Whole()], [], outs, AfterCompaction(), 3);
  }

  // ----- The last flush -----

  lemma LightAbove()
    ensures !TooMany([SplitLeft(), SplitRight()], 0.5, 0.5, GRANDPARENT_LIMIT)
  {
    var files := [SplitLeft(), SplitRight()];
    assert files[..2] == files && files[..1] == [SplitLeft()] && files[..0] == [];
    OverlappingNext(files, 1, Some(0.5), Some(0.5));
    OverlappingNext(files, 0, Some(0.5), Some(0.5));
    assert Overlapping(files, Some(0.5), Some(0.5)) == [SplitLeft()];
    assert [SplitLeft()][..0] == [];
  }

  lemma LastFlushLevel()
    ensures var v := AfterCompaction();
      && 2 < NUM_LEVELS && |v.levels| == NUM_LEVELS && v.levels[2] == [] && Version(v.levels[2 := [SplitUpper()]]) == SplitState()
      && FlushLevel(v, 0.5, 0.5, GRANDPARENT_LIMIT, 2)
  {
    LightAbove();
    NoOverlapInEmpty(0.5, 0.5);
    hide TooMany, SomeOverlap, SplitLeft, SplitRight, SplitUpper;
    assert AfterCompaction().levels[2 := [SplitUpper()]] == SplitState().levels;
  }

  lemma UpperIs()
    ensures SplitUpper() == FinishFile(5, 100, [Put(0.5, 4)]) && SplitUpper().number == 5
    ensures SplitUpper().smallest.user == 0.5 && SplitUpper().largest.user == 0.5
  {
  }

  lemma LastFlush()
    requires WellFormed(AfterCompaction()) && NumbersBelow(AfterCompaction(), 5)
    ensures |AfterCompaction().levels| == NUM_LEVELS
    ensures FlushesTo(AfterCompaction(), [Put(0.5, 4)], 5, 100, GRANDPARENT_LIMIT, SplitState())
  {
    hide *;
    LastFlushLevel();
    UpperIs();
    AddedExactly(AfterCompaction(), 2, SplitUpper());
    FlushIs(AfterCompaction(), [Put(0.5, 4)], 5, 100, 2, SplitState());
  }

  // ----- The run -----

  lemma EarlySteps()
    ensures Step(EMPTY_STATE, Wrote(FIRST_WRITE), Put2())
    ensures Step(Put2(), TookSnapshot, Pinned())
    ensures Step(Pinned(), Wrote([DeleteOp(1.0)]), Deleted())
    ensures Step(Deleted(), Switched, Full())
  {
    WritesFirst();
    WritesSecond();
    hide InsertBatch, EMPTY_VERSION;
  }

  lemma FlushSteps()
    ensures Step(Full(), Flushed(200, GRANDPARENT_LIMIT), OneFile())
    ensures Step(OneFile(), Cut(), TwoFiles())
  {
    hide AfterFlush, AfterCompaction, EMPTY_VERSION, WellFormed, NumbersBelow, FlushesTo, CompactsTo, GoodInputs, Step, Whole,
      SplitLeft, SplitRight, ThreeEntries;
    FirstFlush();
    SplittingCompaction();
    CutLevels();
    WholeInputs();
    FlushIsStep(Full(), 200, GRANDPARENT_LIMIT, AfterFlush());
    CompactIsStep(OneFile(), 2, [Whole()], [], [SplitLeft(), SplitRight()], AfterCompaction());
  }

  lemma LateSteps()
    ensures Step(TwoFiles(), Released(0), Unpinned())
    ensures Step(Unpinned(), Wrote([PutOp(0.5, OLD_VALUE)]), PutMore())
    ensures Step(PutMore(), Switched, FullAgain())
  {
    WritesThird();
    hide InsertBatch, AfterCompaction;
  }

  lemma LastStep()
    ensures Step(FullAgain(), Flushed(100, GRANDPARENT_LIMIT), Split())
  {
    hide AfterFlush, AfterCompaction, EMPTY_VERSION, WellFormed, NumbersBelow, SplitState, FlushesTo, CompactsTo, GoodInputs, Step,
      Whole, SplitLeft, SplitRight, ThreeEntries;
    FirstFlush();
    SplittingCompaction();
    LastFlush();
    FlushIsStep(FullAgain(), 100, GRANDPARENT_LIMIT, SplitState());
  }

  /** The state in which a deleted key comes back is reached from an empty
      database, and no snapshot is live in it. */
  lemma SplitStateIsReached()
    ensures Database.Run(States(), Events()) && States()[|Events()|] == Split()
  {
    EarlySteps();
    FlushSteps();
    LateSteps();
    LastStep();
    hide Step, EMPTY_STATE, Put2, Pinned, Deleted, Full, OneFile, TwoFiles, Unpinned, PutMore, FullAgain, Split, Cut;
  }

  lemma SplitNumbers()
    ensures NumbersBelow(SplitState(), 6) && |SplitState().levels| == NUM_LEVELS
  {
    forall l, f | 0 <= l < NUM_LEVELS && f in SplitState().levels[l] ensures f.number < 6 {
      assert l == 2 || l == 3;
    }
  }

  lemma NothingInMemory(st: State)
    requires st.mem == [] && st.imm == None
    ensures Stored(st) == VersionEntries(st.current)
  {
    hide VersionEntries;
    assert {} + ({} + VersionEntries(st.current)) == VersionEntries(st.current);
  }

  /** Whatever the compaction of the picked inputs writes there, the key that was
      deleted reads as its old value afterwards. */
  lemma DeletedComesBack(outs: seq<File>, st': State)
    requires Step(Split(), Compacted(2, [SplitUpper()], [SplitLeft()], outs), st')
    ensures ReadAt(Stored(Split()), 1.0, 4) == None
    ensures ReadAt(Stored(st'), 1.0, 4) == Some(OLD_VALUE)
  {
    var v, in0, in1 := SplitState(), [SplitUpper()], [SplitLeft()];
    var input := SortEntries(Flatten(in0) + Flatten(in1));
    SplitNumbers();
    hide SplitState, SortEntries, OutputsOf, Kept, ApplyEdit, CompactionEdit, GoodInputs, Stored, ReadAt, NumbersBelow;
    assert OutputsOf(outs, [], 6, Kept(v, 2, 4, input, |input|)) && st'.current == ApplyEdit(v, CompactionEdit(2, in0, in1, outs));
    assert st'.mem == [] && st'.imm == None;
    hide *;
    SplitTombstoneComesBack();
    InputIsSortedUnion(v, 2, in0, in1, input);
    CompactedVersion(v, 2, in0, in1, input, 4, outs, 6);
    NothingInMemory(Split());
    NothingInMemory(st');
  }
}
