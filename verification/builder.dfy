/** VersionSet::Builder: applying edits to a version, one at a time or many at once. */
module VersionBuilder {
  import opened DbFormat
  import opened Versions

  datatype Edit = Edit(deleted: set<(nat, nat)>, added: seq<(nat, File)>)

  /** BySmallestKey: by smallest key, ties by file number. */
  predicate FileBefore(f: File, g: File) {
    Less(f.smallest, g.smallest) || (!Less(g.smallest, f.smallest) && f.number < g.number)
  }

  ghost predicate SortedFiles(files: seq<File>) {
    forall i, j | 0 <= i < j < |files| :: FileBefore(files[i], files[j])
  }

  ghost predicate DistinctNumbers(files: seq<File>) {
    forall i, j | 0 <= i < j < |files| :: files[i].number != files[j].number
  }

  /** Two strictly sorted lists of the same files are the same list. */
  lemma {:induction false} SortedListsAgree(a: seq<File>, b: seq<File>)
    requires SortedFiles(a) && SortedFiles(b)
    requires forall f :: f in a <==> f in b
    ensures a == b
  {
    assert |a| > 0 ==> a[0] in b;
    assert |b| > 0 ==> b[0] in a;
    if a != [] {
      HeadsAgree(a, b);
      forall f ensures f in a[1..] <==> f in b[1..] {
        TailMembers(a, f);
        TailMembers(b, f);
      }
      SortedListsAgree(a[1..], b[1..]);
    }
  }

  lemma HeadsAgree(a: seq<File>, b: seq<File>)
    requires SortedFiles(a) && SortedFiles(b) && |a| > 0 && |b| > 0 && a[0] in b && b[0] in a
    ensures a[0] == b[0]
  {
    var i :| 0 <= i < |b| && b[i] == a[0];
    var j :| 0 <= j < |a| && a[j] == b[0];
  }

  lemma TailMembers(a: seq<File>, f: File)
    requires SortedFiles(a) && |a| > 0
    ensures f in a[1..] <==> f in a && f != a[0]
  {
    assert a == [a[0]] + a[1..];
  }

  // ----- Per-level state: deleted file numbers and the ordered set of added files -----

  datatype LevelState = LevelState(deleted: set<nat>, added: seq<File>)

  const EMPTY := LevelState({}, [])

  /** std::set insertion: an element equal under the order is not added. */
  function InsertFile(f: File, files: seq<File>): seq<File> {
    if files == [] then [f]
    else if FileBefore(files[0], f) then [files[0]] + InsertFile(f, files[1..])
    else if FileBefore(f, files[0]) then [f] + files
    else files
  }

  lemma {:induction false} InsertFileMembers(f: File, files: seq<File>)
    requires SortedFiles(files)
    requires forall g | g in files :: g.number != f.number
    ensures SortedFiles(InsertFile(f, files))
    ensures forall g :: g in InsertFile(f, files) <==> g == f || g in files
  {
    if files != [] && FileBefore(files[0], f) {
      assert files == [files[0]] + files[1..];
      InsertFileMembers(f, files[1..]);
      var rest := InsertFile(f, files[1..]);
      assert forall g | g in rest :: FileBefore(files[0], g);
      assert InsertFile(f, files) == [files[0]] + rest;
    }
  }

  function AddOne(s: LevelState, f: File): LevelState {
    LevelState(s.deleted - {f.number}, InsertFile(f, s.added))
  }

  function AddFiles(s: LevelState, level: nat, added: seq<(nat, File)>): LevelState {
    if added == [] then s
    else
      var n := |added| - 1;
      var before := AddFiles(s, level, added[..n]);
      if added[n].0 == level then AddOne(before, added[n].1) else before
  }

  function DeletedAt(e: Edit, level: nat): set<nat> {
    set d | d in e.deleted && d.0 == level :: d.1
  }

  function ApplyLevel(s: LevelState, level: nat, e: Edit): LevelState {
    AddFiles(LevelState(s.deleted + DeletedAt(e, level), s.added), level, e.added)
  }

  // ----- SaveTo: merging the base files with the added ones -----

  function Keep(f: File, deleted: set<nat>): seq<File> {
    if f.number in deleted then [] else [f]
  }

  function SaveLevel(base: seq<File>, s: LevelState): seq<File>
    decreases |base| + |s.added|
  {
    if base != [] && (s.added == [] || !FileBefore(s.added[0], base[0])) then
      Keep(base[0], s.deleted) + SaveLevel(base[1..], s)
    else if s.added != [] then
      Keep(s.added[0], s.deleted) + SaveLevel(base, s.(added := s.added[1..]))
    else []
  }

  lemma {:induction false} SaveLevelMembers(base: seq<File>, s: LevelState, f: File)
    ensures f in SaveLevel(base, s) <==> (f in base || f in s.added) && f.number !in s.deleted
    decreases |base| + |s.added|
  {
    if base != [] && (s.added == [] || !FileBefore(s.added[0], base[0])) {
      assert base == [base[0]] + base[1..];
      SaveLevelMembers(base[1..], s, f);
    } else if s.added != [] {
      assert s.added == [s.added[0]] + s.added[1..];
      SaveLevelMembers(base, s.(added := s.added[1..]), f);
    }
  }

  ghost predicate NoCommonNumber(a: seq<File>, b: seq<File>) {
    forall f, g | f in a && g in b :: f.number != g.number
  }

  lemma {:induction false} SaveLevelSorted(base: seq<File>, s: LevelState)
    requires SortedFiles(base) && SortedFiles(s.added) && NoCommonNumber(base, s.added)
    ensures SortedFiles(SaveLevel(base, s))
    decreases |base| + |s.added|
  {
    if base != [] && (s.added == [] || !FileBefore(s.added[0], base[0])) {
      assert forall g | g in base[1..] :: g in base;
      SaveLevelSorted(base[1..], s);
      forall f | f in SaveLevel(base[1..], s) ensures FileBefore(base[0], f) {
        SaveLevelMembers(base[1..], s, f);
        FirstOfMerge(base, s.added, f);
      }
    } else if s.added != [] {
      var rest := s.(added := s.added[1..]);
      assert forall g | g in s.added[1..] :: g in s.added;
      SaveLevelSorted(base, rest);
      forall f | f in SaveLevel(base, rest) ensures FileBefore(s.added[0], f) {
        SaveLevelMembers(base, rest, f);
        FirstOfMerge(s.added, base, f);
      }
    }
  }

  lemma FirstOfMerge(a: seq<File>, b: seq<File>, f: File)
    requires SortedFiles(a) && SortedFiles(b) && NoCommonNumber(a, b) && |a| > 0
    requires b == [] || !FileBefore(b[0], a[0])
    requires f in a[1..] || f in b
    ensures FileBefore(a[0], f)
  {
    if f in a[1..] {
      var i :| 0 <= i < |a[1..]| && a[1..][i] == f;
      assert a[i + 1] == f;
    } else {
      assert a[0] in a && b[0] in b;
      var i :| 0 <= i < |b| && b[i] == f;
    }
  }

  /** The builder object: one LevelState per level. */
  class Builder {
    var levels: seq<LevelState>

    ghost predicate Valid() reads this { |levels| == NUM_LEVELS }

    constructor ()
      ensures Valid() && forall l | 0 <= l < NUM_LEVELS :: levels[l] == EMPTY
    {
      levels := seq(NUM_LEVELS, l => EMPTY);
    }

    /** Builder::Apply: record the deletions, then the additions (an addition revokes a deletion). */
    method Apply(e: Edit)
      requires Valid()
      requires forall i | 0 <= i < |e.added| :: e.added[i].0 < NUM_LEVELS
      modifies this
      ensures Valid()
      ensures forall l | 0 <= l < NUM_LEVELS :: levels[l] == ApplyLevel(old(levels[l]), l, e)
    {
      levels := seq(NUM_LEVELS, l requires 0 <= l < NUM_LEVELS && |levels| == NUM_LEVELS reads this =>
        LevelState(levels[l].deleted + DeletedAt(e, l), levels[l].added));
      ghost var start := levels;
      for i := 0 to |e.added|
        invariant |levels| == NUM_LEVELS
        invariant forall l | 0 <= l < NUM_LEVELS :: levels[l] == AddFiles(start[l], l, e.added[..i])
      {
        assert e.added[..i + 1][..i] == e.added[..i];
        var (level, f) := e.added[i];
        levels := levels[level := AddOne(levels[level], f)];
      }
      assert e.added[..|e.added|] == e.added;
    }

    /** Builder::SaveTo for one level: for each added file, first the base files ordered before it. */
    method SaveLevelTo(level: nat, base: seq<File>) returns (files: seq<File>)
      requires Valid() && level < NUM_LEVELS
      ensures files == SaveLevel(base, levels[level])
    {
      files := [];
      var s := levels[level];
      var b := 0;
      for a := 0 to |s.added|
        invariant b <= |base|
        invariant files + Rest(base, b, s, a) == SaveLevel(base, s)
      {
        while b < |base| && !FileBefore(s.added[a], base[b])
          invariant b <= |base|
          invariant files + Rest(base, b, s, a) == SaveLevel(base, s)
        {
          RestTakesBase(base, b, s, a);
          files := files + Keep(base[b], s.deleted);
          b := b + 1;
        }
        RestTakesAdded(base, b, s, a);
        files := files + Keep(s.added[a], s.deleted);
      }
      while b < |base|
        invariant b <= |base|
        invariant files + Rest(base, b, s, |s.added|) == SaveLevel(base, s)
      {
        RestTakesBase(base, b, s, |s.added|);
        files := files + Keep(base[b], s.deleted);
        b := b + 1;
      }
    }
  }

  /** What merging still has to append once b base and a added files are done. */
  ghost function Rest(base: seq<File>, b: nat, s: LevelState, a: nat): seq<File>
    requires b <= |base| && a <= |s.added|
  {
    SaveLevel(base[b..], s.(added := s.added[a..]))
  }

  lemma RestTakesBase(base: seq<File>, b: nat, s: LevelState, a: nat)
    requires b < |base| && a <= |s.added|
    requires a == |s.added| || !FileBefore(s.added[a], base[b])
    ensures Rest(base, b, s, a) == Keep(base[b], s.deleted) + Rest(base, b + 1, s, a)
  {
    assert base[b..][1..] == base[b + 1..];
  }

  lemma RestTakesAdded(base: seq<File>, b: nat, s: LevelState, a: nat)
    requires b <= |base| && a < |s.added|
    requires b == |base| || FileBefore(s.added[a], base[b])
    ensures Rest(base, b, s, a) == Keep(s.added[a], s.deleted) + Rest(base, b, s, a + 1)
  {
    assert s.added[a..][1..] == s.added[a + 1..];
  }

  // ----- Members of a level after edits -----

  function AddedFiles(added: seq<(nat, File)>, level: nat): seq<File> {
    if added == [] then []
    else
      var n := |added| - 1;
      AddedFiles(added[..n], level) + if added[n].0 == level then [added[n].1] else []
  }

  ghost function Numbers(files: seq<File>): set<nat> {
    set f | f in files :: f.number
  }

  lemma DistinctPrefix(a: seq<File>, b: seq<File>)
    requires DistinctNumbers(a + b)
    ensures DistinctNumbers(a) && DistinctNumbers(b) && NoCommonNumber(a, b)
  {
    forall i, j | 0 <= i < j < |a| ensures a[i].number != a[j].number {
      assert (a + b)[i] == a[i] && (a + b)[j] == a[j];
    }
    forall i, j | 0 <= i < j < |b| ensures b[i].number != b[j].number {
      assert (a + b)[|a| + i] == b[i] && (a + b)[|a| + j] == b[j];
    }
    forall f, g | f in a && g in b ensures f.number != g.number {
      var i :| 0 <= i < |a| && a[i] == f;
      var j :| 0 <= j < |b| && b[j] == g;
      assert (a + b)[i] == f && (a + b)[|a| + j] == g;
    }
  }

  lemma {:induction false} AddFilesResult(s: LevelState, level: nat, added: seq<(nat, File)>)
    requires SortedFiles(s.added)
    requires DistinctNumbers(s.added + AddedFiles(added, level))
    ensures var r := AddFiles(s, level, added);
      && SortedFiles(r.added)
      && (forall f :: f in r.added <==> f in s.added || f in AddedFiles(added, level))
      && r.deleted == s.deleted - Numbers(AddedFiles(added, level))
  {
    if added != [] {
      var n := |added| - 1;
      var early := AddedFiles(added[..n], level);
      if added[n].0 == level {
        var f := added[n].1;
        assert s.added + AddedFiles(added, level) == (s.added + early) + [f];
        DistinctPrefix(s.added + early, [f]);
        AddFilesResult(s, level, added[..n]);
        var before := AddFiles(s, level, added[..n]);
        forall g | g in before.added ensures g.number != f.number {
          assert g in s.added + early && f in [f];
        }
        InsertFileMembers(f, before.added);
        assert Numbers(AddedFiles(added, level)) == Numbers(early) + {f.number};
      } else {
        assert AddedFiles(added, level) == early;
        AddFilesResult(s, level, added[..n]);
      }
    }
  }

  // ----- Replaying a list of edits -----

  function BatchLevel(edits: seq<Edit>, level: nat): LevelState {
    if edits == [] then EMPTY
    else ApplyLevel(BatchLevel(edits[..|edits| - 1], level), level, edits[|edits| - 1])
  }

  function OneByOne(base: seq<File>, edits: seq<Edit>, level: nat): seq<File> {
    if edits == [] then base
    else SaveLevel(OneByOne(base, edits[..|edits| - 1], level), ApplyLevel(EMPTY, level, edits[|edits| - 1]))
  }

  function AllAdded(edits: seq<Edit>, level: nat): seq<File> {
    if edits == [] then []
    else AllAdded(edits[..|edits| - 1], level) + AddedFiles(edits[|edits| - 1].added, level)
  }

  /** No file number is added twice at the level, nor added where the base has it. */
  ghost predicate FreshAdds(base: seq<File>, edits: seq<Edit>, level: nat) {
    DistinctNumbers(base + AllAdded(edits, level))
  }

  lemma EmptyApply(level: nat, e: Edit)
    requires DistinctNumbers(AddedFiles(e.added, level))
    ensures var r := ApplyLevel(EMPTY, level, e);
      && SortedFiles(r.added)
      && (forall f :: f in r.added <==> f in AddedFiles(e.added, level))
      && r.deleted == DeletedAt(e, level) - Numbers(AddedFiles(e.added, level))
  {
    var s := LevelState(EMPTY.deleted + DeletedAt(e, level), EMPTY.added);
    assert s.added + AddedFiles(e.added, level) == AddedFiles(e.added, level);
    AddFilesResult(s, level, e.added);
    assert s.deleted == DeletedAt(e, level);
  }

  /** The invariant of replay: the batch state describes exactly the files the
      one-by-one run has, and both stay ordered. */
  ghost predicate Agree(base: seq<File>, batch: LevelState, files: seq<File>, added: seq<File>) {
    && SortedFiles(batch.added) && SortedFiles(files)
    && (forall f :: f in batch.added <==> f in added)
    && (forall f :: f in files <==> (f in base || f in batch.added) && f.number !in batch.deleted)
  }

  lemma {:induction false} ReplayStep(base: seq<File>, batch: LevelState, files: seq<File>, added: seq<File>, level: nat, e: Edit)
    requires SortedFiles(base) && Agree(base, batch, files, added)
    requires DistinctNumbers(base + (added + AddedFiles(e.added, level)))
    ensures Agree(base, ApplyLevel(batch, level, e), SaveLevel(files, ApplyLevel(EMPTY, level, e)),
                  added + AddedFiles(e.added, level))
  {
    var now := AddedFiles(e.added, level);
    assert base + (added + now) == (base + added) + now;
    DistinctPrefix(base + added, now);
    assert NoCommonNumber(base + added, now);
    EmptyApply(level, e);
    var single := ApplyLevel(EMPTY, level, e);
    BatchApply(base, batch, added, level, e);
    FilesFresh(base, batch, files, added, now, single.added);
    SaveLevelSorted(files, single);
    forall f ensures f in SaveLevel(files, single) <==>
        (f in base || f in ApplyLevel(batch, level, e).added) && f.number !in ApplyLevel(batch, level, e).deleted {
      SaveLevelMembers(files, single, f);
      if f in now { assert f.number in Numbers(now); }
      if f in base || f in added { assert f in base + added; NotAmong(base + added, now, f); }
    }
  }

  lemma NotAmong(a: seq<File>, b: seq<File>, f: File)
    requires NoCommonNumber(a, b) && f in a
    ensures f.number !in Numbers(b)
  {
  }

  lemma FilesFresh(base: seq<File>, batch: LevelState, files: seq<File>, added: seq<File>, now: seq<File>, latest: seq<File>)
    requires Agree(base, batch, files, added) && NoCommonNumber(base + added, now)
    requires forall f :: f in latest <==> f in now
    ensures NoCommonNumber(files, latest)
  {
    forall f, g | f in files && g in latest ensures f.number != g.number {
      assert f in base + added;
    }
  }

  lemma BatchApply(base: seq<File>, batch: LevelState, added: seq<File>, level: nat, e: Edit)
    requires SortedFiles(batch.added) && (forall f :: f in batch.added <==> f in added)
    requires DistinctNumbers(base + (added + AddedFiles(e.added, level)))
    ensures var r := ApplyLevel(batch, level, e);
      && SortedFiles(r.added)
      && (forall f :: f in r.added <==> f in added + AddedFiles(e.added, level))
      && r.deleted == batch.deleted + DeletedAt(e, level) - Numbers(AddedFiles(e.added, level))
  {
    var now := AddedFiles(e.added, level);
    DistinctPrefix(base, added + now);
    DistinctPrefix(added, now);
    SortedDistinctJoin(batch.added, added, now);
    AddFilesResult(LevelState(batch.deleted + DeletedAt(e, level), batch.added), level, e.added);
  }

  lemma SortedDistinctJoin(sorted: seq<File>, added: seq<File>, now: seq<File>)
    requires SortedFiles(sorted) && (forall f :: f in sorted <==> f in added)
    requires DistinctNumbers(added) && DistinctNumbers(now) && NoCommonNumber(added, now)
    ensures DistinctNumbers(sorted + now)
  {
    var all := sorted + now;
    forall i, j | 0 <= i < j < |all| ensures all[i].number != all[j].number {
      if j < |sorted| {
        assert all[i] in sorted && all[j] in sorted;
        var p :| 0 <= p < |added| && added[p] == all[i];
        var q :| 0 <= q < |added| && added[q] == all[j];
        assert FileBefore(all[i], all[j]);
      } else if i < |sorted| {
        assert all[i] in sorted && all[j] in now;
      }
    }
  }

  lemma {:induction false} ReplayAgrees(base: seq<File>, edits: seq<Edit>, level: nat)
    requires SortedFiles(base) && FreshAdds(base, edits, level)
    ensures Agree(base, BatchLevel(edits, level), OneByOne(base, edits, level), AllAdded(edits, level))
  {
    if edits != [] {
      var n := |edits| - 1;
      var now := AddedFiles(edits[n].added, level);
      assert base + AllAdded(edits, level) == (base + AllAdded(edits[..n], level)) + now;
      DistinctPrefix(base + AllAdded(edits[..n], level), now);
      ReplayAgrees(base, edits[..n], level);
      ReplayStep(base, BatchLevel(edits[..n], level), OneByOne(base, edits[..n], level),
                 AllAdded(edits[..n], level), level, edits[n]);
    }
  }

  /** Manifest replay: one builder fed all edits and saved once yields the file
      list the live run had after saving each edit in turn. */
  lemma ReplayEqualsLiveRun(base: seq<File>, edits: seq<Edit>, level: nat)
    requires SortedFiles(base) && FreshAdds(base, edits, level)
    ensures SaveLevel(base, BatchLevel(edits, level)) == OneByOne(base, edits, level)
  {
    ReplayAgrees(base, edits, level);
    var batch := BatchLevel(edits, level);
    DistinctPrefix(base, AllAdded(edits, level));
    assert NoCommonNumber(base, batch.added);
    SaveLevelSorted(base, batch);
    forall f ensures f in SaveLevel(base, batch) <==> f in OneByOne(base, edits, level) {
      SaveLevelMembers(base, batch, f);
    }
    SortedListsAgree(SaveLevel(base, batch), OneByOne(base, edits, level));
  }

  // ----- Whole versions -----

  /** Builder(current).Apply(edit).SaveTo(v), as LogAndApply does. */
  function ApplyEdit(v: Version, e: Edit): (r: Version)
    requires |v.levels| == NUM_LEVELS
    ensures |r.levels| == NUM_LEVELS
  {
    Version(seq(NUM_LEVELS, l requires 0 <= l < NUM_LEVELS => SaveLevel(v.levels[l], ApplyLevel(EMPTY, l, e))))
  }

  method LogAndApply(v: Version, e: Edit) returns (r: Version)
    requires |v.levels| == NUM_LEVELS
    requires forall i | 0 <= i < |e.added| :: e.added[i].0 < NUM_LEVELS
    ensures r == ApplyEdit(v, e)
  {
    var builder := new Builder();
    builder.Apply(e);
    var levels := [];
    for level := 0 to NUM_LEVELS
      invariant |levels| == level
      invariant builder.Valid()
      invariant forall l | 0 <= l < NUM_LEVELS :: builder.levels[l] == ApplyLevel(EMPTY, l, e)
      invariant forall l | 0 <= l < level :: levels[l] == SaveLevel(v.levels[l], ApplyLevel(EMPTY, l, e))
    {
      var files := builder.SaveLevelTo(level, v.levels[level]);
      levels := levels + [files];
    }
    r := Version(levels);
  }

  /** One edit at one level: which files the saved level has, and in what order. */
  lemma ApplyEditLevel(v: Version, e: Edit, l: nat)
    requires |v.levels| == NUM_LEVELS && l < NUM_LEVELS && SortedFiles(v.levels[l])
    requires DistinctNumbers(v.levels[l] + AddedFiles(e.added, l))
    ensures SortedFiles(ApplyEdit(v, e).levels[l])
    ensures forall f :: f in ApplyEdit(v, e).levels[l] <==>
              f in AddedFiles(e.added, l) || (f in v.levels[l] && (l, f.number) !in e.deleted)
  {
    var base, now := v.levels[l], AddedFiles(e.added, l);
    DistinctPrefix(base, now);
    EmptyApply(l, e);
    var s := ApplyLevel(EMPTY, l, e);
    assert NoCommonNumber(base, s.added);
    SaveLevelSorted(base, s);
    forall f ensures f in SaveLevel(base, s) <==> f in now || (f in base && (l, f.number) !in e.deleted) {
      SaveLevelMembers(base, s, f);
      if f in base { NotAmong(base, now, f); }
      if f in now { assert f.number in Numbers(now); }
      if (l, f.number) in e.deleted { assert (l, f.number).1 in DeletedAt(e, l); }
    }
  }

  /** The version a live run has after a list of edits, each saved in turn. */
  ghost function ReplayVersion(v: Version, edits: seq<Edit>): (r: Version)
    requires |v.levels| == NUM_LEVELS
    ensures |r.levels| == NUM_LEVELS
  {
    if edits == [] then v else ApplyEdit(ReplayVersion(v, edits[..|edits| - 1]), edits[|edits| - 1])
  }

  lemma {:induction false} ReplayVersionLevel(v: Version, edits: seq<Edit>, level: nat)
    requires |v.levels| == NUM_LEVELS && level < NUM_LEVELS
    ensures ReplayVersion(v, edits).levels[level] == OneByOne(v.levels[level], edits, level)
  {
    hide SaveLevel, ApplyLevel;
    if edits != [] {
      ReplayVersionLevel(v, edits[..|edits| - 1], level);
    }
  }
}
