/** The three ways a version changes: flush, trivial move, compaction. */
module LsmSteps {
  import opened DbFormat
  import opened Versions
  import opened Picking
  import opened VersionBuilder
  import opened CompactionWork
  import opened LsmTree

  ghost predicate NumbersBelow(v: Version, next: nat) {
    forall l, f | 0 <= l < |v.levels| && f in v.levels[l] :: f.number < next
  }

  ghost predicate SeqBounded(v: Version, last: nat) {
    forall e | e in VersionEntries(v) :: e.key.seqno <= last
  }

  // ----- Adding one file (flush) -----

  ghost predicate Added(v: Version, level: nat, f: File, r: Version)
    requires |v.levels| == NUM_LEVELS
  {
    && |r.levels| == NUM_LEVELS
    && (forall l | 0 <= l < NUM_LEVELS :: SortedFiles(r.levels[l]))
    && (forall l, g | 0 <= l < NUM_LEVELS :: g in r.levels[l] <==> (l == level && g == f) || g in v.levels[l])
  }

  /** The file may join `level`: it is newer than the whole version, and below
      level 0 its user range is free from level 0 down to its own level. */
  ghost predicate MayJoin(v: Version, level: nat, f: File)
    requires |v.levels| == NUM_LEVELS && level < NUM_LEVELS
  {
    && f.Valid()
    && (forall l, g | 0 <= l < NUM_LEVELS && g in v.levels[l] :: g.number < f.number)
    && (forall l, g | 0 <= l < NUM_LEVELS && g in v.levels[l] :: Newer(f.Set(), g.Set()))
    && (level > 0 ==> forall l, g | 0 <= l <= level && g in v.levels[l] ::
          !Overlaps(g, Some(f.smallest.user), Some(f.largest.user)))
  }

  lemma FileUserRange(f: File, e: Entry)
    requires f.Valid() && e in f.entries
    ensures f.smallest.user <= e.key.user <= f.largest.user
  {
    FileBounds(f, e);
  }

  lemma NoOverlapNoSharedKey(f: File, g: File)
    requires f.Valid() && g.Valid() && !Overlaps(g, Some(f.smallest.user), Some(f.largest.user))
    ensures Newer(g.Set(), f.Set()) && Apart(f, g)
  {
    forall a, b | a in g.Set() && b in f.Set() ensures a.key.user != b.key.user {
      FileUserRange(g, a);
      FileUserRange(f, b);
    }
  }

  lemma AddedPair(v: Version, level: nat, f: File, g: File)
    requires WellFormed(v) && level < NUM_LEVELS && MayJoin(v, level, f) && g in v.levels[level]
    ensures f.number > g.number && (level > 0 ==> Apart(f, g) && Apart(g, f))
    ensures level == 0 ==> Newer(f.Set(), g.Set())
  {
    if level > 0 {
      assert g.Valid() by { LevelFactsHold(v, level); }
      NoOverlapNoSharedKey(f, g);
    }
  }

  lemma AddedValid(v: Version, level: nat, f: File, l: nat, files: seq<File>)
    requires WellFormed(v) && level < NUM_LEVELS && MayJoin(v, level, f) && l < NUM_LEVELS
    requires forall g | g in files :: (l == level && g == f) || g in v.levels[l]
    ensures forall g | g in files :: g.Valid()
  {
    LevelFactsHold(v, l);
  }

  lemma AddedLevelFacts(v: Version, level: nat, f: File, l: nat, files: seq<File>)
    requires WellFormed(v) && level < NUM_LEVELS && MayJoin(v, level, f) && l < NUM_LEVELS
    requires forall g | g in files :: (l == level && g == f) || g in v.levels[l]
    ensures LevelFacts(l, files)
  {
    hide WellFormed, MayJoin, LevelFacts;
    assert forall g | g in files :: g.Valid() by { AddedValid(v, level, f, l, files); }
    forall g, h | g in files && h in files && g != h
      ensures g.number != h.number && (l > 0 ==> Apart(g, h))
      ensures l == 0 && g.number > h.number ==> Newer(g.Set(), h.Set())
    {
      if l == level && g == f {
        AddedPair(v, level, f, h);
      } else if l == level && h == f {
        AddedPair(v, level, f, g);
      } else {
        LevelPair(v, l, g, h);
      }
    }
    AssembleLevelFacts(l, files);
  }

  lemma AddedAbove(v: Version, level: nat, f: File, l: nat, g: File)
    requires WellFormed(v) && l < level < NUM_LEVELS && MayJoin(v, level, f) && g in v.levels[l]
    ensures Newer(g.Set(), f.Set()) && g.number != f.number
  {
    assert g.Valid() by { LevelFactsHold(v, l); }
    NoOverlapNoSharedKey(f, g);
  }

  lemma AddedCrossFacts(v: Version, level: nat, f: File, l: nat, m: nat, upper: seq<File>, lower: seq<File>)
    requires WellFormed(v) && level < NUM_LEVELS && MayJoin(v, level, f) && l < m < NUM_LEVELS
    requires forall g | g in upper :: (l == level && g == f) || g in v.levels[l]
    requires forall g | g in lower :: (m == level && g == f) || g in v.levels[m]
    ensures CrossFacts(upper, lower)
  {
    assert forall k, g | 0 <= k < NUM_LEVELS && g in v.levels[k] :: Newer(f.Set(), g.Set()) && g.number < f.number;
    hide WellFormed, MayJoin;
    forall g, h | g in upper && h in lower ensures Newer(g.Set(), h.Set()) && g.number != h.number {
      if m == level && h == f {
        AddedAbove(v, level, f, l, g);
      } else if l == level && g == f {
        assert h in v.levels[m];
      } else {
        CrossPair(v, l, m, g, h);
      }
    }
  }

  lemma AddedEntries(v: Version, level: nat, f: File, r: Version)
    requires |v.levels| == NUM_LEVELS && level < NUM_LEVELS && Added(v, level, f, r)
    ensures VersionEntries(r) == f.Set() + VersionEntries(v)
  {
    forall e | e in VersionEntries(r) ensures e in f.Set() + VersionEntries(v) {
      var l :| 0 <= l < NUM_LEVELS && e in LevelEntries(r.levels[l]);
      var g := HolderOf(r.levels[l], e);
      assert (l == level && g == f) || g in v.levels[l];
      if g in v.levels[l] {
        InVersion(v, l, g, e);
      }
    }
    forall e | e in f.Set() ensures e in VersionEntries(r) {
      assert f in r.levels[level];
      InVersion(r, level, f, e);
    }
    forall e | e in VersionEntries(v) ensures e in VersionEntries(r) {
      var l :| 0 <= l < NUM_LEVELS && e in LevelEntries(v.levels[l]);
      var g := HolderOf(v.levels[l], e);
      assert g in r.levels[l];
      InVersion(r, l, g, e);
    }
  }

  lemma AddedIsWellFormed(v: Version, level: nat, f: File, r: Version)
    requires WellFormed(v) && level < NUM_LEVELS && MayJoin(v, level, f) && Added(v, level, f, r)
    requires Unique(f.Set() + VersionEntries(v))
    ensures WellFormed(r) && VersionEntries(r) == f.Set() + VersionEntries(v)
  {
    AddedEntries(v, level, f, r);
    assert forall l | 0 <= l < NUM_LEVELS :: SortedFiles(r.levels[l]) && LevelFacts(l, r.levels[l]) by {
      forall l | 0 <= l < NUM_LEVELS ensures LevelFacts(l, r.levels[l]) {
        assert forall g | g in r.levels[l] :: (l == level && g == f) || g in v.levels[l];
        AddedLevelFacts(v, level, f, l, r.levels[l]);
      }
    }
    assert forall l, m | 0 <= l < m < NUM_LEVELS :: CrossFacts(r.levels[l], r.levels[m]) by {
      forall l, m | 0 <= l < m < NUM_LEVELS ensures CrossFacts(r.levels[l], r.levels[m]) {
        assert forall g | g in r.levels[l] :: (l == level && g == f) || g in v.levels[l];
        assert forall g | g in r.levels[m] :: (m == level && g == f) || g in v.levels[m];
        AddedCrossFacts(v, level, f, l, m, r.levels[l], r.levels[m]);
      }
    }
    FactsGiveWellFormed(r);
  }

  function AddFileEdit(level: nat, f: File): Edit {
    Edit({}, [(level, f)])
  }

  lemma AddFileAdds(level: nat, f: File, l: nat)
    ensures AddedFiles(AddFileEdit(level, f).added, l) == if l == level then [f] else []
  {
    assert AddFileEdit(level, f).added[..0] == [];
  }

  lemma NewNumberIsDistinct(v: Version, level: nat, f: File, l: nat)
    requires WellFormed(v) && NumbersBelow(v, f.number) && l < NUM_LEVELS
    ensures |v.levels| == NUM_LEVELS && SortedFiles(v.levels[l])
    ensures DistinctNumbers(v.levels[l] + AddedFiles(AddFileEdit(level, f).added, l))
  {
    AddFileAdds(level, f, l);
    assert ValidFiles(v.levels[l]) && SortedFiles(v.levels[l]);
    assert forall i | 0 <= i < |v.levels[l]| :: v.levels[l][i] in v.levels[l];
    hide WellFormed, AddedFiles, SortedFiles;
  }

  lemma AddFileAppliesLevel(v: Version, level: nat, f: File, l: nat)
    requires WellFormed(v) && level < NUM_LEVELS && NumbersBelow(v, f.number) && l < NUM_LEVELS
    ensures SortedFiles(ApplyEdit(v, AddFileEdit(level, f)).levels[l])
    ensures forall g :: g in ApplyEdit(v, AddFileEdit(level, f)).levels[l] <==> (l == level && g == f) || g in v.levels[l]
  {
    hide WellFormed, AddedFiles, ApplyEdit, SortedFiles, NumbersBelow, DistinctNumbers;
    NewNumberIsDistinct(v, level, f, l);
    AddFileAdds(level, f, l);
    ApplyEditLevel(v, AddFileEdit(level, f), l);
  }

  lemma AddFileApplies(v: Version, level: nat, f: File)
    requires WellFormed(v) && level < NUM_LEVELS && NumbersBelow(v, f.number)
    ensures Added(v, level, f, ApplyEdit(v, AddFileEdit(level, f)))
  {
    assert |v.levels| == NUM_LEVELS;
    hide WellFormed, NumbersBelow, ApplyEdit, AddFileEdit, SortedFiles;
    forall l | 0 <= l < NUM_LEVELS
      ensures SortedFiles(ApplyEdit(v, AddFileEdit(level, f)).levels[l])
      ensures forall g :: g in ApplyEdit(v, AddFileEdit(level, f)).levels[l] <==> (l == level && g == f) || g in v.levels[l]
    {
      AddFileAppliesLevel(v, level, f, l);
    }
  }

  // ----- Flush -----

  /** The version a flush leaves: one more file, at the level it belongs to. */
  ghost predicate FlushesTo(v: Version, mem: seq<Entry>, number: nat, size: nat, grandparentLimit: nat, r: Version)
    requires |v.levels| == NUM_LEVELS
  {
    if |mem| == 0 then r == v
    else
      var f := FinishFile(number, size, mem);
      exists level :: FlushLevel(v, f.smallest.user, f.largest.user, grandparentLimit, level) && r == ApplyEdit(v, AddFileEdit(level, f))
  }

  /** WriteLevel0Table and the LogAndApply of CompactMemTable: the memtable's
      sorted entries become one file, at a level picked from `base`. */
  method Flush(v: Version, mem: seq<Entry>, number: nat, size: nat, grandparentLimit: nat)
    returns (r: Version)
    requires WellFormed(v) && NumbersBelow(v, number)
    requires SeqBounded(v, MAX_SEQUENCE)
    requires SortedEntries(mem) && Newer(Contents(mem), VersionEntries(v))
    requires Unique(Contents(mem) + VersionEntries(v))
    ensures WellFormed(r) && VersionEntries(r) == Contents(mem) + VersionEntries(v)
    ensures NumbersBelow(r, number + 1)
    ensures |v.levels| == NUM_LEVELS && FlushesTo(v, mem, number, size, grandparentLimit, r)
    ensures forall k, s :: ReadAt(VersionEntries(r), k, s) == ReadAt(Contents(mem) + VersionEntries(v), k, s)
  {
    WellFormedSize(v);
    if |mem| == 0 {
      return v;
    }
    var f := FinishFile(number, size, mem);
    LargestBounded(v);
    var level := PickLevelForMemTableOutput(v, f.smallest.user, f.largest.user, grandparentLimit);
    r := LogAndApply(v, AddFileEdit(level, f));
    FlushIsWellFormed(v, mem, number, size, grandparentLimit, r);
  }

  lemma FlushIsWellFormed(v: Version, mem: seq<Entry>, number: nat, size: nat, grandparentLimit: nat, r: Version)
    requires WellFormed(v) && |v.levels| == NUM_LEVELS && NumbersBelow(v, number)
    requires SortedEntries(mem) && Newer(Contents(mem), VersionEntries(v)) && Unique(Contents(mem) + VersionEntries(v))
    requires FlushesTo(v, mem, number, size, grandparentLimit, r)
    ensures WellFormed(r) && VersionEntries(r) == Contents(mem) + VersionEntries(v) && NumbersBelow(r, number + 1)
  {
    if |mem| == 0 {
      assert Contents(mem) + VersionEntries(v) == VersionEntries(v);
    } else {
      hide *;
      var level, f := FlushedFile(v, mem, number, size, grandparentLimit, r);
      FlushedMayJoin(v, level, f);
      AddFileApplies(v, level, f);
      AddedIsWellFormed(v, level, f, r);
      AddedNumbers(v, level, f, r);
    }
  }

  lemma FlushedFile(v: Version, mem: seq<Entry>, number: nat, size: nat, grandparentLimit: nat, r: Version) returns (level: nat, f: File)
    requires |v.levels| == NUM_LEVELS && SortedEntries(mem) && |mem| > 0 && FlushesTo(v, mem, number, size, grandparentLimit, r)
    ensures level < NUM_LEVELS && f.Valid() && f.number == number && f.Set() == Contents(mem) && r == ApplyEdit(v, AddFileEdit(level, f))
    ensures level > 0 ==> forall l | 0 <= l <= level :: !SomeOverlap(v.levels[l], Some(f.smallest.user), Some(f.largest.user))
  {
    f := FinishFile(number, size, mem);
    hide SomeOverlap, TooMany, ApplyEdit, AddFileEdit;
    level :| FlushLevel(v, f.smallest.user, f.largest.user, grandparentLimit, level) && r == ApplyEdit(v, AddFileEdit(level, f));
  }

  lemma AddedNumbers(v: Version, level: nat, f: File, r: Version)
    requires |v.levels| == NUM_LEVELS && level < NUM_LEVELS && Added(v, level, f, r) && NumbersBelow(v, f.number)
    ensures NumbersBelow(r, f.number + 1)
  {
    hide SortedFiles;
  }

  lemma LargestBounded(v: Version)
    requires WellFormed(v) && SeqBounded(v, MAX_SEQUENCE)
    ensures forall l | 0 <= l < NUM_LEVELS :: KeysBounded(v.levels[l])
  {
    forall l, f | 0 <= l < NUM_LEVELS && f in v.levels[l] ensures f.largest.seqno <= MAX_SEQUENCE {
      LevelFactsHold(v, l);
      InVersion(v, l, f, f.entries[|f.entries| - 1]);
    }
  }

  lemma FlushedMayJoin(v: Version, level: nat, f: File)
    requires WellFormed(v) && level < NUM_LEVELS && f.Valid() && NumbersBelow(v, f.number)
    requires Newer(f.Set(), VersionEntries(v))
    requires level > 0 ==> forall l | 0 <= l <= level :: !SomeOverlap(v.levels[l], Some(f.smallest.user), Some(f.largest.user))
    ensures MayJoin(v, level, f)
  {
    forall l, g | 0 <= l < NUM_LEVELS && g in v.levels[l] ensures Newer(f.Set(), g.Set()) {
      forall e | e in g.Set() ensures e in VersionEntries(v) {
        InVersion(v, l, g, e);
      }
    }
  }

  // ----- Trivial move -----

  lemma MovedNumbers(v: Version, level: nat, f: File)
    requires WellFormed(v) && level + 1 < NUM_LEVELS && f in v.levels[level]
    ensures FreshOutputs(v, level, [f])
    ensures forall l, g | 0 <= l < NUM_LEVELS && g in v.levels[l] && g.number == f.number :: l == level && g == f
  {
    forall l, g | 0 <= l < NUM_LEVELS && g in v.levels[l] && g.number == f.number ensures l == level && g == f {
      if l == level { LevelNumbersDistinct(v, l, f, g); }
    }
    var next := v.levels[level + 1];
    assert ValidFiles(next);
    assert forall i | 0 <= i < |next| :: next[i] in next;
  }

  lemma MovedOutputIsFine(v: Version, level: nat, f: File)
    requires WellFormed(v) && level + 1 < NUM_LEVELS && f in v.levels[level]
    ensures FineOutputs(v, level, [f], [], [f])
    ensures LevelEntries([f]) == f.Set()
  {
    assert f.Valid() by { LevelFactsHold(v, level); }
    MovedNumbers(v, level, f);
    hide WellFormed;
    forall e | e in f.Set() ensures e in LevelEntries([f]) { InLevelEntries([f], f, e); }
  }

  lemma LoneInput(v: Version, level: nat, f: File)
    requires |v.levels| == NUM_LEVELS && level + 1 < NUM_LEVELS && GoodInputs(v, level, [f], [])
    ensures f in v.levels[level]
  {
    assert f in [f];
  }

  lemma MoveSplits(v: Version, level: nat, f: File)
    requires |v.levels| == NUM_LEVELS && level + 1 < NUM_LEVELS && f in v.levels[level]
    ensures VersionEntries(v) == LevelEntries([f]) + OtherEntries(v, level, [f], [])
  {
    VersionSplits(v, level, [f], []);
    assert LevelEntries([]) == {};
    hide VersionEntries, OtherEntries, LevelEntries;
    assert InputEntries([f], []) == LevelEntries([f]);
  }

  lemma MoveKeepsEntries(v: Version, level: nat, f: File, r: Version)
    requires WellFormed(v) && level + 1 < NUM_LEVELS && GoodInputs(v, level, [f], [])
    requires Replaced(v, level, [f], [], [f], r)
    ensures WellFormed(r) && VersionEntries(r) == VersionEntries(v)
  {
    assert |v.levels| == NUM_LEVELS;
    hide *;
    var files := [f];
    LoneInput(v, level, f);
    MovedOutputIsFine(v, level, f);
    ReplacedIsWellFormed(v, level, files, [], files, r);
    MoveSplits(v, level, f);
  }

  /** BackgroundCompaction's move of a lone input file to the next level. */
  method TrivialMove(v: Version, level: nat, f: File) returns (r: Version)
    requires WellFormed(v) && level + 1 < NUM_LEVELS && GoodInputs(v, level, [f], [])
    ensures WellFormed(r) && VersionEntries(r) == VersionEntries(v)
    ensures Replaced(v, level, [f], [], [f], r) && r == ApplyEdit(v, CompactionEdit(level, [f], [], [f]))
  {
    r := LogAndApply(v, CompactionEdit(level, [f], [], [f]));
    assert Replaced(v, level, [f], [], [f], r) by {
      LoneInput(v, level, f);
      MovedNumbers(v, level, f);
      EditReplaces(v, level, [f], [], [f]);
    }
    MoveKeepsEntries(v, level, f, r);
  }

  // ----- Compaction -----

  /** The sorted sequence a merging iterator over the input files yields. */
  function InsertEntry(e: Entry, es: seq<Entry>): seq<Entry> {
    if es == [] || Less(e.key, es[0].key) then [e] + es
    else if Less(es[0].key, e.key) then [es[0]] + InsertEntry(e, es[1..])
    else es
  }

  function SortEntries(es: seq<Entry>): seq<Entry> {
    if es == [] then [] else InsertEntry(es[0], SortEntries(es[1..]))
  }

  lemma {:induction false} InsertEntryMember(e: Entry, es: seq<Entry>, x: Entry)
    requires forall o | o in es && o.key == e.key :: o == e
    ensures x in InsertEntry(e, es) <==> x == e || x in es
  {
    if es != [] {
      assert es == [es[0]] + es[1..];
      if Less(es[0].key, e.key) {
        InsertEntryMember(e, es[1..], x);
      }
    }
  }

  lemma {:induction false} InsertEntrySorted(e: Entry, es: seq<Entry>)
    requires SortedEntries(es) && forall o | o in es && o.key == e.key :: o == e
    ensures SortedEntries(InsertEntry(e, es))
  {
    if es != [] && !Less(e.key, es[0].key) && Less(es[0].key, e.key) {
      var rest := InsertEntry(e, es[1..]);
      InsertEntrySorted(e, es[1..]);
      forall i | 0 <= i < |rest| ensures Less(es[0].key, rest[i].key) {
        InsertEntryMember(e, es[1..], rest[i]);
      }
    }
  }

  lemma InsertEntryMembers(e: Entry, es: seq<Entry>)
    requires SortedEntries(es) && forall o | o in es && o.key == e.key :: o == e
    ensures SortedEntries(InsertEntry(e, es))
    ensures Contents(InsertEntry(e, es)) == Contents(es) + {e}
  {
    InsertEntrySorted(e, es);
    forall x ensures x in Contents(InsertEntry(e, es)) <==> x in Contents(es) + {e} {
      InsertEntryMember(e, es, x);
    }
  }

  lemma {:induction false} SortEntriesMembers(es: seq<Entry>)
    requires Unique(Contents(es))
    ensures SortedEntries(SortEntries(es)) && Contents(SortEntries(es)) == Contents(es)
  {
    if es != [] {
      assert es == [es[0]] + es[1..];
      assert Contents(es) == {es[0]} + Contents(es[1..]);
      SortEntriesMembers(es[1..]);
      assert forall o | o in SortEntries(es[1..]) :: o in Contents(SortEntries(es[1..]));
      InsertEntryMembers(es[0], SortEntries(es[1..]));
    }
  }

  lemma {:induction false} FlattenContents(files: seq<File>)
    ensures Contents(Flatten(files)) == LevelEntries(files)
  {
    if files == [] {
    } else {
      var n := |files| - 1;
      FlattenContents(files[..n]);
      assert LevelEntries(files) == LevelEntries(files[..n]) + files[n].Set();
    }
  }

  lemma SortedSplit(a: seq<Entry>, b: seq<Entry>)
    requires SortedEntries(a + b)
    ensures SortedEntries(a) && SortedEntries(b)
    ensures forall x, y | x in a && y in b :: Less(x.key, y.key)
  {
    var all := a + b;
    assert forall i | 0 <= i < |a| :: all[i] == a[i];
    assert forall i | 0 <= i < |b| :: all[|a| + i] == b[i];
    forall x, y | x in a && y in b ensures Less(x.key, y.key) {
      var i :| 0 <= i < |a| && a[i] == x;
      var j :| 0 <= j < |b| && b[j] == y;
      assert Less(all[i].key, all[|a| + j].key);
    }
  }

  /** Consecutive pieces of a sorted sequence are valid files in order. */
  lemma {:induction false} PiecesInOrder(files: seq<File>)
    requires SortedEntries(Flatten(files)) && forall i | 0 <= i < |files| :: Covers(files[i])
    ensures forall i | 0 <= i < |files| :: files[i].Valid()
    ensures forall i, j | 0 <= i < j < |files| :: Less(files[i].largest, files[j].smallest)
  {
    if files != [] {
      var n := |files| - 1;
      SortedSplit(Flatten(files[..n]), files[n].entries);
      PiecesInOrder(files[..n]);
      assert files[n].Valid();
      FlattenContents(files[..n]);
      hide SortedEntries, Flatten;
      forall i | 0 <= i < n ensures Less(files[i].largest, files[n].smallest) {
        var last := files[i].entries[|files[i].entries| - 1];
        InLevelEntries(files[..n], files[i], last);
        assert last in Contents(Flatten(files[..n]));
      }
    }
  }

  lemma OutputsContents(outs: seq<File>, first: nat, kept: seq<Entry>)
    requires OutputsOf(outs, [], first, kept)
    ensures LevelEntries(outs) == Contents(kept)
  {
    FlattenContents(outs);
    assert Flatten(outs) + [] == Flatten(outs);
  }

  lemma OutputsOrdered(outs: seq<File>, first: nat, kept: seq<Entry>)
    requires OutputsOf(outs, [], first, kept) && SortedEntries(kept)
    ensures forall i | 0 <= i < |outs| :: outs[i].Valid() && outs[i].number >= first
    ensures forall i, j | 0 <= i < j < |outs| :: Less(outs[i].largest, outs[j].smallest) && outs[i].number != outs[j].number
  {
    assert Flatten(outs) + [] == Flatten(outs);
    PiecesInOrder(outs);
  }

  lemma OutputsAreApart(outs: seq<File>, o: File, p: File)
    requires forall i, j | 0 <= i < j < |outs| :: Less(outs[i].largest, outs[j].smallest) && outs[i].number != outs[j].number
    requires o in outs && p in outs && o != p
    ensures o.number != p.number && Apart(o, p)
  {
    var i :| 0 <= i < |outs| && outs[i] == o;
    var j :| 0 <= j < |outs| && outs[j] == p;
  }

  lemma OutputsAreFine(v: Version, level: nat, in0: seq<File>, in1: seq<File>, outs: seq<File>, first: nat, kept: seq<Entry>)
    requires OutputsOf(outs, [], first, kept) && SortedEntries(kept)
    requires Contents(kept) <= InputEntries(in0, in1) && NumbersBelow(v, first)
    ensures FineOutputs(v, level, in0, in1, outs)
  {
    OutputsContents(outs, first, kept);
    OutputsOrdered(outs, first, kept);
    hide OutputsOf, SortedEntries, InputEntries;
    forall o | o in outs ensures o.Valid() && o.Set() <= InputEntries(in0, in1) && o.number >= first {
      var i :| 0 <= i < |outs| && outs[i] == o;
      forall e | e in o.Set() ensures e in LevelEntries(outs) { InLevelEntries(outs, o, e); }
    }
    forall o, p | o in outs && p in outs && o != p ensures o.number != p.number && Apart(o, p) {
      OutputsAreApart(outs, o, p);
    }
  }

  lemma OutputsAreFresh(v: Version, level: nat, outs: seq<File>, first: nat, kept: seq<Entry>)
    requires WellFormed(v) && level + 1 < NUM_LEVELS
    requires OutputsOf(outs, [], first, kept) && NumbersBelow(v, first)
    ensures FreshOutputs(v, level, outs)
  {
    var next := v.levels[level + 1];
    assert ValidFiles(next);
    assert forall i | 0 <= i < |next| :: next[i] in next;
  }

  /** The reads a compaction step must keep: every user key at every sequence
      number not below the smallest snapshot. */
  ghost predicate SameReadsFrom(snap: nat, v: Version, r: Version) {
    forall k, s | s >= snap :: ReadAt(VersionEntries(r), k, s) == ReadAt(VersionEntries(v), k, s)
  }

  /** No unchosen file brings an older value of a dropped tombstone's key back. */
  ghost predicate ClosedToTombstones(v: Version, level: nat, in0: seq<File>, in1: seq<File>, snap: nat)
    requires |v.levels| == NUM_LEVELS
  {
    NoResurrection(InputEntries(in0, in1), OtherEntries(v, level, in0, in1), snap, v, level)
  }

  lemma InputsContents(in0: seq<File>, in1: seq<File>)
    ensures Contents(Flatten(in0) + Flatten(in1)) == InputEntries(in0, in1)
  {
    FlattenContents(in0);
    FlattenContents(in1);
    assert Contents(Flatten(in0) + Flatten(in1)) == Contents(Flatten(in0)) + Contents(Flatten(in1));
  }

  lemma InputIsSortedUnion(v: Version, level: nat, in0: seq<File>, in1: seq<File>, input: seq<Entry>)
    requires WellFormed(v) && level + 1 < NUM_LEVELS && GoodInputs(v, level, in0, in1)
    requires input == SortEntries(Flatten(in0) + Flatten(in1))
    ensures SortedEntries(input) && Contents(input) == InputEntries(in0, in1) && Unique(Contents(input))
  {
    InputsContents(in0, in1);
    NextInputsAreNextFiles(v, level, in0, in1);
    VersionSplits(v, level, in0, in1);
    assert Unique(VersionEntries(v));
    UniqueSubset(InputEntries(in0, in1), VersionEntries(v));
    SortEntriesMembers(Flatten(in0) + Flatten(in1));
  }

  lemma CompactedVersion(v: Version, level: nat, in0: seq<File>, in1: seq<File>, input: seq<Entry>, snap: nat,
                         outs: seq<File>, first: nat)
    requires WellFormed(v) && level + 1 < NUM_LEVELS && GoodInputs(v, level, in0, in1)
    requires SortedEntries(input) && Contents(input) == InputEntries(in0, in1) && Unique(Contents(input))
    requires NumbersBelow(v, first) && OutputsOf(outs, [], first, Kept(v, level, snap, input, |input|))
    ensures var r := ApplyEdit(v, CompactionEdit(level, in0, in1, outs));
      && WellFormed(r)
      && Replaced(v, level, in0, in1, outs, r)
      && VersionEntries(r) == Survivors(InputEntries(in0, in1), snap, v, level) + OtherEntries(v, level, in0, in1)
  {
    assert |v.levels| == NUM_LEVELS;
    hide *;
    var kept := Kept(v, level, snap, input, |input|);
    KeptIsSorted(v, level, snap, input, |input|);
    KeptAreSurvivors(v, level, snap, input);
    SurvivorsAreInputs(InputEntries(in0, in1), snap, v, level);
    OutputsAreFine(v, level, in0, in1, outs, first, kept);
    OutputsAreFresh(v, level, outs, first, kept);
    OutputsContents(outs, first, kept);
    NextInputsAreNextFiles(v, level, in0, in1);
    LevelInputsAreFiles(v, level, in0, in1);
    EditReplaces(v, level, in0, in1, outs);
    ReplacedIsWellFormed(v, level, in0, in1, outs, ApplyEdit(v, CompactionEdit(level, in0, in1, outs)));
  }

  lemma LevelInputsAreFiles(v: Version, level: nat, in0: seq<File>, in1: seq<File>)
    requires |v.levels| == NUM_LEVELS && level + 1 < NUM_LEVELS && GoodInputs(v, level, in0, in1)
    ensures forall f | f in in0 :: f in v.levels[level]
  {
  }

  lemma SurvivorsAreInputs(I: set<Entry>, snap: nat, v: Version, level: nat)
    requires |v.levels| == NUM_LEVELS
    ensures Survivors(I, snap, v, level) <= I
  {
  }

  lemma ReadsOfCompacted(v: Version, level: nat, in0: seq<File>, in1: seq<File>, snap: nat, r: Version)
    requires WellFormed(v) && level + 1 < NUM_LEVELS && GoodInputs(v, level, in0, in1)
    requires VersionEntries(r) == Survivors(InputEntries(in0, in1), snap, v, level) + OtherEntries(v, level, in0, in1)
    ensures SameReadsFrom(snap, v, r) <==> ClosedToTombstones(v, level, in0, in1, snap)
  {
    var I, O := InputEntries(in0, in1), OtherEntries(v, level, in0, in1);
    WellFormedSize(v);
    hide *;
    NextInputsAreNextFiles(v, level, in0, in1);
    LevelInputsAreFiles(v, level, in0, in1);
    VersionSplits(v, level, in0, in1);
    UniqueVersion(v);
    ReadsKeptExactlyWithoutResurrection(I, O, snap, v, level);
    ReadsOfParts(v, r, I, O, snap, level);
    ClosedIs(v, level, in0, in1, snap);
  }

  lemma UniqueVersion(v: Version)
    requires WellFormed(v)
    ensures Unique(VersionEntries(v))
  {
  }

  lemma ReadsOfParts(v: Version, r: Version, I: set<Entry>, O: set<Entry>, snap: nat, level: nat)
    requires |v.levels| == NUM_LEVELS && VersionEntries(v) == I + O && VersionEntries(r) == Survivors(I, snap, v, level) + O
    ensures SameReadsFrom(snap, v, r) <==> ReadsKept(I, O, snap, v, level)
  {
    hide ReadAt, Survivors, VersionEntries;
  }

  lemma ClosedIs(v: Version, level: nat, in0: seq<File>, in1: seq<File>, snap: nat)
    requires |v.levels| == NUM_LEVELS
    ensures ClosedToTombstones(v, level, in0, in1, snap) <==>
      NoResurrection(InputEntries(in0, in1), OtherEntries(v, level, in0, in1), snap, v, level)
  {
  }

  /** The version a compaction leaves: the inputs are gone, the entries that the
      merge loop keeps are in new files, cut anywhere. */
  ghost predicate CompactsTo(v: Version, level: nat, in0: seq<File>, in1: seq<File>, snap: nat, first: nat, outs: seq<File>, r: Version)
    requires |v.levels| == NUM_LEVELS
  {
    var input := SortEntries(Flatten(in0) + Flatten(in1));
    && OutputsOf(outs, [], first, Kept(v, level, snap, input, |input|))
    && r == ApplyEdit(v, CompactionEdit(level, in0, in1, outs))
  }

  /** A whole compaction: merge, drop, write, install.  The level invariant is
      kept, and reads at or above the smallest snapshot are kept exactly when
      the inputs are closed to tombstones. */
  method CompactFiles(v: Version, level: nat, in0: seq<File>, in1: seq<File>, snap: nat, first: nat)
    returns (r: Version, outs: seq<File>)
    requires WellFormed(v) && level + 1 < NUM_LEVELS && GoodInputs(v, level, in0, in1)
    requires snap < MAX_SEQUENCE && NumbersBelow(v, first)
    ensures WellFormed(r) && Replaced(v, level, in0, in1, outs, r) && Numbered(outs, first)
    ensures VersionEntries(r) == Survivors(InputEntries(in0, in1), snap, v, level) + OtherEntries(v, level, in0, in1)
    ensures SameReadsFrom(snap, v, r) <==> ClosedToTombstones(v, level, in0, in1, snap)
    ensures forall a, b | a in LevelEntries(outs) && b in LevelEntries(outs) && a.key.user == b.key.user
              && a.key.seqno <= snap && b.key.seqno <= snap :: a == b
    ensures |v.levels| == NUM_LEVELS && CompactsTo(v, level, in0, in1, snap, first, outs, r)
  {
    hide *;
    WellFormedSize(v);
    LevelsAscend(v);
    var input := SortEntries(Flatten(in0) + Flatten(in1));
    InputIsSortedUnion(v, level, in0, in1, input);
    var c := new Compaction(v, level);
    outs := DoCompactionWork(c, input, snap, first);
    var edit := CompactionEdit(level, in0, in1, outs);
    EditAtNext(level, in0, in1, outs);
    r := LogAndApply(v, edit);
    CompactedVersion(v, level, in0, in1, input, snap, outs, first);
    NothingNeedlessStays(InputEntries(in0, in1), snap, v, level);
    WrittenSurvive(v, level, snap, input, outs, first);
    ReadsOfCompacted(v, level, in0, in1, snap, r);
    IsCompaction(v, level, in0, in1, snap, first, outs, r);
  }

  lemma WrittenSurvive(v: Version, level: nat, snap: nat, input: seq<Entry>, outs: seq<File>, first: nat)
    requires |v.levels| == NUM_LEVELS && SortedEntries(input) && Unique(Contents(input))
    requires OutputsOf(outs, [], first, Kept(v, level, snap, input, |input|))
    ensures LevelEntries(outs) == Survivors(Contents(input), snap, v, level)
  {
    hide *;
    KeptAreSurvivors(v, level, snap, input);
    OutputsContents(outs, first, Kept(v, level, snap, input, |input|));
  }

  lemma LevelsAscend(v: Version)
    requires WellFormed(v) && |v.levels| == NUM_LEVELS
    ensures forall l | 0 < l < NUM_LEVELS :: Ascending(v.levels[l])
  {
    forall l | 0 < l < NUM_LEVELS ensures Ascending(v.levels[l]) {
      ValidIsProper(v.levels[l]);
      SortedLevelAscends(v.levels[l]);
    }
  }

  lemma EditAtNext(level: nat, in0: seq<File>, in1: seq<File>, outs: seq<File>)
    requires level + 1 < NUM_LEVELS
    ensures var e := CompactionEdit(level, in0, in1, outs); forall i | 0 <= i < |e.added| :: e.added[i].0 < NUM_LEVELS
  {
  }

  lemma IsCompaction(v: Version, level: nat, in0: seq<File>, in1: seq<File>, snap: nat, first: nat, outs: seq<File>, r: Version)
    requires |v.levels| == NUM_LEVELS
    requires var input := SortEntries(Flatten(in0) + Flatten(in1)); OutputsOf(outs, [], first, Kept(v, level, snap, input, |input|))
    requires r == ApplyEdit(v, CompactionEdit(level, in0, in1, outs))
    ensures CompactsTo(v, level, in0, in1, snap, first, outs, r) && Numbered(outs, first)
  {
    hide Kept, SortEntries, ApplyEdit, CompactionEdit;
  }
}
