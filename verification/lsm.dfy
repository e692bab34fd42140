/** Installing flushes, trivial moves and compactions into a version. */
module LsmTree {
  import opened DbFormat
  import opened Versions
  import opened Picking
  import opened VersionBuilder
  import opened CompactionWork

  /** A version as the builder leaves it. */
  ghost predicate WellFormed(v: Version) {
    && ValidVersion(v)
    && (forall l | 0 <= l < NUM_LEVELS :: SortedFiles(v.levels[l]))
    && (forall l, m, f, g | 0 <= l < m < NUM_LEVELS && f in v.levels[l] && g in v.levels[m] :: f.number != g.number)
  }

  lemma WellFormedSize(v: Version)
    requires WellFormed(v)
    ensures |v.levels| == NUM_LEVELS
  {
  }

  ghost predicate Apart(f: File, g: File) {
    Less(f.largest, g.smallest) || Less(g.largest, f.smallest)
  }

  /** The same facts stated file by file instead of index by index. */
  ghost predicate LevelFacts(l: nat, files: seq<File>) {
    && (forall f | f in files :: f.Valid())
    && (forall f, g | f in files && g in files && f != g :: f.number != g.number)
    && (l > 0 ==> forall f, g | f in files && g in files && f != g :: Apart(f, g))
    && (l == 0 ==> forall f, g | f in files && g in files && f.number > g.number :: Newer(f.Set(), g.Set()))
  }

  ghost predicate CrossFacts(upper: seq<File>, lower: seq<File>) {
    forall f, g | f in upper && g in lower :: Newer(f.Set(), g.Set()) && f.number != g.number
  }

  lemma LevelPair(v: Version, l: nat, f: File, g: File)
    requires WellFormed(v) && l < NUM_LEVELS && f in v.levels[l] && g in v.levels[l] && f != g
    ensures f.number != g.number && (l > 0 ==> Apart(f, g))
    ensures l == 0 && f.number > g.number ==> Newer(f.Set(), g.Set())
  {
    var files := v.levels[l];
    assert ValidFiles(files) && (l > 0 ==> Disjoint(files));
    var i :| 0 <= i < |files| && files[i] == f;
    var j :| 0 <= j < |files| && files[j] == g;
  }

  lemma LevelFactsHold(v: Version, l: nat)
    requires WellFormed(v) && l < NUM_LEVELS
    ensures LevelFacts(l, v.levels[l])
  {
    var files := v.levels[l];
    assert forall f | f in files :: f.Valid() by {
      assert ValidFiles(files);
    }
    hide *;
    forall f, g | f in files && g in files && f != g
      ensures f.number != g.number && (l > 0 ==> Apart(f, g))
      ensures l == 0 && f.number > g.number ==> Newer(f.Set(), g.Set())
    {
      LevelPair(v, l, f, g);
    }
    AssembleLevelFacts(l, files);
  }

  lemma CrossPair(v: Version, l: nat, m: nat, f: File, g: File)
    requires WellFormed(v) && l < m < NUM_LEVELS && f in v.levels[l] && g in v.levels[m]
    ensures Newer(f.Set(), g.Set()) && f.number != g.number
  {
    assert Newer(LevelEntries(v.levels[l]), LevelEntries(v.levels[m]));
    hide WellFormed, ValidVersion;
    assert f.Set() <= LevelEntries(v.levels[l]) && g.Set() <= LevelEntries(v.levels[m]);
  }

  lemma CrossFactsHold(v: Version, l: nat, m: nat)
    requires WellFormed(v) && l < m < NUM_LEVELS
    ensures CrossFacts(v.levels[l], v.levels[m])
  {
    forall f, g | f in v.levels[l] && g in v.levels[m] ensures Newer(f.Set(), g.Set()) && f.number != g.number {
      CrossPair(v, l, m, f, g);
    }
  }

  lemma FactsGiveLevel(l: nat, files: seq<File>)
    requires LevelFacts(l, files) && SortedFiles(files)
    ensures ValidFiles(files) && (l > 0 ==> Disjoint(files)) && (l == 0 ==> NewerByNumber(files))
  {
    forall i, j | 0 <= i < j < |files|
      ensures files[i].number != files[j].number && (l > 0 ==> Less(files[i].largest, files[j].smallest))
    {
      assert FileBefore(files[i], files[j]) && files[i] in files && files[j] in files;
      FileBounds(files[i], files[i].entries[0]);
      FileBounds(files[j], files[j].entries[0]);
    }
  }

  lemma FactsGiveNewer(upper: seq<File>, lower: seq<File>)
    requires CrossFacts(upper, lower)
    ensures Newer(LevelEntries(upper), LevelEntries(lower))
  {
    forall a, b | a in LevelEntries(upper) && b in LevelEntries(lower) && a.key.user == b.key.user
      ensures a.key.seqno > b.key.seqno
    {
      var i :| 0 <= i < |upper| && a in upper[i].entries;
      var j :| 0 <= j < |lower| && b in lower[j].entries;
      assert a in upper[i].Set() && b in lower[j].Set();
    }
  }

  lemma FactsGiveWellFormed(v: Version)
    requires |v.levels| == NUM_LEVELS
    requires forall l | 0 <= l < NUM_LEVELS :: SortedFiles(v.levels[l]) && LevelFacts(l, v.levels[l])
    requires forall l, m | 0 <= l < m < NUM_LEVELS :: CrossFacts(v.levels[l], v.levels[m])
    requires Unique(VersionEntries(v))
    ensures WellFormed(v)
  {
    forall l | 0 <= l < NUM_LEVELS
      ensures ValidFiles(v.levels[l]) && (l > 0 ==> Disjoint(v.levels[l])) && (l == 0 ==> NewerByNumber(v.levels[l]))
    {
      FactsGiveLevel(l, v.levels[l]);
    }
    forall l, m | 0 <= l < m < NUM_LEVELS ensures Newer(LevelEntries(v.levels[l]), LevelEntries(v.levels[m])) {
      FactsGiveNewer(v.levels[l], v.levels[m]);
    }
  }

  // ----- Replacing input files by output files -----

  predicate Removed(level: nat, in0: seq<File>, in1: seq<File>, l: nat, f: File) {
    (l == level && f in in0) || (l == level + 1 && f in in1)
  }

  /** The files of one level after the replacement come from the outputs or stayed. */
  ghost predicate Stays(v: Version, level: nat, in0: seq<File>, in1: seq<File>, outs: seq<File>, l: nat, f: File)
    requires |v.levels| == NUM_LEVELS && l < NUM_LEVELS
  {
    (l == level + 1 && f in outs) || (f in v.levels[l] && !Removed(level, in0, in1, l, f))
  }

  ghost predicate Replaced(v: Version, level: nat, in0: seq<File>, in1: seq<File>, outs: seq<File>, r: Version)
    requires |v.levels| == NUM_LEVELS
  {
    && |r.levels| == NUM_LEVELS
    && (forall l | 0 <= l < NUM_LEVELS :: SortedFiles(r.levels[l]))
    && (forall l, f | 0 <= l < NUM_LEVELS :: f in r.levels[l] <==> Stays(v, level, in0, in1, outs, l, f))
  }

  ghost function InputEntries(in0: seq<File>, in1: seq<File>): set<Entry> {
    LevelEntries(in0) + LevelEntries(in1)
  }

  /** Entries in files a compaction does not take. */
  ghost function OtherEntries(v: Version, level: nat, in0: seq<File>, in1: seq<File>): set<Entry> {
    set l, i, e | 0 <= l < |v.levels| && 0 <= i < |v.levels[l]| && !Removed(level, in0, in1, l, v.levels[l][i])
                  && e in v.levels[l][i].entries :: e
  }

  ghost predicate FineOutputs(v: Version, level: nat, in0: seq<File>, in1: seq<File>, outs: seq<File>) {
    && (forall o | o in outs :: o.Valid() && o.Set() <= InputEntries(in0, in1))
    && (forall o, p | o in outs && p in outs && o != p :: o.number != p.number && Apart(o, p))
    && (forall o, l, f | o in outs && 0 <= l < |v.levels| && f in v.levels[l] && f.number == o.number ::
          Removed(level, in0, in1, l, f))
  }

  lemma InLevelEntries(files: seq<File>, f: File, e: Entry)
    requires f in files && e in f.entries
    ensures e in LevelEntries(files)
  {
    var i :| 0 <= i < |files| && files[i] == f;
  }

  lemma HolderOf(files: seq<File>, e: Entry) returns (f: File)
    requires e in LevelEntries(files)
    ensures f in files && e in f.entries
  {
    var i :| 0 <= i < |files| && e in files[i].entries;
    f := files[i];
  }

  lemma InVersion(v: Version, l: nat, f: File, e: Entry)
    requires l < |v.levels| && f in v.levels[l] && e in f.entries
    ensures e in VersionEntries(v)
  {
    InLevelEntries(v.levels[l], f, e);
  }

  /** At a sorted level, a file before the run holds only newer entries of a
      shared user key, and a file after a closed run shares none. */
  lemma OutsideClosedRun(files: seq<File>, run: seq<File>, f: File, g: File)
    requires AllProper(files) && Disjoint(files) && ClosedRun(files, run)
    requires f in run && g in files && g !in run
    ensures Less(g.largest, f.smallest) || f.largest.user < g.smallest.user
  {
    var a, b :| 0 <= a < b <= |files| && run == files[a..b]
      && (b < |files| ==> files[b - 1].largest.user != files[b].smallest.user);
    var i, j := IndicesAround(files, a, b, f, g);
    if i < a {
      RunOrder(files, i, j);
    } else {
      AfterClosedRun(files, b, i, j);
    }
  }

  lemma IndicesAround(files: seq<File>, a: nat, b: nat, f: File, g: File) returns (i: nat, j: nat)
    requires a < b <= |files| && f in files[a..b] && g in files && g !in files[a..b]
    ensures a <= j < b && files[j] == f
    ensures i < |files| && files[i] == g && (i < a || i >= b)
  {
    i :| 0 <= i < |files| && files[i] == g;
    j :| a <= j < b && files[j] == f;
    assert forall k | a <= k < b :: files[k] == files[a..b][k - a];
  }

  /** An unchosen file of the input level holds no older entry of a chosen file's user key. */
  lemma OtherAtLevelIsNewer(v: Version, level: nat, in0: seq<File>, f: File, g: File, e: Entry, o: Entry)
    requires WellFormed(v) && level + 1 < NUM_LEVELS && LevelInputs(v, level, in0)
    requires level > 0 ==> ClosedRun(v.levels[level], in0)
    requires f in in0 && g in v.levels[level] && g !in in0
    requires e in f.entries && o in g.entries && e.key.user == o.key.user
    ensures o.key.seqno > e.key.seqno
  {
    FileBounds(f, e);
    FileBounds(g, o);
    if level == 0 {
      assert Touch(g, f);
    } else {
      assert ValidFiles(v.levels[level]) && Disjoint(v.levels[level]);
      ValidIsProper(v.levels[level]);
      OutsideClosedRun(v.levels[level], in0, f, g);
      InVersion(v, level, f, e);
      InVersion(v, level, g, o);
      EarlierIsNewer(VersionEntries(v), o, e);
    }
  }

  lemma EarlierIsNewer(E: set<Entry>, o: Entry, e: Entry)
    requires Unique(E) && o in E && e in E && o.key.user == e.key.user && Less(o.key, e.key)
    ensures o.key.seqno > e.key.seqno
  {
  }

  lemma AfterClosedRun(files: seq<File>, b: nat, i: nat, j: nat)
    requires AllProper(files) && Disjoint(files) && j < b <= i < |files|
    requires files[b - 1].largest.user != files[b].smallest.user
    ensures files[j].largest.user < files[i].smallest.user
  {
    RunOrder(files, b - 1, b);
    if j < b - 1 { RunOrder(files, j, b - 1); }
    if b < i { RunOrder(files, b, i); }
  }

  /** An unchosen file of the next level lies wholly before or after all inputs. */
  lemma OtherAtNextIsAside(v: Version, level: nat, in0: seq<File>, in1: seq<File>, u: File)
    requires WellFormed(v) && level + 1 < NUM_LEVELS && GoodInputs(v, level, in0, in1)
    requires u in v.levels[level + 1] && u !in in1
    ensures (forall e | e in InputEntries(in0, in1) :: Less(u.largest, e.key))
         || (forall e | e in InputEntries(in0, in1) :: Less(e.key, u.smallest))
    ensures forall e | e in LevelEntries(in0) :: e.key.user < u.smallest.user || u.largest.user < e.key.user
  {
    var lo, hi := SmallestOf(in0).user, LargestOf(in0).user;
    OverlappingMembers(v.levels[level + 1], Some(lo), Some(hi));
    assert u.largest.user < lo || u.smallest.user > hi;
    forall e | e in LevelEntries(in0) ensures lo <= e.key.user <= hi {
      EntryWithinRange(v, level, in0, e);
    }
    forall e | e in LevelEntries(in1)
      ensures u.largest.user < lo ==> Less(u.largest, e.key)
      ensures u.smallest.user > hi ==> Less(e.key, u.smallest)
    {
      var g := HolderOf(in1, e);
      AsideOfNeighbour(v, level + 1, u, g, e, lo, hi);
    }
  }

  lemma AsideOfNeighbour(v: Version, l: nat, u: File, g: File, e: Entry, lo: UserKey, hi: UserKey)
    requires WellFormed(v) && 0 < l < NUM_LEVELS
    requires u in v.levels[l] && g in v.levels[l] && u != g && e in g.entries
    requires Overlaps(g, Some(lo), Some(hi))
    ensures u.largest.user < lo ==> Less(u.largest, e.key)
    ensures u.smallest.user > hi ==> Less(e.key, u.smallest)
  {
    LevelFactsHold(v, l);
    assert Apart(u, g);
    FileBounds(g, e);
    FileBounds(u, u.entries[0]);
  }

  lemma EntryWithinRange(v: Version, level: nat, in0: seq<File>, e: Entry)
    requires WellFormed(v) && level + 1 < NUM_LEVELS && LevelInputs(v, level, in0)
    requires e in LevelEntries(in0)
    ensures SmallestOf(in0).user <= e.key.user <= LargestOf(in0).user
  {
    var f := HolderOf(in0, e);
    LevelFactsHold(v, level);
    FileBounds(f, e);
    var s := SmallestFile(in0);
    var l := LargestFile(in0);
  }

  // ----- The level facts after a replacement -----

  lemma OutputOrigin(v: Version, level: nat, in0: seq<File>, in1: seq<File>, o: File, e: Entry) returns (l: nat, f: File)
    requires |v.levels| == NUM_LEVELS && level + 1 < NUM_LEVELS
    requires (forall f | f in in0 :: f in v.levels[level]) && (forall f | f in in1 :: f in v.levels[level + 1])
    requires o.Set() <= InputEntries(in0, in1) && e in o.entries
    ensures l == level || l == level + 1
    ensures f in v.levels[l] && Removed(level, in0, in1, l, f) && e in f.entries
  {
    assert e in o.Set();
    if e in LevelEntries(in0) {
      f := HolderOf(in0, e);
      l := level;
    } else {
      f := HolderOf(in1, e);
      l := level + 1;
    }
  }

  lemma NextInputsAreNextFiles(v: Version, level: nat, in0: seq<File>, in1: seq<File>)
    requires |v.levels| == NUM_LEVELS && level + 1 < NUM_LEVELS && GoodInputs(v, level, in0, in1)
    ensures forall f | f in in1 :: f in v.levels[level + 1]
  {
    OverlappingMembers(v.levels[level + 1], Some(SmallestOf(in0).user), Some(LargestOf(in0).user));
  }

  lemma NewerFiles(v: Version, l: nat, m: nat, f: File, g: File, a: Entry, b: Entry)
    requires WellFormed(v) && l < m < NUM_LEVELS && f in v.levels[l] && g in v.levels[m]
    requires a in f.entries && b in g.entries && a.key.user == b.key.user
    ensures a.key.seqno > b.key.seqno
  {
    CrossFactsHold(v, l, m);
    assert a in f.Set() && b in g.Set();
  }

  lemma OutputApartFromOther(v: Version, level: nat, in0: seq<File>, in1: seq<File>, o: File, u: File)
    requires WellFormed(v) && level + 1 < NUM_LEVELS && GoodInputs(v, level, in0, in1)
    requires o.Valid() && o.Set() <= InputEntries(in0, in1)
    requires u in v.levels[level + 1] && u !in in1
    ensures Apart(o, u)
  {
    OtherAtNextIsAside(v, level, in0, in1, u);
    assert o.entries[0] in o.Set() && o.entries[|o.entries| - 1] in o.Set();
  }

  lemma FineOutput(v: Version, level: nat, in0: seq<File>, in1: seq<File>, outs: seq<File>, o: File, l: nat, u: File)
    requires FineOutputs(v, level, in0, in1, outs) && o in outs
    requires l < |v.levels| && u in v.levels[l] && !Removed(level, in0, in1, l, u)
    ensures o.Valid() && o.Set() <= InputEntries(in0, in1) && o.number != u.number
  {
  }

  lemma OutputsApart(v: Version, level: nat, in0: seq<File>, in1: seq<File>, outs: seq<File>, o: File, p: File)
    requires FineOutputs(v, level, in0, in1, outs) && o in outs && p in outs && o != p
    ensures o.number != p.number && Apart(o, p)
  {
  }

  lemma ApartSymmetric(f: File, g: File)
    requires Apart(f, g)
    ensures Apart(g, f)
  {
  }

  lemma ReplacedPair(v: Version, level: nat, in0: seq<File>, in1: seq<File>, outs: seq<File>, l: nat, f: File, g: File)
    requires WellFormed(v) && level + 1 < NUM_LEVELS && GoodInputs(v, level, in0, in1)
    requires FineOutputs(v, level, in0, in1, outs) && l < NUM_LEVELS && f != g
    requires Stays(v, level, in0, in1, outs, l, f)
    requires Stays(v, level, in0, in1, outs, l, g)
    ensures f.number != g.number && (l > 0 ==> Apart(f, g))
  {
    assert |v.levels| == NUM_LEVELS;
    hide WellFormed, GoodInputs, FineOutputs, Apart;
    var fOut, gOut := l == level + 1 && f in outs, l == level + 1 && g in outs;
    if fOut && gOut {
      OutputsApart(v, level, in0, in1, outs, f, g);
    } else if fOut {
      FineOutput(v, level, in0, in1, outs, f, l, g);
      OutputApartFromOther(v, level, in0, in1, f, g);
    } else if gOut {
      FineOutput(v, level, in0, in1, outs, g, l, f);
      OutputApartFromOther(v, level, in0, in1, g, f);
      ApartSymmetric(g, f);
    } else {
      LevelPair(v, l, f, g);
    }
  }

  lemma ReplacedPairs(v: Version, level: nat, in0: seq<File>, in1: seq<File>, outs: seq<File>, l: nat, files: seq<File>)
    requires WellFormed(v) && level + 1 < NUM_LEVELS && GoodInputs(v, level, in0, in1)
    requires FineOutputs(v, level, in0, in1, outs)
    requires l < NUM_LEVELS && forall f | f in files :: Stays(v, level, in0, in1, outs, l, f)
    ensures forall f, g | f in files && g in files && f != g :: f.number != g.number && (l > 0 ==> Apart(f, g))
  {
    hide *;
    forall f, g | f in files && g in files && f != g
      ensures f.number != g.number && (l > 0 ==> Apart(f, g))
    {
      ReplacedPair(v, level, in0, in1, outs, l, f, g);
    }
  }

  lemma ReplacedAtZero(v: Version, level: nat, in0: seq<File>, in1: seq<File>, outs: seq<File>, files: seq<File>)
    requires WellFormed(v) && forall f | f in files :: Stays(v, level, in0, in1, outs, 0, f)
    ensures forall f, g | f in files && g in files && f.number > g.number :: Newer(f.Set(), g.Set())
  {
    forall f, g | f in files && g in files && f.number > g.number ensures Newer(f.Set(), g.Set()) {
      StaysAtZero(v, level, in0, in1, outs, f);
      StaysAtZero(v, level, in0, in1, outs, g);
      LevelZeroPair(v, f, g);
    }
  }

  lemma ReplacedLevelFacts(v: Version, level: nat, in0: seq<File>, in1: seq<File>, outs: seq<File>, l: nat, files: seq<File>)
    requires WellFormed(v) && level + 1 < NUM_LEVELS && GoodInputs(v, level, in0, in1)
    requires FineOutputs(v, level, in0, in1, outs)
    requires l < NUM_LEVELS && forall f | f in files :: Stays(v, level, in0, in1, outs, l, f)
    ensures LevelFacts(l, files)
  {
    hide *;
    assert forall f | f in files :: f.Valid() by {
      forall f | f in files ensures f.Valid() {
        ReplacedValid(v, level, in0, in1, outs, l, f);
      }
    }
    ReplacedPairs(v, level, in0, in1, outs, l, files);
    if l == 0 {
      ReplacedAtZero(v, level, in0, in1, outs, files);
    }
    AssembleLevelFacts(l, files);
  }

  lemma AssembleLevelFacts(l: nat, files: seq<File>)
    requires forall f | f in files :: f.Valid()
    requires forall f, g | f in files && g in files && f != g :: f.number != g.number && (l > 0 ==> Apart(f, g))
    requires l == 0 ==> forall f, g | f in files && g in files && f != g && f.number > g.number :: Newer(f.Set(), g.Set())
    ensures LevelFacts(l, files)
  {
  }

  lemma StaysAtZero(v: Version, level: nat, in0: seq<File>, in1: seq<File>, outs: seq<File>, f: File)
    requires |v.levels| == NUM_LEVELS && Stays(v, level, in0, in1, outs, 0, f)
    ensures f in v.levels[0]
  {
  }

  lemma ReplacedValid(v: Version, level: nat, in0: seq<File>, in1: seq<File>, outs: seq<File>, l: nat, f: File)
    requires WellFormed(v) && FineOutputs(v, level, in0, in1, outs)
    requires l < NUM_LEVELS && Stays(v, level, in0, in1, outs, l, f)
    ensures f.Valid()
  {
    LevelFactsHold(v, l);
  }

  lemma LevelZeroPair(v: Version, f: File, g: File)
    requires WellFormed(v) && f in v.levels[0] && g in v.levels[0] && f.number > g.number
    ensures Newer(f.Set(), g.Set())
  {
    LevelFactsHold(v, 0);
  }

  /** Every entry of an unchosen shallower file is newer than an output's entry of the same key. */
  lemma OtherAboveOutput(v: Version, level: nat, in0: seq<File>, in1: seq<File>, outs: seq<File>, l: nat, f: File, o: File, a: Entry, b: Entry)
    requires WellFormed(v) && level + 1 < NUM_LEVELS && GoodInputs(v, level, in0, in1)
    requires FineOutputs(v, level, in0, in1, outs) && o in outs && b in o.entries
    requires l <= level && f in v.levels[l] && !Removed(level, in0, in1, l, f) && a in f.entries
    requires a.key.user == b.key.user
    ensures a.key.seqno > b.key.seqno
  {
    NextInputsAreNextFiles(v, level, in0, in1);
    var m, g := OutputOrigin(v, level, in0, in1, o, b);
    if l == level == m {
      OtherAtLevelIsNewer(v, level, in0, g, f, b, a);
    } else {
      NewerFiles(v, l, m, f, g, a, b);
    }
  }

  lemma OutputAboveOther(v: Version, level: nat, in0: seq<File>, in1: seq<File>, outs: seq<File>, m: nat, o: File, g: File, a: Entry, b: Entry)
    requires WellFormed(v) && level + 1 < NUM_LEVELS && GoodInputs(v, level, in0, in1)
    requires FineOutputs(v, level, in0, in1, outs) && o in outs && a in o.entries
    requires level + 1 < m < NUM_LEVELS && g in v.levels[m] && b in g.entries
    requires a.key.user == b.key.user
    ensures a.key.seqno > b.key.seqno
  {
    NextInputsAreNextFiles(v, level, in0, in1);
    var l, f := OutputOrigin(v, level, in0, in1, o, a);
    NewerFiles(v, l, m, f, g, a, b);
  }

  lemma ReplacedCrossPair(v: Version, level: nat, in0: seq<File>, in1: seq<File>, outs: seq<File>, l: nat, m: nat, f: File, g: File)
    requires WellFormed(v) && level + 1 < NUM_LEVELS && GoodInputs(v, level, in0, in1)
    requires FineOutputs(v, level, in0, in1, outs) && l < m < NUM_LEVELS
    requires Stays(v, level, in0, in1, outs, l, f)
    requires Stays(v, level, in0, in1, outs, m, g)
    ensures Newer(f.Set(), g.Set()) && f.number != g.number
  {
    var fOut, gOut := l == level + 1 && f in outs, m == level + 1 && g in outs;
    if gOut {
      FineOutput(v, level, in0, in1, outs, g, l, f);
      forall a, b | a in f.Set() && b in g.Set() && a.key.user == b.key.user ensures a.key.seqno > b.key.seqno {
        OtherAboveOutput(v, level, in0, in1, outs, l, f, g, a, b);
      }
    } else if fOut {
      FineOutput(v, level, in0, in1, outs, f, m, g);
      forall a, b | a in f.Set() && b in g.Set() && a.key.user == b.key.user ensures a.key.seqno > b.key.seqno {
        OutputAboveOther(v, level, in0, in1, outs, m, f, g, a, b);
      }
    } else {
      CrossFactsHold(v, l, m);
    }
  }

  lemma ReplacedCrossFacts(v: Version, level: nat, in0: seq<File>, in1: seq<File>, outs: seq<File>,
                           l: nat, m: nat, upper: seq<File>, lower: seq<File>)
    requires WellFormed(v) && level + 1 < NUM_LEVELS && GoodInputs(v, level, in0, in1)
    requires FineOutputs(v, level, in0, in1, outs) && l < m < NUM_LEVELS
    requires forall f | f in upper :: Stays(v, level, in0, in1, outs, l, f)
    requires forall f | f in lower :: Stays(v, level, in0, in1, outs, m, f)
    ensures CrossFacts(upper, lower)
  {
    hide WellFormed, GoodInputs, FineOutputs, Stays;
    forall f, g | f in upper && g in lower ensures Newer(f.Set(), g.Set()) && f.number != g.number {
      ReplacedCrossPair(v, level, in0, in1, outs, l, m, f, g);
    }
  }

  lemma InOthers(v: Version, level: nat, in0: seq<File>, in1: seq<File>, l: nat, f: File, e: Entry)
    requires l < |v.levels| && f in v.levels[l] && !Removed(level, in0, in1, l, f) && e in f.entries
    ensures e in OtherEntries(v, level, in0, in1)
  {
    var i :| 0 <= i < |v.levels[l]| && v.levels[l][i] == f;
  }

  lemma OtherHolder(v: Version, level: nat, in0: seq<File>, in1: seq<File>, e: Entry) returns (l: nat, f: File)
    requires e in OtherEntries(v, level, in0, in1)
    ensures l < |v.levels| && f in v.levels[l] && !Removed(level, in0, in1, l, f) && e in f.entries
  {
    var k, i :| 0 <= k < |v.levels| && 0 <= i < |v.levels[k]| && !Removed(level, in0, in1, k, v.levels[k][i]) && e in v.levels[k][i].entries;
    l, f := k, v.levels[k][i];
  }

  lemma ReplacedEntries(v: Version, level: nat, in0: seq<File>, in1: seq<File>, outs: seq<File>, r: Version)
    requires |v.levels| == NUM_LEVELS && level + 1 < NUM_LEVELS && Replaced(v, level, in0, in1, outs, r)
    ensures VersionEntries(r) == LevelEntries(outs) + OtherEntries(v, level, in0, in1)
  {
    forall e | e in VersionEntries(r) ensures e in LevelEntries(outs) + OtherEntries(v, level, in0, in1) {
      var l :| 0 <= l < NUM_LEVELS && e in LevelEntries(r.levels[l]);
      var f := HolderOf(r.levels[l], e);
      ReplacedStays(v, level, in0, in1, outs, r, l);
      if l == level + 1 && f in outs {
        InLevelEntries(outs, f, e);
      } else {
        InOthers(v, level, in0, in1, l, f, e);
      }
    }
    forall e | e in LevelEntries(outs) ensures e in VersionEntries(r) {
      var f := HolderOf(outs, e);
      ReplacedStays(v, level, in0, in1, outs, r, level + 1);
      InVersion(r, level + 1, f, e);
    }
    forall e | e in OtherEntries(v, level, in0, in1) ensures e in VersionEntries(r) {
      var l, f := OtherHolder(v, level, in0, in1, e);
      ReplacedStays(v, level, in0, in1, outs, r, l);
      InVersion(r, l, f, e);
    }
  }

  lemma VersionSplits(v: Version, level: nat, in0: seq<File>, in1: seq<File>)
    requires |v.levels| == NUM_LEVELS && level + 1 < NUM_LEVELS
    requires (forall f | f in in0 :: f in v.levels[level]) && (forall f | f in in1 :: f in v.levels[level + 1])
    ensures VersionEntries(v) == InputEntries(in0, in1) + OtherEntries(v, level, in0, in1)
  {
    forall e | e in VersionEntries(v) ensures e in InputEntries(in0, in1) + OtherEntries(v, level, in0, in1) {
      var l :| 0 <= l < NUM_LEVELS && e in LevelEntries(v.levels[l]);
      var f := HolderOf(v.levels[l], e);
      if l == level && f in in0 {
        InLevelEntries(in0, f, e);
      } else if l == level + 1 && f in in1 {
        InLevelEntries(in1, f, e);
      } else {
        InOthers(v, level, in0, in1, l, f, e);
      }
    }
    forall e | e in InputEntries(in0, in1) ensures e in VersionEntries(v) {
      if e in LevelEntries(in0) {
        var f := HolderOf(in0, e);
        InVersion(v, level, f, e);
      } else {
        var f := HolderOf(in1, e);
        InVersion(v, level + 1, f, e);
      }
    }
    forall e | e in OtherEntries(v, level, in0, in1) ensures e in VersionEntries(v) {
      var l, f := OtherHolder(v, level, in0, in1, e);
      InVersion(v, l, f, e);
    }
  }

  lemma ReplacedUnique(v: Version, level: nat, in0: seq<File>, in1: seq<File>, outs: seq<File>, r: Version)
    requires WellFormed(v) && level + 1 < NUM_LEVELS && GoodInputs(v, level, in0, in1)
    requires FineOutputs(v, level, in0, in1, outs) && Replaced(v, level, in0, in1, outs, r)
    ensures Unique(VersionEntries(r))
    ensures VersionEntries(r) == LevelEntries(outs) + OtherEntries(v, level, in0, in1)
  {
    ReplacedEntries(v, level, in0, in1, outs, r);
    NextInputsAreNextFiles(v, level, in0, in1);
    VersionSplits(v, level, in0, in1);
    OutputsWithin(in0, in1, outs);
    UniqueSubset(VersionEntries(r), VersionEntries(v));
  }

  lemma UniqueSubset(A: set<Entry>, B: set<Entry>)
    requires A <= B && Unique(B)
    ensures Unique(A)
  {
  }

  lemma ReplacedStays(v: Version, level: nat, in0: seq<File>, in1: seq<File>, outs: seq<File>, r: Version, l: nat)
    requires |v.levels| == NUM_LEVELS && Replaced(v, level, in0, in1, outs, r) && l < NUM_LEVELS
    ensures forall f :: f in r.levels[l] <==> Stays(v, level, in0, in1, outs, l, f)
  {
  }

  /** The level invariant survives every replacement of good inputs by outputs
      drawn from them. */
  lemma ReplacedIsWellFormed(v: Version, level: nat, in0: seq<File>, in1: seq<File>, outs: seq<File>, r: Version)
    requires WellFormed(v) && level + 1 < NUM_LEVELS && GoodInputs(v, level, in0, in1)
    requires FineOutputs(v, level, in0, in1, outs) && Replaced(v, level, in0, in1, outs, r)
    ensures WellFormed(r)
    ensures VersionEntries(r) == LevelEntries(outs) + OtherEntries(v, level, in0, in1)
  {
    assert forall l | 0 <= l < NUM_LEVELS :: SortedFiles(r.levels[l]) && LevelFacts(l, r.levels[l]) by {
      forall l | 0 <= l < NUM_LEVELS ensures LevelFacts(l, r.levels[l]) {
        ReplacedStays(v, level, in0, in1, outs, r, l);
        ReplacedLevelFacts(v, level, in0, in1, outs, l, r.levels[l]);
      }
    }
    assert forall l, m | 0 <= l < m < NUM_LEVELS :: CrossFacts(r.levels[l], r.levels[m]) by {
      forall l, m | 0 <= l < m < NUM_LEVELS ensures CrossFacts(r.levels[l], r.levels[m]) {
        ReplacedStays(v, level, in0, in1, outs, r, l);
        ReplacedStays(v, level, in0, in1, outs, r, m);
        ReplacedCrossFacts(v, level, in0, in1, outs, l, m, r.levels[l], r.levels[m]);
      }
    }
    ReplacedUnique(v, level, in0, in1, outs, r);
    FactsGiveWellFormed(r);
  }

  lemma OutputsWithin(in0: seq<File>, in1: seq<File>, outs: seq<File>)
    requires forall o | o in outs :: o.Set() <= InputEntries(in0, in1)
    ensures LevelEntries(outs) <= InputEntries(in0, in1)
  {
    forall e | e in LevelEntries(outs) ensures e in InputEntries(in0, in1) {
      var o := HolderOf(outs, e);
      assert e in o.Set();
    }
  }

  // ----- The edits of a compaction and of a trivial move -----

  /** Compaction::AddInputDeletions and the AddFile calls of InstallCompactionResults. */
  function CompactionEdit(level: nat, in0: seq<File>, in1: seq<File>, outs: seq<File>): Edit {
    Edit((set f | f in in0 :: (level, f.number)) + (set f | f in in1 :: (level + 1, f.number)),
         seq(|outs|, i requires 0 <= i < |outs| => (level + 1, outs[i])))
  }

  lemma {:induction false} AddedFilesOf(outs: seq<File>, at: nat, l: nat, added: seq<(nat, File)>)
    requires |added| == |outs| && forall i | 0 <= i < |outs| :: added[i] == (at, outs[i])
    ensures AddedFiles(added, l) == if l == at then outs else []
  {
    if added != [] {
      var n := |added| - 1;
      AddedFilesOf(outs[..n], at, l, added[..n]);
      assert outs == outs[..n] + [outs[n]];
    }
  }

  lemma CompactionAdds(level: nat, in0: seq<File>, in1: seq<File>, outs: seq<File>, l: nat)
    ensures AddedFiles(CompactionEdit(level, in0, in1, outs).added, l) == if l == level + 1 then outs else []
  {
    AddedFilesOf(outs, level + 1, l, CompactionEdit(level, in0, in1, outs).added);
  }

  lemma LevelNumbersDistinct(v: Version, l: nat, f: File, g: File)
    requires WellFormed(v) && l < NUM_LEVELS && f in v.levels[l] && g in v.levels[l] && f.number == g.number
    ensures f == g
  {
    if f != g {
      LevelPair(v, l, f, g);
    }
  }

  /** Deleting by number at a level removes exactly the input files. */
  lemma DeletesInputs(v: Version, level: nat, in0: seq<File>, in1: seq<File>, outs: seq<File>, l: nat, f: File)
    requires WellFormed(v) && level + 1 < NUM_LEVELS && l < NUM_LEVELS && f in v.levels[l]
    requires (forall g | g in in0 :: g in v.levels[level]) && (forall g | g in in1 :: g in v.levels[level + 1])
    ensures (l, f.number) in CompactionEdit(level, in0, in1, outs).deleted <==> Removed(level, in0, in1, l, f)
  {
    if l == level {
      forall g | g in in0 && g.number == f.number ensures g == f {
        LevelNumbersDistinct(v, l, f, g);
      }
    }
    if l == level + 1 {
      forall g | g in in1 && g.number == f.number ensures g == f {
        LevelNumbersDistinct(v, l, f, g);
      }
    }
  }

  /** Output numbers that no file of the output level carries, without repeats. */
  ghost predicate FreshOutputs(v: Version, level: nat, outs: seq<File>)
    requires |v.levels| == NUM_LEVELS && level + 1 < NUM_LEVELS
  {
    DistinctNumbers(v.levels[level + 1] + outs)
  }

  lemma EditReplaces(v: Version, level: nat, in0: seq<File>, in1: seq<File>, outs: seq<File>)
    requires WellFormed(v) && level + 1 < NUM_LEVELS && FreshOutputs(v, level, outs)
    requires (forall g | g in in0 :: g in v.levels[level]) && (forall g | g in in1 :: g in v.levels[level + 1])
    ensures Replaced(v, level, in0, in1, outs, ApplyEdit(v, CompactionEdit(level, in0, in1, outs)))
  {
    var e := CompactionEdit(level, in0, in1, outs);
    var r := ApplyEdit(v, e);
    forall l | 0 <= l < NUM_LEVELS
      ensures SortedFiles(r.levels[l]) && forall f :: f in r.levels[l] <==> Stays(v, level, in0, in1, outs, l, f)
    {
      EditReplacesLevel(v, level, in0, in1, outs, l);
    }
  }

  lemma EditReplacesLevel(v: Version, level: nat, in0: seq<File>, in1: seq<File>, outs: seq<File>, l: nat)
    requires WellFormed(v) && level + 1 < NUM_LEVELS && FreshOutputs(v, level, outs) && l < NUM_LEVELS
    requires (forall g | g in in0 :: g in v.levels[level]) && (forall g | g in in1 :: g in v.levels[level + 1])
    ensures SortedFiles(ApplyEdit(v, CompactionEdit(level, in0, in1, outs)).levels[l])
    ensures forall f :: f in ApplyEdit(v, CompactionEdit(level, in0, in1, outs)).levels[l] <==>
              Stays(v, level, in0, in1, outs, l, f)
  {
    var e := CompactionEdit(level, in0, in1, outs);
    CompactionAdds(level, in0, in1, outs, l);
    assert SortedFiles(v.levels[l]) && DistinctNumbers(v.levels[l]) by {
      assert ValidFiles(v.levels[l]);
    }
    assert v.levels[l] + [] == v.levels[l];
    ApplyEditLevel(v, e, l);
    hide ApplyEdit, AddedFiles, CompactionEdit, WellFormed;
    forall f ensures f in ApplyEdit(v, e).levels[l] <==> Stays(v, level, in0, in1, outs, l, f) {
      if f in v.levels[l] {
        DeletesInputs(v, level, in0, in1, outs, l, f);
      }
    }
  }
}
