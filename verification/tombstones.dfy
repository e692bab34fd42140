/** When SetupOtherInputs picks inputs that are closed to tombstones. */
module Tombstones {
  import opened DbFormat
  import opened Versions
  import opened Picking
  import opened VersionBuilder
  import opened CompactionWork
  import opened LsmTree
  import opened LsmSteps

  /** AddBoundaryInputs would add nothing to the next-level inputs either. */
  ghost predicate NextLevelClosed(v: Version, level: nat, in1: seq<File>)
    requires |v.levels| == NUM_LEVELS && level + 1 < NUM_LEVELS
  {
    forall f, u | f in in1 && u in v.levels[level + 1] && u !in in1 :: !IsBoundary(u, f.largest)
  }

  /** With the next level closed under shared user keys, whatever is left out
      of the inputs is newer than any tombstone the merge loop drops. */
  lemma OutsiderIsNewer(v: Version, level: nat, in0: seq<File>, in1: seq<File>, d: Entry, p: Entry)
    requires WellFormed(v) && level + 1 < NUM_LEVELS && GoodInputs(v, level, in0, in1)
    requires NextLevelClosed(v, level, in1)
    requires d in InputEntries(in0, in1) && p in OtherEntries(v, level, in0, in1)
    requires d.key.user == p.key.user && BaseLevel(v, level, d.key.user)
    ensures p.key.seqno > d.key.seqno
  {
    assert |v.levels| == NUM_LEVELS;
    hide WellFormed, BaseLevel, NextLevelClosed;
    var l, g := OtherHolder(v, level, in0, in1, p);
    var m, f := InputHolder(v, level, in0, in1, d);
    hide GoodInputs, OtherEntries, InputEntries;
    HoldersCompare(v, level, in0, in1, d, p, l, g, m, f);
  }

  lemma InputHolder(v: Version, level: nat, in0: seq<File>, in1: seq<File>, d: Entry) returns (m: nat, f: File)
    requires |v.levels| == NUM_LEVELS && level + 1 < NUM_LEVELS && GoodInputs(v, level, in0, in1)
    requires d in InputEntries(in0, in1)
    ensures (m == level && f in in0 && f in v.levels[level]) || (m == level + 1 && f in in1 && f in v.levels[level + 1])
    ensures d in f.entries
  {
    NextInputsAreNextFiles(v, level, in0, in1);
    if d in LevelEntries(in0) {
      f := HolderOf(in0, d);
      m := level;
    } else {
      f := HolderOf(in1, d);
      m := level + 1;
    }
  }

  lemma HoldersCompare(v: Version, level: nat, in0: seq<File>, in1: seq<File>, d: Entry, p: Entry, l: nat, g: File, m: nat, f: File)
    requires WellFormed(v) && level + 1 < NUM_LEVELS && GoodInputs(v, level, in0, in1)
    requires NextLevelClosed(v, level, in1)
    requires l < NUM_LEVELS && g in v.levels[l] && !Removed(level, in0, in1, l, g) && p in g.entries
    requires (m == level && f in in0 && f in v.levels[level]) || (m == level + 1 && f in in1 && f in v.levels[level + 1])
    requires d in f.entries && d.key.user == p.key.user && BaseLevel(v, level, d.key.user)
    ensures p.key.seqno > d.key.seqno
  {
    hide WellFormed, GoodInputs, LevelInputs, NextLevelClosed, ClosedRun, BaseLevel;
    WellFormedSize(v);
    GoodIsLevel(v, level, in0, in1);
    if l < m {
      NewerFiles(v, l, m, g, f, p, d);
    } else if l == level {
      OtherAtLevelIsNewer(v, level, in0, f, g, d, p);
    } else if l == level + 1 {
      AtNextLevel(v, level, in0, in1, m, f, g, d, p);
    } else {
      BelowBase(v, level, l, g, p);
    }
  }

  lemma GoodIsLevel(v: Version, level: nat, in0: seq<File>, in1: seq<File>)
    requires |v.levels| == NUM_LEVELS && level + 1 < NUM_LEVELS && GoodInputs(v, level, in0, in1)
    ensures LevelInputs(v, level, in0) && (level > 0 ==> ClosedRun(v.levels[level], in0))
  {
  }

  lemma BelowBase(v: Version, level: nat, l: nat, g: File, p: Entry)
    requires WellFormed(v) && level + 2 <= l < NUM_LEVELS && g in v.levels[l] && p in g.entries
    ensures !BaseLevel(v, level, p.key.user)
  {
    assert g.Valid() by { LevelFactsHold(v, l); }
    FileBounds(g, p);
    var i :| 0 <= i < |v.levels[l]| && v.levels[l][i] == g;
  }

  lemma WellFormedUnique(v: Version)
    requires WellFormed(v)
    ensures Unique(VersionEntries(v))
  {
  }

  lemma ValidAt(v: Version, l: nat, f: File)
    requires WellFormed(v) && l < NUM_LEVELS && f in v.levels[l]
    ensures f.Valid()
  {
    LevelFactsHold(v, l);
  }

  lemma NoBoundaryNoOlder(f: File, g: File, d: Entry, p: Entry)
    requires f.Valid() && g.Valid() && Apart(f, g) && !IsBoundary(g, f.largest)
    requires d in f.entries && p in g.entries && d.key.user == p.key.user
    ensures Less(p.key, d.key)
  {
    FileBounds(f, d);
    FileBounds(g, p);
  }

  lemma AtNextLevel(v: Version, level: nat, in0: seq<File>, in1: seq<File>, m: nat, f: File, g: File, d: Entry, p: Entry)
    requires WellFormed(v) && level + 1 < NUM_LEVELS && GoodInputs(v, level, in0, in1) && NextLevelClosed(v, level, in1)
    requires (m == level && f in in0) || (m == level + 1 && f in in1 && f in v.levels[level + 1])
    requires d in f.entries && g in v.levels[level + 1] && g !in in1 && p in g.entries
    requires d.key.user == p.key.user
    ensures p.key.seqno > d.key.seqno
  {
    hide WellFormed, GoodInputs, VersionEntries, Unique, Apart;
    WellFormedSize(v);
    ValidAt(v, level + 1, g);
    if f in in0 {
      FileBounds(g, p);
      OtherAtNextIsAside(v, level, in0, in1, g);
      InLevelEntries(in0, f, d);
    } else {
      ValidAt(v, level + 1, f);
      LevelPair(v, level + 1, f, g);
      InVersion(v, level + 1, f, d);
      InVersion(v, level + 1, g, p);
      WellFormedUnique(v);
      NoBoundaryNoOlder(f, g, d, p);
      EarlierIsNewer(VersionEntries(v), p, d);
    }
  }

  /** A check a caller can make before compacting: if the next-level inputs
      have no boundary file, reads are safe. */
  lemma ClosedNextLevelIsSafe(v: Version, level: nat, in0: seq<File>, in1: seq<File>, snap: nat)
    requires WellFormed(v) && level + 1 < NUM_LEVELS && GoodInputs(v, level, in0, in1)
    requires NextLevelClosed(v, level, in1)
    ensures ClosedToTombstones(v, level, in0, in1, snap)
  {
    var I, O := InputEntries(in0, in1), OtherEntries(v, level, in0, in1);
    forall d, p | d in I && p in O ensures !Resurrects(I, O, snap, v, level, d, p) {
      if Resurrects(I, O, snap, v, level, d, p) {
        OutsiderIsNewer(v, level, in0, in1, d, p);
      }
    }
  }

  // ----- The exact condition, on file bounds and one user key -----

  /** The files AddBoundaryInputs would have added to the next-level inputs. */
  ghost function BoundaryEntries(v: Version, level: nat, in1: seq<File>): set<Entry>
    requires |v.levels| == NUM_LEVELS && level + 1 < NUM_LEVELS && |in1| > 0
  {
    set g, e | g in v.levels[level + 1] && IsBoundary(g, LargestOf(in1)) && e in g.entries :: e
  }

  /** No file left out at or above the input level shows `k` at `snap`. */
  ghost predicate HiddenAbove(v: Version, level: nat, in0: seq<File>, in1: seq<File>, k: UserKey, snap: nat)
    requires |v.levels| == NUM_LEVELS && level + 1 < NUM_LEVELS
  {
    forall l, f, e | 0 <= l <= level && f in v.levels[l] && !Removed(level, in0, in1, l, f) && e in f.entries :: !Visible(e, k, snap)
  }

  /** The user key that the next-level inputs end with is deleted in the inputs
      and in no deeper level, and a boundary file left behind has its value. */
  ghost predicate SplitAtEnd(v: Version, level: nat, in0: seq<File>, in1: seq<File>, snap: nat)
    requires |v.levels| == NUM_LEVELS && level + 1 < NUM_LEVELS
  {
    && |in1| > 0
    && var k := LargestOf(in1).user;
    && BaseLevel(v, level, k) && HiddenAbove(v, level, in0, in1, k, snap)
    && (exists d :: Newest(InputEntries(in0, in1), k, snap, d) && d.key.kind.TypeDeletion?)
    && exists p :: Newest(BoundaryEntries(v, level, in1), k, snap, p) && p.key.kind.TypeValue?
  }

  /** An older entry outside the inputs than a tombstone the merge loop drops is
      in a boundary file after the next-level inputs. */
  lemma OlderIsBoundary(v: Version, level: nat, in0: seq<File>, in1: seq<File>, d: Entry, p: Entry)
    requires WellFormed(v) && level + 1 < NUM_LEVELS && GoodInputs(v, level, in0, in1)
    requires d in InputEntries(in0, in1) && p in OtherEntries(v, level, in0, in1)
    requires d.key.user == p.key.user && BaseLevel(v, level, d.key.user) && p.key.seqno < d.key.seqno
    ensures |in1| > 0 && d.key.user == LargestOf(in1).user && p in BoundaryEntries(v, level, in1)
  {
    WellFormedSize(v);
    hide *;
    var l, g := OtherHolder(v, level, in0, in1, p);
    if l <= level {
      LeftAboveIsNewer(v, level, in0, in1, l, g, p, d);
    } else if l >= level + 2 {
      BelowBase(v, level, l, g, p);
    } else {
      LeftAtNext(level, in0, in1, g);
      AfterInputs(v, level, in0, in1, g, d, p);
      InBoundary(v, level, in1, g, p);
    }
  }

  lemma LeftAtNext(level: nat, in0: seq<File>, in1: seq<File>, g: File)
    requires !Removed(level, in0, in1, level + 1, g)
    ensures g !in in1
  {
  }

  /** Files left out at or above the input level hold only newer entries. */
  lemma LeftAboveIsNewer(v: Version, level: nat, in0: seq<File>, in1: seq<File>, l: nat, g: File, p: Entry, d: Entry)
    requires WellFormed(v) && level + 1 < NUM_LEVELS && GoodInputs(v, level, in0, in1)
    requires l <= level && g in v.levels[l] && !Removed(level, in0, in1, l, g) && p in g.entries
    requires d in InputEntries(in0, in1) && d.key.user == p.key.user
    ensures p.key.seqno > d.key.seqno
  {
    hide *;
    WellFormedSize(v);
    var m, f := InputHolder(v, level, in0, in1, d);
    if l < m {
      NewerFiles(v, l, m, g, f, p, d);
    } else {
      GoodIsLevel(v, level, in0, in1);
      LeftAtLevel(level, in0, in1, g);
      OtherAtLevelIsNewer(v, level, in0, f, g, d, p);
    }
  }

  lemma LeftAtLevel(level: nat, in0: seq<File>, in1: seq<File>, g: File)
    requires !Removed(level, in0, in1, level, g)
    ensures g !in in0
  {
  }

  lemma InBoundary(v: Version, level: nat, in1: seq<File>, g: File, e: Entry)
    requires |v.levels| == NUM_LEVELS && level + 1 < NUM_LEVELS && |in1| > 0
    requires g in v.levels[level + 1] && IsBoundary(g, LargestOf(in1)) && e in g.entries
    ensures e in BoundaryEntries(v, level, in1)
  {
  }

  /** The largest key of the next-level inputs is the key of one of their entries. */
  lemma LargestIsEntry(v: Version, level: nat, in0: seq<File>, in1: seq<File>) returns (e: Entry)
    requires WellFormed(v) && level + 1 < NUM_LEVELS && GoodInputs(v, level, in0, in1) && |in1| > 0
    ensures e in LevelEntries(in1) && e.key == LargestOf(in1)
    ensures forall d | d in LevelEntries(in1) :: !Less(e.key, d.key)
  {
    hide *;
    WellFormedSize(v);
    NextInputsAreNextFiles(v, level, in0, in1);
    var f := LargestFile(in1);
    ValidAt(v, level + 1, f);
    e := LastEntry(f);
    InLevelEntries(in1, f, e);
    forall d | d in LevelEntries(in1) ensures !Less(e.key, d.key) {
      var h := HolderOf(in1, d);
      ValidAt(v, level + 1, h);
      FileBounds(h, d);
      NotLess(e.key, h.largest, d.key);
    }
  }

  lemma LastEntry(f: File) returns (e: Entry)
    requires f.Valid()
    ensures e in f.entries && e.key == f.largest
  {
    e := f.entries[|f.entries| - 1];
  }

  lemma NotLess(a: InternalKey, b: InternalKey, c: InternalKey)
    requires !Less(a, b) && !Less(b, c)
    ensures !Less(a, c)
  {
  }

  /** A next-level file left out that has an older entry of an input's user key
      is a boundary file after the inputs. */
  lemma AfterInputs(v: Version, level: nat, in0: seq<File>, in1: seq<File>, g: File, d: Entry, p: Entry)
    requires WellFormed(v) && level + 1 < NUM_LEVELS && GoodInputs(v, level, in0, in1)
    requires d in InputEntries(in0, in1) && g in v.levels[level + 1] && g !in in1 && p in g.entries
    requires d.key.user == p.key.user && p.key.seqno < d.key.seqno
    ensures |in1| > 0 && d.key.user == LargestOf(in1).user && IsBoundary(g, LargestOf(in1))
  {
    hide *;
    WellFormedSize(v);
    ValidAt(v, level + 1, g);
    FileBounds(g, p);
    KeyRange(g, p);
    OtherAtNextIsAside(v, level, in0, in1, g);
    InputIsEither(in0, in1, d);
    if |in1| == 0 {
      NoFilesNoEntries(d);
    } else {
      var e := LargestIsEntry(v, level, in0, in1);
      InputIsEither(in0, in1, e);
      FollowsInputs(g, d.key, p.key, e.key);
    }
  }

  lemma KeyRange(g: File, p: Entry)
    requires !Less(p.key, g.smallest) && !Less(g.largest, p.key)
    ensures g.smallest.user <= p.key.user <= g.largest.user
  {
  }

  lemma InputIsEither(in0: seq<File>, in1: seq<File>, e: Entry)
    ensures e in InputEntries(in0, in1) <==> e in LevelEntries(in0) || e in LevelEntries(in1)
  {
  }

  /** A file beside two keys d <= last that holds an older key of d's user key. */
  lemma FollowsInputs(g: File, d: InternalKey, p: InternalKey, last: InternalKey)
    requires !Less(p, g.smallest) && !Less(g.largest, p) && !Less(last, d) && d.user == p.user && p.seqno < d.seqno
    requires (Less(g.largest, d) && Less(g.largest, last)) || (Less(d, g.smallest) && Less(last, g.smallest))
    ensures d.user == last.user && IsBoundary(g, last)
  {
  }

  lemma NoFilesNoEntries(e: Entry)
    ensures e !in LevelEntries([])
  {
  }

  /** With the tombstone d in the inputs and the boundary value p left behind,
      everything else outside that shows the key is in the boundary files. */
  lemma OnlyBoundaryShows(v: Version, level: nat, in0: seq<File>, in1: seq<File>, snap: nat, o: Entry)
    requires WellFormed(v) && level + 1 < NUM_LEVELS && GoodInputs(v, level, in0, in1) && |in1| > 0
    requires var k := LargestOf(in1).user;
      BaseLevel(v, level, k) && HiddenAbove(v, level, in0, in1, k, snap) && Visible(o, k, snap)
    requires BoundaryEntries(v, level, in1) != {} && o in OtherEntries(v, level, in0, in1)
    ensures o in BoundaryEntries(v, level, in1)
  {
    WellFormedSize(v);
    var l, u := OtherHolder(v, level, in0, in1, o);
    assert l > level;
    assert o.key.user == LargestOf(in1).user;
    hide *;
    var b :| b in BoundaryEntries(v, level, in1);
    var g := BoundaryHolder(v, level, in1, b);
    if l >= level + 2 {
      BelowBase(v, level, l, u, o);
    } else {
      LeftAtNext(level, in0, in1, u);
      NotBeforeInputs(v, level, in0, in1, g, u, o);
      InBoundary(v, level, in1, u, o);
    }
  }

  /** A file with the inputs' last user key, when a boundary file follows them,
      follows them too. */
  lemma NotBeforeInputs(v: Version, level: nat, in0: seq<File>, in1: seq<File>, g: File, u: File, o: Entry)
    requires WellFormed(v) && level + 1 < NUM_LEVELS && GoodInputs(v, level, in0, in1) && |in1| > 0
    requires g in v.levels[level + 1] && IsBoundary(g, LargestOf(in1))
    requires u in v.levels[level + 1] && u !in in1 && o in u.entries && o.key.user == LargestOf(in1).user
    ensures IsBoundary(u, LargestOf(in1))
  {
    hide *;
    WellFormedSize(v);
    BoundaryLeftOut(v, level, in0, in1, g);
    ValidAt(v, level + 1, u);
    ValidAt(v, level + 1, g);
    FileBounds(u, o);
    KeyRange(u, o);
    OtherAtNextIsAside(v, level, in0, in1, u);
    OtherAtNextIsAside(v, level, in0, in1, g);
    var e := LargestIsEntry(v, level, in0, in1);
    var first := InputsHaveEntry(v, level, in0, in1);
    InputIsEither(in0, in1, e);
    InputIsEither(in0, in1, first);
    FileSpan(g);
    BothFollow(g, u, o.key.user, first.key, e.key);
  }

  lemma FileSpan(g: File)
    requires g.Valid()
    ensures !Less(g.largest, g.smallest)
  {
    FileBounds(g, g.entries[0]);
  }

  lemma BothFollow(g: File, u: File, k: UserKey, first: InternalKey, last: InternalKey)
    requires IsBoundary(g, last) && last.user == k && !Less(g.largest, g.smallest) && u.smallest.user <= k <= u.largest.user
    requires (Less(g.largest, first) && Less(g.largest, last)) || (Less(first, g.smallest) && Less(last, g.smallest))
    requires (Less(u.largest, first) && Less(u.largest, last)) || (Less(first, u.smallest) && Less(last, u.smallest))
    requires first.user < u.smallest.user || u.largest.user < first.user
    requires first.user < g.smallest.user || g.largest.user < first.user
    ensures IsBoundary(u, last)
  {
  }

  lemma InputsHaveEntry(v: Version, level: nat, in0: seq<File>, in1: seq<File>) returns (e: Entry)
    requires WellFormed(v) && level + 1 < NUM_LEVELS && GoodInputs(v, level, in0, in1)
    ensures e in LevelEntries(in0)
  {
    assert in0[0] in in0;
    ValidAt(v, level, in0[0]);
    e := in0[0].entries[0];
    InLevelEntries(in0, in0[0], e);
  }

  /** A boundary file of the inputs is not one of them. */
  lemma {:induction false} BoundaryLeftOut(v: Version, level: nat, in0: seq<File>, in1: seq<File>, g: File)
    requires WellFormed(v) && level + 1 < NUM_LEVELS && |in1| > 0
    requires g in v.levels[level + 1] && IsBoundary(g, LargestOf(in1))
    ensures g !in in1
  {
    hide WellFormed;
    ValidAt(v, level + 1, g);
    FileBounds(g, g.entries[0]);
    var f := LargestFile(in1);
  }

  lemma SplitResurrectsAtEnd(v: Version, level: nat, in0: seq<File>, in1: seq<File>, snap: nat, d: Entry, p: Entry)
    requires WellFormed(v) && level + 1 < NUM_LEVELS && GoodInputs(v, level, in0, in1) && |in1| > 0
    requires var k := LargestOf(in1).user;
      && BaseLevel(v, level, k) && HiddenAbove(v, level, in0, in1, k, snap)
      && Newest(InputEntries(in0, in1), k, snap, d) && d.key.kind.TypeDeletion?
      && Newest(BoundaryEntries(v, level, in1), k, snap, p) && p.key.kind.TypeValue?
    ensures p in OtherEntries(v, level, in0, in1)
    ensures Resurrects(InputEntries(in0, in1), OtherEntries(v, level, in0, in1), snap, v, level, d, p)
  {
    WellFormedSize(v);
    var I, O, B := InputEntries(in0, in1), OtherEntries(v, level, in0, in1), BoundaryEntries(v, level, in1);
    hide *;
    NewestIn(I, LargestOf(in1).user, snap, d);
    NewestIn(B, LargestOf(in1).user, snap, p);
    var g := BoundaryHolder(v, level, in1, p);
    BoundaryIsOlder(v, level, in0, in1, g, d, p);
    BoundaryInOthers(v, level, in0, in1);
    forall o | o in O && Visible(o, d.key.user, snap) ensures o in B {
      OnlyBoundaryShows(v, level, in0, in1, snap, o);
    }
    NewestOfLarger(B, O, d.key.user, snap, p);
    MakeResurrection(I, O, snap, v, level, d, p);
  }

  lemma NewestIn(E: set<Entry>, k: UserKey, s: nat, e: Entry)
    requires Newest(E, k, s, e)
    ensures e in E && e.key.user == k
  {
  }

  lemma BoundaryHolder(v: Version, level: nat, in1: seq<File>, p: Entry) returns (g: File)
    requires |v.levels| == NUM_LEVELS && level + 1 < NUM_LEVELS && |in1| > 0 && p in BoundaryEntries(v, level, in1)
    ensures g in v.levels[level + 1] && IsBoundary(g, LargestOf(in1)) && p in g.entries
  {
    g :| g in v.levels[level + 1] && IsBoundary(g, LargestOf(in1)) && p in g.entries;
  }

  lemma BoundaryInOthers(v: Version, level: nat, in0: seq<File>, in1: seq<File>)
    requires WellFormed(v) && |v.levels| == NUM_LEVELS && level + 1 < NUM_LEVELS && |in1| > 0
    ensures BoundaryEntries(v, level, in1) <= OtherEntries(v, level, in0, in1)
  {
    hide *;
    forall b | b in BoundaryEntries(v, level, in1) ensures b in OtherEntries(v, level, in0, in1) {
      var g := BoundaryHolder(v, level, in1, b);
      BoundaryLeftOut(v, level, in0, in1, g);
      NextNotRemoved(level, in0, in1, g);
      InOthers(v, level, in0, in1, level + 1, g, b);
    }
  }

  lemma NextNotRemoved(level: nat, in0: seq<File>, in1: seq<File>, g: File)
    requires g !in in1
    ensures !Removed(level, in0, in1, level + 1, g)
  {
  }

  lemma NewestOfLarger(B: set<Entry>, O: set<Entry>, k: UserKey, s: nat, p: Entry)
    requires B <= O && forall o | o in O && Visible(o, k, s) :: o in B
    ensures Newest(B, k, s, p) <==> Newest(O, k, s, p)
  {
    hide Visible;
  }

  lemma MakeResurrection(I: set<Entry>, O: set<Entry>, snap: nat, v: Version, level: nat, d: Entry, p: Entry)
    requires |v.levels| == NUM_LEVELS && BaseLevel(v, level, d.key.user)
    requires Newest(I, d.key.user, snap, d) && d.key.kind.TypeDeletion?
    requires Newest(O, d.key.user, snap, p) && p.key.seqno < d.key.seqno && p.key.kind.TypeValue?
    ensures Resurrects(I, O, snap, v, level, d, p)
  {
    hide BaseLevel;
  }

  lemma BoundaryIsOlder(v: Version, level: nat, in0: seq<File>, in1: seq<File>, g: File, d: Entry, p: Entry)
    requires WellFormed(v) && level + 1 < NUM_LEVELS && GoodInputs(v, level, in0, in1) && |in1| > 0
    requires g in v.levels[level + 1] && IsBoundary(g, LargestOf(in1)) && p in g.entries
    requires d in InputEntries(in0, in1) && d.key.user == p.key.user
    ensures p.key.seqno < d.key.seqno
  {
    hide *;
    WellFormedSize(v);
    BoundaryLeftOut(v, level, in0, in1, g);
    ValidAt(v, level + 1, g);
    FileBounds(g, p);
    FileSpan(g);
    OtherAtNextIsAside(v, level, in0, in1, g);
    var e := LargestIsEntry(v, level, in0, in1);
    InputIsEither(in0, in1, e);
    Follows(g, d.key, p.key, e.key);
    InVersion(v, level + 1, g, p);
    InputInVersion(v, level, in0, in1, d);
    WellFormedUnique(v);
    EarlierIsNewer(VersionEntries(v), d, p);
  }

  lemma Follows(g: File, d: InternalKey, p: InternalKey, last: InternalKey)
    requires !Less(p, g.smallest) && !Less(g.largest, g.smallest) && IsBoundary(g, last)
    requires (Less(g.largest, d) && Less(g.largest, last)) || (Less(d, g.smallest) && Less(last, g.smallest))
    ensures Less(d, p)
  {
  }

  lemma InputInVersion(v: Version, level: nat, in0: seq<File>, in1: seq<File>, d: Entry)
    requires |v.levels| == NUM_LEVELS && level + 1 < NUM_LEVELS && GoodInputs(v, level, in0, in1)
    requires d in InputEntries(in0, in1)
    ensures d in VersionEntries(v)
  {
    hide *;
    NextInputsAreNextFiles(v, level, in0, in1);
    LevelInputsAreFiles(v, level, in0, in1);
    VersionSplits(v, level, in0, in1);
  }

  /** A compaction brings a deleted key back in exactly one situation, and a
      caller can look for it: one user key, the last of the next-level inputs. */
  lemma ClosedUnlessSplitAtEnd(v: Version, level: nat, in0: seq<File>, in1: seq<File>, snap: nat)
    requires WellFormed(v) && level + 1 < NUM_LEVELS && GoodInputs(v, level, in0, in1)
    ensures ClosedToTombstones(v, level, in0, in1, snap) <==> !SplitAtEnd(v, level, in0, in1, snap)
  {
    WellFormedSize(v);
    var I, O := InputEntries(in0, in1), OtherEntries(v, level, in0, in1);
    hide WellFormed, GoodInputs, InputEntries, OtherEntries, BoundaryEntries, BaseLevel, HiddenAbove;
    if SplitAtEnd(v, level, in0, in1, snap) {
      var k := LargestOf(in1).user;
      var d :| Newest(I, k, snap, d) && d.key.kind.TypeDeletion?;
      var p :| Newest(BoundaryEntries(v, level, in1), k, snap, p) && p.key.kind.TypeValue?;
      SplitResurrectsAtEnd(v, level, in0, in1, snap, d, p);
    }
    forall d, p | d in I && p in O && Resurrects(I, O, snap, v, level, d, p) ensures SplitAtEnd(v, level, in0, in1, snap) {
      ResurrectionIsSplit(v, level, in0, in1, snap, d, p);
    }
  }

  lemma ResurrectionIsSplit(v: Version, level: nat, in0: seq<File>, in1: seq<File>, snap: nat, d: Entry, p: Entry)
    requires WellFormed(v) && level + 1 < NUM_LEVELS && GoodInputs(v, level, in0, in1)
    requires Resurrects(InputEntries(in0, in1), OtherEntries(v, level, in0, in1), snap, v, level, d, p)
    ensures SplitAtEnd(v, level, in0, in1, snap)
  {
    WellFormedSize(v);
    var I, O, k := InputEntries(in0, in1), OtherEntries(v, level, in0, in1), d.key.user;
    ResurrectionParts(I, O, snap, v, level, d, p);
    hide *;
    OlderIsBoundary(v, level, in0, in1, d, p);
    BoundaryInOthers(v, level, in0, in1);
    NewestOfSmaller(BoundaryEntries(v, level, in1), O, k, snap, p);
    NothingAbove(v, level, in0, in1, snap, d, p);
    MakeSplit(v, level, in0, in1, snap, d, p);
  }

  lemma MakeSplit(v: Version, level: nat, in0: seq<File>, in1: seq<File>, snap: nat, d: Entry, p: Entry)
    requires |v.levels| == NUM_LEVELS && level + 1 < NUM_LEVELS && |in1| > 0
    requires var k := LargestOf(in1).user;
      && BaseLevel(v, level, k) && HiddenAbove(v, level, in0, in1, k, snap)
      && Newest(InputEntries(in0, in1), k, snap, d) && d.key.kind.TypeDeletion?
      && Newest(BoundaryEntries(v, level, in1), k, snap, p) && p.key.kind.TypeValue?
    ensures SplitAtEnd(v, level, in0, in1, snap)
  {
    hide Newest, BaseLevel, HiddenAbove;
  }

  lemma NewestOfSmaller(B: set<Entry>, O: set<Entry>, k: UserKey, s: nat, p: Entry)
    requires Newest(O, k, s, p) && B <= O && p in B
    ensures Newest(B, k, s, p)
  {
  }

  lemma ResurrectionParts(I: set<Entry>, O: set<Entry>, snap: nat, v: Version, level: nat, d: Entry, p: Entry)
    requires |v.levels| == NUM_LEVELS && Resurrects(I, O, snap, v, level, d, p)
    ensures d in I && p in O && d.key.user == p.key.user && p.key.seqno < d.key.seqno && p.key.kind.TypeValue?
    ensures Newest(I, d.key.user, snap, d) && d.key.kind.TypeDeletion? && BaseLevel(v, level, d.key.user)
    ensures Newest(O, d.key.user, snap, p)
  {
    hide BaseLevel;
  }

  lemma NothingAbove(v: Version, level: nat, in0: seq<File>, in1: seq<File>, snap: nat, d: Entry, p: Entry)
    requires WellFormed(v) && |v.levels| == NUM_LEVELS && level + 1 < NUM_LEVELS && GoodInputs(v, level, in0, in1)
    requires d in InputEntries(in0, in1) && Newest(OtherEntries(v, level, in0, in1), d.key.user, snap, p)
    requires p.key.seqno < d.key.seqno
    ensures HiddenAbove(v, level, in0, in1, d.key.user, snap)
  {
    hide WellFormed, GoodInputs, InputEntries, OtherEntries;
    forall l, f, e | 0 <= l <= level && f in v.levels[l] && !Removed(level, in0, in1, l, f) && e in f.entries
      ensures !Visible(e, d.key.user, snap)
    {
      InOthers(v, level, in0, in1, l, f, e);
      if Visible(e, d.key.user, snap) {
        LeftAboveIsNewer(v, level, in0, in1, l, f, e, d);
      }
    }
  }

  // ----- A state in which the picked inputs are not closed -----

  const OLD_VALUE: Value := [1]

  function Put(k: UserKey, s: nat): Entry { Entry(InternalKey(k, s, TypeValue), OLD_VALUE) }

  function Tombstone(k: UserKey, s: nat): Entry { Entry(InternalKey(k, s, TypeDeletion), []) }

  /** Level 2 holds key 0.5; level 3 holds key 1.0 split over two files: the
      tombstone at sequence 3 ends one, the value at sequence 2 begins the next. */
  function SplitState(): Version {
    Version([[], [], [SplitUpper()], [SplitLeft(), SplitRight()], [], [], []])
  }

  function SplitUpper(): File { FinishFile(5, 100, [Put(0.5, 4)]) }

  function SplitLeft(): File { FinishFile(3, 100, [Put(0.0, 1), Tombstone(1.0, 3)]) }

  function SplitRight(): File { FinishFile(4, 100, [Put(1.0, 2)]) }

  lemma SplitStateEntries()
    ensures VersionEntries(SplitState()) == {Put(0.5, 4), Put(0.0, 1), Tombstone(1.0, 3), Put(1.0, 2)}
    ensures LevelEntries([SplitUpper()]) == {Put(0.5, 4)}
    ensures LevelEntries([SplitLeft(), SplitRight()]) == {Put(0.0, 1), Tombstone(1.0, 3), Put(1.0, 2)}
    ensures LevelEntries([]) == {}
  {
    var v := SplitState();
    forall e | e in {Put(0.0, 1), Tombstone(1.0, 3)} ensures e in LevelEntries([SplitLeft(), SplitRight()]) {
      InLevelEntries([SplitLeft(), SplitRight()], SplitLeft(), e);
    }
    InLevelEntries([SplitLeft(), SplitRight()], SplitRight(), Put(1.0, 2));
    InLevelEntries([SplitUpper()], SplitUpper(), Put(0.5, 4));
    assert VersionEntries(v) == LevelEntries(v.levels[2]) + LevelEntries(v.levels[3]) by {
      forall e | e in VersionEntries(v) ensures e in LevelEntries(v.levels[2]) + LevelEntries(v.levels[3]) {
        var l :| 0 <= l < NUM_LEVELS && e in LevelEntries(v.levels[l]);
      }
    }
  }

  lemma SplitFilesValid()
    ensures SplitUpper().Valid() && SplitLeft().Valid() && SplitRight().Valid()
    ensures Apart(SplitLeft(), SplitRight()) && Apart(SplitRight(), SplitLeft())
    ensures FileBefore(SplitLeft(), SplitRight())
  {
  }

  lemma SplitLevelFacts(l: nat)
    requires l < NUM_LEVELS
    ensures SortedFiles(SplitState().levels[l]) && LevelFacts(l, SplitState().levels[l])
  {
    SplitFilesValid();
    hide Apart, FileBefore;
    var files := SplitState().levels[l];
    assert l != 2 && l != 3 ==> files == [];
    AssembleLevelFacts(l, files);
  }

  lemma SplitCrossFacts(l: nat, m: nat)
    requires l < m < NUM_LEVELS
    ensures CrossFacts(SplitState().levels[l], SplitState().levels[m])
  {
    assert l != 2 ==> l == 3 || SplitState().levels[l] == [];
    assert m != 3 ==> m == 2 || SplitState().levels[m] == [];
  }

  lemma SplitStateWellFormed()
    ensures WellFormed(SplitState())
  {
    SplitStateEntries();
    assert Unique(VersionEntries(SplitState()));
    hide *;
    forall l | 0 <= l < NUM_LEVELS
      ensures SortedFiles(SplitState().levels[l]) && LevelFacts(l, SplitState().levels[l])
    {
      SplitLevelFacts(l);
    }
    forall l, m | 0 <= l < m < NUM_LEVELS ensures CrossFacts(SplitState().levels[l], SplitState().levels[m]) {
      SplitCrossFacts(l, m);
    }
    assert |SplitState().levels| == NUM_LEVELS;
    FactsGiveWellFormed(SplitState());
  }

  lemma SplitInputs()
    ensures GoodInputs(SplitState(), 2, [SplitUpper()], [SplitLeft()])
  {
    var v := SplitState();
    var files := v.levels[2];
    assert [SplitUpper()] == files[0..1];
    var next := v.levels[3];
    assert next[..2] == next && next[..1] == [SplitLeft()] && next[..0] == [];
    OverlappingNext(next, 1, Some(0.5), Some(0.5));
    OverlappingNext(next, 0, Some(0.5), Some(0.5));
    assert Overlapping(next, Some(0.5), Some(0.5)) == [SplitLeft()];
  }

  lemma SplitInputEntries()
    ensures InputEntries([SplitUpper()], [SplitLeft()]) == {Put(0.5, 4), Put(0.0, 1), Tombstone(1.0, 3)}
  {
    SplitStateEntries();
    forall e | e in SplitLeft().entries ensures e in LevelEntries([SplitLeft()]) {
      InLevelEntries([SplitLeft()], SplitLeft(), e);
    }
    assert Put(0.0, 1) == SplitLeft().entries[0] && Tombstone(1.0, 3) == SplitLeft().entries[1];
  }

  lemma SplitOtherEntries()
    ensures OtherEntries(SplitState(), 2, [SplitUpper()], [SplitLeft()]) == {Put(1.0, 2)}
  {
    var v := SplitState();
    assert forall l | 0 <= l < NUM_LEVELS && l != 2 && l != 3 :: v.levels[l] == [];
    forall e | e in OtherEntries(v, 2, [SplitUpper()], [SplitLeft()]) ensures e == Put(1.0, 2) {
      var l, f := OtherHolder(v, 2, [SplitUpper()], [SplitLeft()], e);
    }
    assert SplitRight() == v.levels[3][1] && SplitRight() != SplitLeft();
    InOthers(v, 2, [SplitUpper()], [SplitLeft()], 3, SplitRight(), Put(1.0, 2));
  }

  lemma SplitBaseLevel()
    ensures BaseLevel(SplitState(), 2, 1.0)
  {
    assert forall l | 4 <= l < NUM_LEVELS :: SplitState().levels[l] == [];
  }

  lemma SplitResurrects()
    ensures Resurrects({Put(0.5, 4), Put(0.0, 1), Tombstone(1.0, 3)}, {Put(1.0, 2)}, 4, SplitState(), 2,
                       Tombstone(1.0, 3), Put(1.0, 2))
  {
    SplitBaseLevel();
  }

  lemma SplitBoundary()
    ensures IsBoundary(SplitRight(), SplitLeft().largest)
    ensures SplitRight() in SplitState().levels[3] && SplitRight() !in [SplitLeft()]
  {
    assert SplitState().levels[3][1] == SplitRight();
  }

  lemma SplitReadsDeleted()
    ensures ReadAt(VersionEntries(SplitState()), 1.0, 4) == None
  {
    var E := {Put(0.5, 4), Put(0.0, 1), Tombstone(1.0, 3), Put(1.0, 2)};
    assert Newest(E, 1.0, 4, Tombstone(1.0, 3)) && Outcome(Tombstone(1.0, 3)) == None;
    hide *;
    SplitUnique();
    SplitStateEntries();
    ReadOfNewest(E, 1.0, 4, Tombstone(1.0, 3));
  }

  lemma ResurrectionOpens(v: Version, level: nat, in0: seq<File>, in1: seq<File>, snap: nat, d: Entry, p: Entry)
    requires |v.levels| == NUM_LEVELS
    requires Resurrects(InputEntries(in0, in1), OtherEntries(v, level, in0, in1), snap, v, level, d, p)
    ensures !ClosedToTombstones(v, level, in0, in1, snap)
  {
  }

  lemma SplitNotClosed()
    ensures !ClosedToTombstones(SplitState(), 2, [SplitUpper()], [SplitLeft()], 4)
    ensures !NextLevelClosed(SplitState(), 2, [SplitLeft()])
  {
    SplitInputEntries();
    SplitOtherEntries();
    SplitResurrects();
    SplitBoundary();
    assert |SplitState().levels| == NUM_LEVELS;
    assert SplitLeft() in [SplitLeft()];
    hide SplitState, Resurrects, InputEntries, OtherEntries, IsBoundary;
    ResurrectionOpens(SplitState(), 2, [SplitUpper()], [SplitLeft()], 4, Tombstone(1.0, 3), Put(1.0, 2));
  }

  /** SetupOtherInputs on the level-2 file takes the tombstone's file but not
      the older value's, though no snapshot is older than sequence 4; the
      compaction then turns a deleted key back into a live one. */
  lemma SplitTombstoneComesBack()
    ensures WellFormed(SplitState())
    ensures GoodInputs(SplitState(), 2, [SplitUpper()], [SplitLeft()])
    ensures !NextLevelClosed(SplitState(), 2, [SplitLeft()])
    ensures !ClosedToTombstones(SplitState(), 2, [SplitUpper()], [SplitLeft()], 4)
    ensures ReadAt(VersionEntries(SplitState()), 1.0, 4) == None
    ensures ReadAt(Survivors(InputEntries([SplitUpper()], [SplitLeft()]), 4, SplitState(), 2)
                   + OtherEntries(SplitState(), 2, [SplitUpper()], [SplitLeft()]), 1.0, 4) == Some(OLD_VALUE)
  {
    SplitStateWellFormed();
    SplitInputs();
    SplitReadsDeleted();
    SplitNotClosed();
    SplitReadsOldValue();
  }

  lemma SplitUnique()
    ensures Unique({Put(0.5, 4), Put(0.0, 1), Tombstone(1.0, 3)} + {Put(1.0, 2)})
    ensures Unique({Put(0.5, 4), Put(0.0, 1), Tombstone(1.0, 3), Put(1.0, 2)})
  {
  }

  lemma SplitKeys()
    ensures Tombstone(1.0, 3).key.user == 1.0 && Put(1.0, 2).value == OLD_VALUE
  {
  }

  lemma SplitReadsOldValue()
    ensures ReadAt(Survivors(InputEntries([SplitUpper()], [SplitLeft()]), 4, SplitState(), 2)
                   + OtherEntries(SplitState(), 2, [SplitUpper()], [SplitLeft()]), 1.0, 4) == Some(OLD_VALUE)
  {
    assert |SplitState().levels| == NUM_LEVELS;
    SplitUnique();
    hide *;
    SplitInputEntries();
    SplitOtherEntries();
    SplitResurrects();
    ResurrectionChangesRead({Put(0.5, 4), Put(0.0, 1), Tombstone(1.0, 3)}, {Put(1.0, 2)}, 4, SplitState(), 2,
                            Tombstone(1.0, 3), Put(1.0, 2));
    SplitKeys();
  }
}
