/** Which files a compaction takes: overlap search, boundary files, and the
    expansion of both input sets. */
module Picking {
  import opened DbFormat
  import opened Versions

  // ----- Overlap search (GetOverlappingInputs) -----

  /** The file's user-key range meets [lo, hi]; None is unbounded. */
  predicate Overlaps(f: File, lo: Option<UserKey>, hi: Option<UserKey>) {
    && !(lo.Some? && f.largest.user < lo.value)
    && !(hi.Some? && f.smallest.user > hi.value)
  }

  predicate Touch(f: File, g: File) {
    f.smallest.user <= g.largest.user && g.smallest.user <= f.largest.user
  }

  function Overlapping(files: seq<File>, lo: Option<UserKey>, hi: Option<UserKey>): (r: seq<File>)
  {
    if files == [] then []
    else
      var n := |files| - 1;
      Overlapping(files[..n], lo, hi) + if Overlaps(files[n], lo, hi) then [files[n]] else []
  }

  lemma OverlappingMembers(files: seq<File>, lo: Option<UserKey>, hi: Option<UserKey>)
    ensures forall f :: f in Overlapping(files, lo, hi) <==> f in files && Overlaps(f, lo, hi)
  {
    if files != [] {
      var n := |files| - 1;
      assert files == files[..n] + [files[n]];
      OverlappingMembers(files[..n], lo, hi);
    }
  }

  /** S holds every file meeting [lo, hi] and every file touching one in S. */
  ghost predicate ClosedUnderOverlap(files: seq<File>, lo: Option<UserKey>, hi: Option<UserKey>, S: set<File>) {
    && (forall f | f in files && Overlaps(f, lo, hi) :: f in S)
    && (forall f, g | f in files && f in S && g in files && Touch(f, g) :: g in S)
  }

  ghost predicate LeastClosed(files: seq<File>, lo: Option<UserKey>, hi: Option<UserKey>, R: seq<File>) {
    && (forall f | f in R :: f in files)
    && ClosedUnderOverlap(files, lo, hi, set f | f in R)
    && (forall S: set<File> | ClosedUnderOverlap(files, lo, hi, S) :: forall f | f in R :: f in S)
  }

  ghost function StraysLeft(files: seq<File>, lo: Option<UserKey>): set<File> {
    set f | f in files && lo.Some? && f.smallest.user < lo.value
  }

  ghost function StraysRight(files: seq<File>, hi: Option<UserKey>): set<File> {
    set f | f in files && hi.Some? && f.largest.user > hi.value
  }

  ghost predicate Within(f: File, lo: Option<UserKey>, hi: Option<UserKey>) {
    && (lo.Some? ==> lo.value <= f.smallest.user)
    && (hi.Some? ==> f.largest.user <= hi.value)
  }

  /** Everything the widened range meets is forced into any closed set. */
  ghost predicate Forced(files: seq<File>, lo0: Option<UserKey>, hi0: Option<UserKey>, lo: Option<UserKey>, hi: Option<UserKey>) {
    forall S: set<File>, f | ClosedUnderOverlap(files, lo0, hi0, S) && f in files && Overlaps(f, lo, hi) :: f in S
  }

  ghost predicate Ordered(files: seq<File>) {
    forall f | f in files :: f.smallest.user <= f.largest.user
  }

  lemma WidenLeft(files: seq<File>, lo0: Option<UserKey>, hi0: Option<UserKey>, lo: Option<UserKey>, hi: Option<UserKey>, f: File)
    requires Ordered(files) && f in files && Overlaps(f, lo, hi)
    requires lo.Some? && f.smallest.user < lo.value
    requires Forced(files, lo0, hi0, lo, hi)
    ensures Forced(files, lo0, hi0, Some(f.smallest.user), hi)
    ensures |StraysLeft(files, Some(f.smallest.user))| < |StraysLeft(files, lo)|
  {
    forall S: set<File>, g | ClosedUnderOverlap(files, lo0, hi0, S) && g in files && Overlaps(g, Some(f.smallest.user), hi)
      ensures g in S
    {
      if !Overlaps(g, lo, hi) {
        assert Touch(f, g);
      }
    }
    StrictSubset(StraysLeft(files, Some(f.smallest.user)), StraysLeft(files, lo), f);
  }

  lemma WidenRight(files: seq<File>, lo0: Option<UserKey>, hi0: Option<UserKey>, lo: Option<UserKey>, hi: Option<UserKey>, f: File)
    requires Ordered(files) && f in files && Overlaps(f, lo, hi)
    requires hi.Some? && f.largest.user > hi.value
    requires Forced(files, lo0, hi0, lo, hi)
    ensures Forced(files, lo0, hi0, lo, Some(f.largest.user))
    ensures |StraysRight(files, Some(f.largest.user))| < |StraysRight(files, hi)|
  {
    forall S: set<File>, g | ClosedUnderOverlap(files, lo0, hi0, S) && g in files && Overlaps(g, lo, Some(f.largest.user))
      ensures g in S
    {
      if !Overlaps(g, lo, hi) {
        assert Touch(f, g);
      }
    }
    StrictSubset(StraysRight(files, Some(f.largest.user)), StraysRight(files, hi), f);
  }

  lemma StrictSubset(A: set<File>, B: set<File>, f: File)
    requires A <= B && f in B && f !in A
    ensures |A| < |B|
  {
    assert A <= B - {f};
    SubsetSize(A, B - {f});
  }

  lemma {:induction false} SubsetSize(A: set<File>, B: set<File>)
    requires A <= B
    ensures |A| <= |B|
  {
    if A != {} {
      var f :| f in A;
      SubsetSize(A - {f}, B - {f});
    }
  }

  lemma OverlappingNext(files: seq<File>, i: nat, lo: Option<UserKey>, hi: Option<UserKey>)
    requires i < |files|
    ensures Overlapping(files[..i + 1], lo, hi) ==
            Overlapping(files[..i], lo, hi) + if Overlaps(files[i], lo, hi) then [files[i]] else []
  {
    assert files[..i + 1][..i] == files[..i];
  }

  lemma ForcedIsLeast(files: seq<File>, lo0: Option<UserKey>, hi0: Option<UserKey>, lo: Option<UserKey>, hi: Option<UserKey>)
    requires Forced(files, lo0, hi0, lo, hi)
    requires lo.Some? == lo0.Some? && (lo.Some? ==> lo.value <= lo0.value)
    requires hi.Some? == hi0.Some? && (hi.Some? ==> hi.value >= hi0.value)
    requires forall f | f in Overlapping(files, lo, hi) :: Within(f, lo, hi)
    ensures LeastClosed(files, lo0, hi0, Overlapping(files, lo, hi))
  {
    var R := set f | f in Overlapping(files, lo, hi);
    OverlappingMembers(files, lo, hi);
    forall f, g | f in files && f in R && g in files && Touch(f, g) ensures g in R {
      assert Within(f, lo, hi);
    }
    assert ClosedUnderOverlap(files, lo0, hi0, R);
  }

  /** GetOverlappingInputs, with the restarting scan at level 0. */
  method GetOverlappingInputs(level: nat, files: seq<File>, begin: Option<UserKey>, end: Option<UserKey>)
    returns (inputs: seq<File>)
    requires Ordered(files)
    ensures level > 0 ==> inputs == Overlapping(files, begin, end)
    ensures level == 0 ==> LeastClosed(files, begin, end, inputs)
    ensures exists lo, hi :: inputs == Overlapping(files, lo, hi)
  {
    inputs := [];
    var lo, hi := begin, end;
    var i := 0;
    while i < |files|
      invariant i <= |files|
      invariant inputs == Overlapping(files[..i], lo, hi)
      invariant lo.Some? == begin.Some? && (lo.Some? ==> lo.value <= begin.value)
      invariant hi.Some? == end.Some? && (hi.Some? ==> hi.value >= end.value)
      invariant level > 0 ==> lo == begin && hi == end
      invariant level == 0 ==> forall f | f in inputs :: Within(f, lo, hi)
      invariant Forced(files, begin, end, lo, hi)
      decreases |StraysLeft(files, lo)| + |StraysRight(files, hi)|, |files| - i
    {
      var f := files[i];
      OverlappingNext(files, i, lo, hi);
      i := i + 1;
      if Overlaps(f, lo, hi) {
        inputs := inputs + [f];
        if level == 0 {
          if lo.Some? && f.smallest.user < lo.value {
            WidenLeft(files, begin, end, lo, hi, f);
            lo, inputs, i := Some(f.smallest.user), [], 0;
          } else if hi.Some? && f.largest.user > hi.value {
            WidenRight(files, begin, end, lo, hi, f);
            hi, inputs, i := Some(f.largest.user), [], 0;
          }
        }
      }
    }
    assert files[..|files|] == files;
    if level == 0 {
      ForcedIsLeast(files, begin, end, lo, hi);
    }
  }

  // ----- Boundary files (FindLargestKey, FindSmallestBoundaryFile, AddBoundaryInputs) -----

  ghost predicate Proper(f: File) {
    !Less(f.largest, f.smallest)
  }

  ghost predicate AllProper(files: seq<File>) {
    forall i | 0 <= i < |files| :: Proper(files[i])
  }

  lemma ValidIsProper(files: seq<File>)
    requires ValidFiles(files)
    ensures AllProper(files)
  {
    forall i | 0 <= i < |files| ensures Proper(files[i]) {
      FileBounds(files[i], files[i].entries[0]);
    }
  }

  function LargestOf(files: seq<File>): InternalKey
    requires |files| > 0
  {
    var n := |files| - 1;
    if n == 0 then files[0].largest
    else
      var m := LargestOf(files[..n]);
      if Less(m, files[n].largest) then files[n].largest else m
  }

  lemma {:induction false} LargestFile(files: seq<File>) returns (f: File)
    requires |files| > 0
    ensures f in files && f.largest == LargestOf(files)
    ensures forall g | g in files :: !Less(LargestOf(files), g.largest)
  {
    var n := |files| - 1;
    assert files == files[..n] + [files[n]];
    f := files[n];
    if n > 0 {
      var m := LargestFile(files[..n]);
      f := if Less(m.largest, f.largest) then f else m;
    }
  }

  /** FindLargestKey on a non-empty vector. */
  method FindLargestKey(files: seq<File>) returns (largest: InternalKey)
    requires |files| > 0
    ensures largest == LargestOf(files)
    ensures exists f :: f in files && f.largest == largest
    ensures forall f | f in files :: !Less(largest, f.largest)
  {
    ghost var f := LargestFile(files);
    hide Less;
    largest := files[0].largest;
    assert files[..1] == [files[0]];
    for i := 1 to |files|
      invariant largest == LargestOf(files[..i])
    {
      assert files[..i + 1][..i] == files[..i];
      if Less(largest, files[i].largest) {
        largest := files[i].largest;
      }
    }
    assert files[..|files|] == files;
  }

  /** f continues the user key that `key` ends on. */
  predicate IsBoundary(f: File, key: InternalKey) {
    Less(key, f.smallest) && f.smallest.user == key.user
  }

  function SmallestBoundary(files: seq<File>, key: InternalKey): Option<File> {
    if files == [] then None
    else
      var n := |files| - 1;
      var r := SmallestBoundary(files[..n], key);
      if IsBoundary(files[n], key) && (r.None? || Less(files[n].smallest, r.value.smallest))
      then Some(files[n]) else r
  }

  lemma {:induction false} SmallestBoundaryIsLeast(files: seq<File>, key: InternalKey)
    ensures match SmallestBoundary(files, key)
      case None => forall f | f in files :: !IsBoundary(f, key)
      case Some(r) =>
        && r in files && IsBoundary(r, key)
        && forall f | f in files && IsBoundary(f, key) :: !Less(f.smallest, r.smallest)
  {
    if files != [] {
      var n := |files| - 1;
      assert files == files[..n] + [files[n]];
      SmallestBoundaryIsLeast(files[..n], key);
    }
  }

  method FindSmallestBoundaryFile(files: seq<File>, key: InternalKey) returns (r: Option<File>)
    ensures r == SmallestBoundary(files, key)
  {
    r := None;
    for i := 0 to |files|
      invariant r == SmallestBoundary(files[..i], key)
    {
      assert files[..i + 1][..i] == files[..i];
      var f := files[i];
      if Less(key, f.smallest) && f.smallest.user == key.user {
        if r.None? || Less(f.smallest, r.value.smallest) {
          r := Some(f);
        }
      }
    }
    assert files[..|files|] == files;
  }

  ghost function Beyond(files: seq<File>, key: InternalKey): set<File> {
    set f | f in files && Less(key, f.smallest)
  }

  lemma ChainShrinks(files: seq<File>, key: InternalKey, f: File)
    requires f in files && Proper(f) && IsBoundary(f, key)
    ensures |Beyond(files, f.largest)| < |Beyond(files, key)|
  {
    StrictSubset(Beyond(files, f.largest), Beyond(files, key), f);
  }

  /** The boundary files reached one after another from `key`. */
  ghost function BoundaryChain(files: seq<File>, key: InternalKey): seq<File>
    decreases |Beyond(files, key)|
  {
    match SmallestBoundary(files, key)
    case None => []
    case Some(f) =>
      SmallestBoundaryIsLeast(files, key);
      if Proper(f) then
        ChainShrinks(files, key, f);
        [f] + BoundaryChain(files, f.largest)
      else [f]
  }

  /** Each file of the chain begins with the user key that the one before it, or
      `key`, ends with, and is the first such file; none continues the last one. */
  ghost predicate Chained(files: seq<File>, key: InternalKey, chain: seq<File>)
    decreases |chain|
  {
    if |chain| == 0 then forall g | g in files :: !IsBoundary(g, key)
    else
      && chain[0] in files && IsBoundary(chain[0], key)
      && (forall g | g in files && IsBoundary(g, key) :: !Less(g.smallest, chain[0].smallest))
      && Chained(files, chain[0].largest, chain[1..])
  }

  lemma {:induction false} ChainIsChained(files: seq<File>, key: InternalKey)
    requires AllProper(files)
    ensures Chained(files, key, BoundaryChain(files, key))
    decreases |Beyond(files, key)|
  {
    SmallestBoundaryIsLeast(files, key);
    var next := SmallestBoundary(files, key);
    hide SmallestBoundary, IsBoundary;
    if next.Some? {
      ChainShrinks(files, key, next.value);
      ChainIsChained(files, next.value.largest);
      assert BoundaryChain(files, key)[1..] == BoundaryChain(files, next.value.largest);
    }
  }

  method AddBoundaryInputs(levelFiles: seq<File>, compactionFiles: seq<File>) returns (r: seq<File>)
    requires AllProper(levelFiles)
    ensures r == compactionFiles +
      if compactionFiles == [] then [] else BoundaryChain(levelFiles, LargestOf(compactionFiles))
    ensures compactionFiles <= r && (compactionFiles != [] ==> Chained(levelFiles, LargestOf(compactionFiles), r[|compactionFiles|..]))
  {
    r := compactionFiles;
    if |compactionFiles| == 0 {
      return;
    }
    ChainIsChained(levelFiles, LargestOf(compactionFiles));
    hide Chained, LargestOf, Less;
    var largestKey := FindLargestKey(compactionFiles);
    var continueSearching := true;
    while continueSearching
      invariant continueSearching ==>
        r + BoundaryChain(levelFiles, largestKey) ==
        compactionFiles + BoundaryChain(levelFiles, LargestOf(compactionFiles))
      invariant !continueSearching ==>
        r == compactionFiles + BoundaryChain(levelFiles, LargestOf(compactionFiles))
      decreases continueSearching, |Beyond(levelFiles, largestKey)|
    {
      var f := FindSmallestBoundaryFile(levelFiles, largestKey);
      if f.Some? {
        SmallestBoundaryIsLeast(levelFiles, largestKey);
        ChainShrinks(levelFiles, largestKey, f.value);
        r := r + [f.value];
        largestKey := f.value.largest;
      } else {
        continueSearching := false;
      }
    }
  }

  /** Where a run of files ending before index b ends once boundary files are added. */
  function RunEnd(files: seq<File>, b: nat): (e: nat)
    requires 0 < b <= |files|
    ensures b <= e <= |files|
    ensures e < |files| ==> files[e - 1].largest.user != files[e].smallest.user
    decreases |files| - b
  {
    if b < |files| && files[b - 1].largest.user == files[b].smallest.user
    then RunEnd(files, b + 1) else b
  }

  lemma RunOrder(files: seq<File>, i: int, j: int)
    requires AllProper(files) && Disjoint(files) && 0 <= i < j < |files|
    ensures Less(files[i].largest, files[j].smallest)
    ensures Less(files[i].smallest, files[j].smallest) && Less(files[i].largest, files[j].largest)
    ensures files[i].smallest.user <= files[i].largest.user <= files[j].smallest.user <= files[j].largest.user
  {
  }

  lemma BoundaryComesAfter(files: seq<File>, b: nat, j: nat)
    requires AllProper(files) && Disjoint(files) && 0 < b <= |files| && j < |files|
    requires IsBoundary(files[j], files[b - 1].largest)
    ensures j >= b && files[b].smallest.user == files[b - 1].largest.user
    ensures IsBoundary(files[b], files[b - 1].largest) && !Less(files[j].smallest, files[b].smallest)
  {
    if j < b - 1 {
      RunOrder(files, j, b - 1);
    }
    if j > b {
      RunOrder(files, b, j);
      RunOrder(files, b - 1, b);
    }
  }

  lemma BoundaryOfRun(files: seq<File>, b: nat)
    requires AllProper(files) && Disjoint(files) && 0 < b <= |files|
    ensures SmallestBoundary(files, files[b - 1].largest) ==
            if b < |files| && files[b - 1].largest.user == files[b].smallest.user then Some(files[b]) else None
  {
    var key := files[b - 1].largest;
    var r := SmallestBoundary(files, key);
    SmallestBoundaryIsLeast(files, key);
    if r.Some? {
      var j :| 0 <= j < |files| && files[j] == r.value;
      BoundaryComesAfter(files, b, j);
      if j > b {
        RunOrder(files, b, j);
      }
    } else if b < |files| {
      assert Less(key, files[b].smallest);
      assert !IsBoundary(files[b], key);
    }
  }

  lemma {:induction false} ChainOfRun(files: seq<File>, b: nat)
    requires AllProper(files) && Disjoint(files) && 0 < b <= |files|
    ensures BoundaryChain(files, files[b - 1].largest) == files[b..RunEnd(files, b)]
    decreases |files| - b
  {
    BoundaryOfRun(files, b);
    if b < |files| && files[b - 1].largest.user == files[b].smallest.user {
      ChainShrinks(files, files[b - 1].largest, files[b]);
      ChainOfRun(files, b + 1);
    }
  }

  lemma LargestOfRun(files: seq<File>, a: nat, b: nat)
    requires AllProper(files) && Disjoint(files) && a < b <= |files|
    ensures LargestOf(files[a..b]) == files[b - 1].largest
  {
    var f := LargestFile(files[a..b]);
    assert files[b - 1] in files[a..b];
    var j :| a <= j < b && files[j] == f;
    if j < b - 1 {
      RunOrder(files, j, b - 1);
    }
  }

  /** No file of the level outside `chosen` touches one inside it. */
  ghost predicate Isolated(files: seq<File>, chosen: seq<File>) {
    forall f, c | f in files && c in chosen && Touch(f, c) :: f in chosen
  }

  lemma BoundaryTouches(f: File, c: File)
    requires Proper(f) && Proper(c) && IsBoundary(f, c.largest)
    ensures Touch(f, c) && Less(c.largest, f.largest)
  {
  }

  lemma ChainOfIsolated(files: seq<File>, chosen: seq<File>)
    requires AllProper(files) && |chosen| > 0 && (forall c | c in chosen :: c in files) && Isolated(files, chosen)
    ensures BoundaryChain(files, LargestOf(chosen)) == []
  {
    var key := LargestOf(chosen);
    var c := LargestFile(chosen);
    SmallestBoundaryIsLeast(files, key);
    forall f | f in files ensures !IsBoundary(f, key) {
      if IsBoundary(f, key) {
        BoundaryTouches(f, c);
      }
    }
  }

  // ----- Ranges (GetRange, GetRange2) -----

  function SmallestOf(files: seq<File>): InternalKey
    requires |files| > 0
  {
    var n := |files| - 1;
    if n == 0 then files[0].smallest
    else
      var m := SmallestOf(files[..n]);
      if Less(files[n].smallest, m) then files[n].smallest else m
  }

  lemma {:induction false} SmallestFile(files: seq<File>) returns (f: File)
    requires |files| > 0
    ensures f in files && f.smallest == SmallestOf(files)
    ensures forall g | g in files :: !Less(g.smallest, SmallestOf(files))
  {
    var n := |files| - 1;
    assert files == files[..n] + [files[n]];
    f := files[n];
    if n > 0 {
      var m := SmallestFile(files[..n]);
      f := if Less(f.smallest, m.smallest) then f else m;
    }
  }

  lemma RangeNext(files: seq<File>, i: nat)
    requires 0 < i < |files|
    ensures SmallestOf(files[..i + 1]) ==
            if Less(files[i].smallest, SmallestOf(files[..i])) then files[i].smallest else SmallestOf(files[..i])
    ensures LargestOf(files[..i + 1]) ==
            if Less(LargestOf(files[..i]), files[i].largest) then files[i].largest else LargestOf(files[..i])
  {
    var more := files[..i + 1];
    assert more[..|more| - 1] == files[..i] && more[|more| - 1] == files[i];
  }

  method GetRange(inputs: seq<File>) returns (smallest: InternalKey, largest: InternalKey)
    requires |inputs| > 0
    ensures smallest == SmallestOf(inputs) && largest == LargestOf(inputs)
  {
    smallest, largest := inputs[0].smallest, inputs[0].largest;
    var i := 1;
    assert inputs[..1] == [inputs[0]];
    while i < |inputs|
      invariant 0 < i <= |inputs|
      invariant smallest == SmallestOf(inputs[..i]) && largest == LargestOf(inputs[..i])
    {
      RangeNext(inputs, i);
      if Less(inputs[i].smallest, smallest) {
        smallest := inputs[i].smallest;
      }
      if Less(largest, inputs[i].largest) {
        largest := inputs[i].largest;
      }
      i := i + 1;
    }
    assert inputs[..i] == inputs;
  }

  /** The files of `files` meeting the user range that `inputs` spans. */
  function Meeting(files: seq<File>, inputs: seq<File>): seq<File>
    requires |inputs| > 0
  {
    Overlapping(files, Some(SmallestOf(inputs).user), Some(LargestOf(inputs).user))
  }

  // ----- Runs of a sorted level -----

  ghost predicate Ascending(files: seq<File>) {
    && (forall i | 0 <= i < |files| :: files[i].smallest.user <= files[i].largest.user)
    && (forall i, j | 0 <= i < j < |files| :: files[i].largest.user <= files[j].smallest.user)
  }

  lemma SortedLevelAscends(files: seq<File>)
    requires AllProper(files) && Disjoint(files)
    ensures Ascending(files)
  {
    assert forall i | 0 <= i < |files| :: Proper(files[i]);
  }

  ghost predicate OverlapRange(files: seq<File>, lo: Option<UserKey>, hi: Option<UserKey>, a: nat, b: nat) {
    && a <= b <= |files|
    && forall i | 0 <= i < |files| :: Overlaps(files[i], lo, hi) <==> a <= i < b
  }

  /** In a sorted level the overlapping files are consecutive. */
  lemma {:induction false} OverlapIsConsecutive(files: seq<File>, lo: Option<UserKey>, hi: Option<UserKey>, n: nat)
    returns (a: nat, b: nat)
    requires Ascending(files) && n <= |files|
    ensures a <= b <= n && forall i | 0 <= i < n :: Overlaps(files[i], lo, hi) <==> a <= i < b
  {
    if n == 0 {
      a, b := 0, 0;
    } else {
      a, b := OverlapIsConsecutive(files, lo, hi, n - 1);
      if Overlaps(files[n - 1], lo, hi) {
        if a == b {
          a, b := n - 1, n;
        } else {
          assert Overlaps(files[b - 1], lo, hi);
          b := n;
        }
      }
    }
  }

  lemma {:induction false} NothingOverlaps(files: seq<File>, lo: Option<UserKey>, hi: Option<UserKey>, n: nat)
    requires n <= |files| && forall i | 0 <= i < n :: !Overlaps(files[i], lo, hi)
    ensures Overlapping(files[..n], lo, hi) == []
  {
    if n > 0 {
      OverlappingNext(files, n - 1, lo, hi);
      NothingOverlaps(files, lo, hi, n - 1);
    }
  }

  lemma SliceGrows(files: seq<File>, a: nat, n: nat)
    requires a < n <= |files|
    ensures files[a..n] == files[a..n - 1] + [files[n - 1]]
  {
  }

  lemma {:induction false} OverlappingIsSlice(files: seq<File>, lo: Option<UserKey>, hi: Option<UserKey>, a: nat, b: nat, n: nat)
    requires a <= b <= n <= |files| && forall i | 0 <= i < n :: Overlaps(files[i], lo, hi) <==> a <= i < b
    ensures Overlapping(files[..n], lo, hi) == files[a..b]
  {
    if a == b {
      NothingOverlaps(files, lo, hi, n);
    } else {
      OverlappingNext(files, n - 1, lo, hi);
      hide Overlapping;
      if b == n {
        OverlappingIsSlice(files, lo, hi, a, n - 1, n - 1);
        SliceGrows(files, a, n);
      } else {
        OverlappingIsSlice(files, lo, hi, a, b, n - 1);
      }
    }
  }

  lemma OverlappingIsRun(files: seq<File>, lo: Option<UserKey>, hi: Option<UserKey>) returns (a: nat, b: nat)
    requires AllProper(files) && Disjoint(files)
    ensures OverlapRange(files, lo, hi, a, b) && Overlapping(files, lo, hi) == files[a..b]
  {
    SortedLevelAscends(files);
    a, b := OverlapIsConsecutive(files, lo, hi, |files|);
    OverlappingIsSlice(files, lo, hi, a, b, |files|);
    assert files[..|files|] == files;
  }

  /** A non-empty run of a level that no boundary file continues. */
  ghost predicate ClosedRun(files: seq<File>, run: seq<File>) {
    exists a, b :: 0 <= a < b <= |files| && run == files[a..b]
      && (b < |files| ==> files[b - 1].largest.user != files[b].smallest.user)
  }

  ghost predicate Run(files: seq<File>, run: seq<File>) {
    exists a, b :: 0 <= a < b <= |files| && run == files[a..b]
  }

  lemma ExtendedRun(files: seq<File>, a: nat, b: nat)
    requires AllProper(files) && Disjoint(files) && a < b <= |files|
    ensures files[a..b] + BoundaryChain(files, LargestOf(files[a..b])) == files[a..RunEnd(files, b)]
  {
    LargestOfRun(files, a, b);
    ChainOfRun(files, b);
  }

  lemma ExtendedRunIsClosed(files: seq<File>, run: seq<File>)
    requires AllProper(files) && Disjoint(files) && Run(files, run)
    ensures ClosedRun(files, run + BoundaryChain(files, LargestOf(run)))
  {
    var a, b :| 0 <= a < b <= |files| && run == files[a..b];
    var e := RunEnd(files, b);
    assert run + BoundaryChain(files, LargestOf(run)) == files[a..e] by {
      ExtendedRun(files, a, b);
    }
  }

  // ----- What a compaction's level inputs look like -----

  ghost predicate LevelInputs(v: Version, level: nat, in0: seq<File>)
    requires |v.levels| == NUM_LEVELS && level + 1 < NUM_LEVELS
  {
    && |in0| > 0
    && (forall f | f in in0 :: f in v.levels[level])
    && (level == 0 ==> Isolated(v.levels[0], in0))
    && (level > 0 ==> Run(v.levels[level], in0))
  }

  ghost predicate GoodInputs(v: Version, level: nat, in0: seq<File>, in1: seq<File>)
    requires |v.levels| == NUM_LEVELS && level + 1 < NUM_LEVELS
  {
    && LevelInputs(v, level, in0)
    && (level > 0 ==> ClosedRun(v.levels[level], in0))
    && in1 == Meeting(v.levels[level + 1], in0)
  }

  lemma AllFilesValid(v: Version, level: nat)
    requires ValidVersion(v) && level < NUM_LEVELS
    ensures AllProper(v.levels[level]) && Ordered(v.levels[level])
  {
    ValidIsProper(v.levels[level]);
  }

  /** Adding boundary files keeps the shape of the inputs and closes a run. */
  lemma BoundaryCloses(v: Version, level: nat, in0: seq<File>)
    requires ValidVersion(v) && level + 1 < NUM_LEVELS && LevelInputs(v, level, in0)
    ensures LevelInputs(v, level, in0 + BoundaryChain(v.levels[level], LargestOf(in0)))
    ensures level > 0 ==> ClosedRun(v.levels[level], in0 + BoundaryChain(v.levels[level], LargestOf(in0)))
    ensures level == 0 ==> in0 + BoundaryChain(v.levels[level], LargestOf(in0)) == in0
  {
    AllFilesValid(v, level);
    if level == 0 {
      ChainOfIsolated(v.levels[0], in0);
    } else {
      ExtendedRunIsClosed(v.levels[level], in0);
    }
  }

  lemma OverlapShape(v: Version, level: nat, lo: Option<UserKey>, hi: Option<UserKey>, r: seq<File>)
    requires ValidVersion(v) && level + 1 < NUM_LEVELS && |r| > 0
    requires level > 0 ==> r == Overlapping(v.levels[level], lo, hi)
    requires level == 0 ==> LeastClosed(v.levels[0], lo, hi, r)
    ensures LevelInputs(v, level, r)
  {
    if level > 0 {
      var a, b := OverlappingIsRun(v.levels[level], lo, hi);
    } else {
      forall f, c | f in v.levels[0] && c in r && Touch(f, c) ensures f in r {
        assert Touch(c, f);
      }
    }
  }

  /** Widening the range never loses a file; if it gains none, nothing changed. */
  lemma {:induction false} WideningGains(files: seq<File>, lo: UserKey, hi: UserKey, lo': UserKey, hi': UserKey)
    requires lo' <= lo && hi <= hi'
    ensures |Overlapping(files, Some(lo), Some(hi))| <= |Overlapping(files, Some(lo'), Some(hi'))|
    ensures |Overlapping(files, Some(lo), Some(hi))| == |Overlapping(files, Some(lo'), Some(hi'))| ==>
            Overlapping(files, Some(lo), Some(hi)) == Overlapping(files, Some(lo'), Some(hi'))
  {
    if files != [] {
      WideningGains(files[..|files| - 1], lo, hi, lo', hi');
    }
  }

  function TotalFileSize(files: seq<File>): nat {
    if files == [] then 0 else TotalFileSize(files[..|files| - 1]) + files[|files| - 1].size
  }

  lemma {:induction false} SizesAdd(a: seq<File>, b: seq<File>)
    ensures TotalFileSize(a + b) == TotalFileSize(a) + TotalFileSize(b)
    ensures forall f: File :: TotalFileSize([f]) == f.size
  {
    assert forall f: File :: [f][..0] == [];
    if b == [] {
      assert a + b == a;
    } else {
      var n := |b| - 1;
      assert (a + b)[..|a + b| - 1] == a + b[..n];
      SizesAdd(a, b[..n]);
    }
  }

  method ComputeTotalFileSize(files: seq<File>) returns (sum: nat)
    ensures sum == TotalFileSize(files)
  {
    sum := 0;
    for i := 0 to |files|
      invariant sum == TotalFileSize(files[..i])
    {
      assert files[..i + 1][..i] == files[..i];
      sum := sum + files[i].size;
    }
    assert files[..|files|] == files;
  }

  lemma RangeOfMore(files: seq<File>, more: seq<File>)
    requires |files| > 0 && forall f | f in files :: f in more
    ensures |more| > 0
    ensures SmallestOf(more).user <= SmallestOf(files).user && LargestOf(files).user <= LargestOf(more).user
  {
    assert files[0] in more;
    var f := SmallestFile(files);
    var g := LargestFile(files);
    var f' := SmallestFile(more);
    var g' := LargestFile(more);
    assert f in more && g in more;
  }

  // ----- Which files are taken -----

  /** r is what a user range asks for: above level 0 the files meeting it, at
      level 0 the least set holding them that is closed under overlap. */
  ghost predicate InRange(files: seq<File>, level: nat, lo: Option<UserKey>, hi: Option<UserKey>, r: seq<File>) {
    if level == 0 then LeastClosed(files, lo, hi, r) else r == Overlapping(files, lo, hi)
  }

  /** picked and the boundary files after it. */
  ghost function Closed(files: seq<File>, picked: seq<File>): seq<File>
    requires |picked| > 0
  {
    picked + BoundaryChain(files, LargestOf(picked))
  }

  /** e is all that the input level has in the range of both inputs. */
  ghost predicate Widened(v: Version, level: nat, in0: seq<File>, in1: seq<File>, e: seq<File>)
    requires |v.levels| == NUM_LEVELS && level + 1 < NUM_LEVELS && |in0| > 0
  {
    exists w :: |w| > 0 && e == Closed(v.levels[level], w)
      && InRange(v.levels[level], level, Some(SmallestOf(in0 + in1).user), Some(LargestOf(in0 + in1).user), w)
  }

  /** Taking e instead of in0 is worth it: more files, below the limit, and no
      further file of the next level. */
  ghost predicate Pays(v: Version, level: nat, in0: seq<File>, in1: seq<File>, expandedLimit: nat, e: seq<File>)
    requires |v.levels| == NUM_LEVELS && level + 1 < NUM_LEVELS
  {
    && |e| > |in0| && |in1| > 0
    && TotalFileSize(in1) + TotalFileSize(e) < expandedLimit
    && |Meeting(v.levels[level + 1], e)| == |in1|
  }

  /** The inputs that `picked` leads to. */
  ghost predicate SetUp(v: Version, level: nat, picked: seq<File>, expandedLimit: nat, in0: seq<File>, in1: seq<File>)
    requires |v.levels| == NUM_LEVELS && level + 1 < NUM_LEVELS && |picked| > 0
  {
    var c := Closed(v.levels[level], picked);
    && in1 == Meeting(v.levels[level + 1], c)
    && (|in1| == 0 ==> in0 == c)
    && (|in1| > 0 ==> exists e :: Widened(v, level, c, in1, e) && in0 == if Pays(v, level, c, in1, expandedLimit, e) then e else c)
  }

  lemma MakeSetUp(v: Version, level: nat, picked: seq<File>, expandedLimit: nat, in0: seq<File>, in1: seq<File>, e: seq<File>)
    requires |v.levels| == NUM_LEVELS && level + 1 < NUM_LEVELS && |picked| > 0
    requires var c := Closed(v.levels[level], picked);
      && in1 == Meeting(v.levels[level + 1], c) && Widened(v, level, c, in1, e)
      && in0 == if Pays(v, level, c, in1, expandedLimit, e) then e else c
    ensures SetUp(v, level, picked, expandedLimit, in0, in1)
  {
    hide Widened, Meeting, Closed;
  }

  lemma MakeWidened(v: Version, level: nat, in0: seq<File>, in1: seq<File>, w: seq<File>)
    requires |v.levels| == NUM_LEVELS && level + 1 < NUM_LEVELS && |in0| > 0 && |w| > 0
    requires InRange(v.levels[level], level, Some(SmallestOf(in0 + in1).user), Some(LargestOf(in0 + in1).user), w)
    ensures Widened(v, level, in0, in1, Closed(v.levels[level], w))
  {
    hide InRange, Closed;
  }

  /** The larger level input set SetupOtherInputs tries. */
  method Expand(v: Version, level: nat, in0: seq<File>, in1: seq<File>) returns (expanded0: seq<File>)
    requires ValidVersion(v) && level + 1 < NUM_LEVELS
    requires LevelInputs(v, level, in0)
    ensures LevelInputs(v, level, expanded0)
    ensures level > 0 ==> ClosedRun(v.levels[level], expanded0)
    ensures forall f | f in in0 :: f in expanded0
    ensures Widened(v, level, in0, in1, expanded0)
  {
    AllFilesValid(v, level);
    var allStart, allLimit := GetRange(in0 + in1);
    expanded0 := GetOverlappingInputs(level, v.levels[level], Some(allStart.user), Some(allLimit.user));
    ExpandedHoldsInputs(v, level, in0, in1, expanded0);
    OverlapShape(v, level, Some(allStart.user), Some(allLimit.user), expanded0);
    BoundaryCloses(v, level, expanded0);
    MakeWidened(v, level, in0, in1, expanded0);
    expanded0 := AddBoundaryInputs(v.levels[level], expanded0);
  }

  /** SetupOtherInputs's attempt to grow the level inputs without taking any
      further file of the next level. */
  method Grow(v: Version, level: nat, in0: seq<File>, in1: seq<File>, expandedLimit: nat) returns (r: seq<File>, ghost e: seq<File>)
    requires ValidVersion(v) && level + 1 < NUM_LEVELS && GoodInputs(v, level, in0, in1) && |in1| > 0
    ensures GoodInputs(v, level, r, in1)
    ensures forall f | f in in0 :: f in r
    ensures Widened(v, level, in0, in1, e) && r == if Pays(v, level, in0, in1, expandedLimit, e) then e else in0
  {
    hide *;
    GoodParts(v, level, in0, in1);
    AllFilesValid(v, level + 1);
    var next := v.levels[level + 1];
    var expanded0 := Expand(v, level, in0, in1);
    e := expanded0;
    PaysIs(v, level, in0, in1, expandedLimit, e);
    var inputs1Size := ComputeTotalFileSize(in1);
    var expanded0Size := ComputeTotalFileSize(expanded0);
    r := in0;
    if |expanded0| > |in0| && inputs1Size + expanded0Size < expandedLimit {
      RangeOfMore(in0, expanded0);
      MakeGood(v, level, expanded0);
      var newStart, newLimit := GetRange(expanded0);
      var expanded1 := GetOverlappingInputs(level + 1, next, Some(newStart.user), Some(newLimit.user));
      WideningGains(next, SmallestOf(in0).user, LargestOf(in0).user, newStart.user, newLimit.user);
      if |expanded1| == |in1| {
        r := expanded0;
      }
    }
  }

  lemma GoodParts(v: Version, level: nat, in0: seq<File>, in1: seq<File>)
    requires ValidVersion(v) && level + 1 < NUM_LEVELS && GoodInputs(v, level, in0, in1)
    ensures |v.levels| == NUM_LEVELS && LevelInputs(v, level, in0) && |in0| > 0
    ensures in1 == Meeting(v.levels[level + 1], in0)
         == Overlapping(v.levels[level + 1], Some(SmallestOf(in0).user), Some(LargestOf(in0).user))
  {
    hide Overlapping, ClosedRun, SmallestOf, LargestOf;
  }

  lemma PaysIs(v: Version, level: nat, in0: seq<File>, in1: seq<File>, expandedLimit: nat, e: seq<File>)
    requires |v.levels| == NUM_LEVELS && level + 1 < NUM_LEVELS
    ensures Pays(v, level, in0, in1, expandedLimit, e) <==>
      && |e| > |in0| && |in1| > 0
      && TotalFileSize(in1) + TotalFileSize(e) < expandedLimit
      && |Meeting(v.levels[level + 1], e)| == |in1|
  {
    hide TotalFileSize, Meeting;
  }

  /** SetupOtherInputs: close the level inputs, take the next level's overlap,
      and grow the level inputs when that costs no further next-level file.
      Whatever branch is taken, the next-level files are those met by the
      inputs before growing. */
  method SetupOtherInputs(v: Version, level: nat, picked: seq<File>, expandedLimit: nat)
    returns (in0: seq<File>, in1: seq<File>)
    requires ValidVersion(v) && level + 1 < NUM_LEVELS
    requires LevelInputs(v, level, picked)
    ensures GoodInputs(v, level, in0, in1)
    ensures forall f | f in picked :: f in in0
    ensures SetUp(v, level, picked, expandedLimit, in0, in1)
  {
    hide *;
    PickedParts(v, level, picked);
    AllFilesValid(v, level);
    AllFilesValid(v, level + 1);
    in0 := AddBoundaryInputs(v.levels[level], picked);
    BoundaryCloses(v, level, picked);
    ClosedIs(v.levels[level], picked);
    MakeGood(v, level, in0);
    var smallest, largest := GetRange(in0);
    in1 := GetOverlappingInputs(level + 1, v.levels[level + 1], Some(smallest.user), Some(largest.user));
    NoNextFiles(v, level, picked, expandedLimit, in0, in1);
    if |in1| > 0 {
      ghost var e;
      in0, e := Grow(v, level, in0, in1, expandedLimit);
      MakeSetUp(v, level, picked, expandedLimit, in0, in1, e);
    }
  }

  lemma PickedParts(v: Version, level: nat, picked: seq<File>)
    requires ValidVersion(v) && level + 1 < NUM_LEVELS && LevelInputs(v, level, picked)
    ensures |v.levels| == NUM_LEVELS && |picked| > 0 && level + 1 < |v.levels|
  {
  }

  lemma ClosedIs(files: seq<File>, picked: seq<File>)
    requires |picked| > 0
    ensures Closed(files, picked) == picked + BoundaryChain(files, LargestOf(picked))
  {
    hide BoundaryChain, LargestOf;
  }

  lemma MakeGood(v: Version, level: nat, in0: seq<File>)
    requires |v.levels| == NUM_LEVELS && level + 1 < NUM_LEVELS && LevelInputs(v, level, in0)
    requires level > 0 ==> ClosedRun(v.levels[level], in0)
    ensures |in0| > 0 && GoodInputs(v, level, in0, Meeting(v.levels[level + 1], in0))
    ensures Meeting(v.levels[level + 1], in0)
         == Overlapping(v.levels[level + 1], Some(SmallestOf(in0).user), Some(LargestOf(in0).user))
  {
    hide ClosedRun, Overlapping;
  }

  lemma NoNextFiles(v: Version, level: nat, picked: seq<File>, expandedLimit: nat, in0: seq<File>, in1: seq<File>)
    requires |v.levels| == NUM_LEVELS && level + 1 < NUM_LEVELS && |picked| > 0
    requires in0 == Closed(v.levels[level], picked) && in1 == Meeting(v.levels[level + 1], in0)
    ensures |in1| == 0 ==> SetUp(v, level, picked, expandedLimit, in0, in1)
  {
  }

  lemma RangeCovers(files: seq<File>, f: File)
    requires Proper(f) && f in files
    ensures Overlaps(f, Some(SmallestOf(files).user), Some(LargestOf(files).user))
  {
    var s := SmallestFile(files);
    var l := LargestFile(files);
  }

  lemma ExpandedHoldsInputs(v: Version, level: nat, in0: seq<File>, in1: seq<File>, expanded0: seq<File>)
    requires ValidVersion(v) && level + 1 < NUM_LEVELS && LevelInputs(v, level, in0)
    requires level > 0 ==> expanded0 == Meeting(v.levels[level], in0 + in1)
    requires level == 0 ==>
      LeastClosed(v.levels[0], Some(SmallestOf(in0 + in1).user), Some(LargestOf(in0 + in1).user), expanded0)
    ensures |expanded0| > 0 && forall f | f in in0 :: f in expanded0
  {
    AllFilesValid(v, level);
    var all := in0 + in1;
    var lo, hi := Some(SmallestOf(all).user), Some(LargestOf(all).user);
    OverlappingMembers(v.levels[level], lo, hi);
    forall f | f in in0 ensures f in expanded0 {
      assert f in all && Proper(f);
      RangeCovers(all, f);
      if level == 0 {
        assert f in (set g | g in expanded0);
      }
    }
    assert in0[0] in expanded0;
  }

  lemma SingleFileIsRun(files: seq<File>, i: nat)
    requires i < |files|
    ensures Run(files, [files[i]])
  {
    assert [files[i]] == files[i..i + 1];
  }

  /** What a chosen file brings along: itself, and at level 0 the files that
      overlap it, directly or through others. */
  ghost predicate PickedFor(v: Version, level: nat, f: File, picked: seq<File>)
    requires |v.levels| == NUM_LEVELS && level + 1 < NUM_LEVELS
  {
    if level == 0 then LeastClosed(v.levels[0], Some(f.smallest.user), Some(f.largest.user), picked) else picked == [f]
  }

  /** PickCompaction, once the level and file are chosen (by size score, by
      the compaction pointer, or by seek count). */
  method PickCompaction(v: Version, level: nat, i: nat, expandedLimit: nat) returns (in0: seq<File>, in1: seq<File>)
    requires ValidVersion(v) && level + 1 < NUM_LEVELS && i < |v.levels[level]|
    ensures GoodInputs(v, level, in0, in1)
    ensures v.levels[level][i] in in0
    ensures exists picked :: && |picked| > 0
                             && PickedFor(v, level, v.levels[level][i], picked)
                             && SetUp(v, level, picked, expandedLimit, in0, in1)
  {
    AllFilesValid(v, level);
    SingleFileIsRun(v.levels[level], i);
    in0 := [v.levels[level][i]];
    if level == 0 {
      var smallest, largest := GetRange(in0);
      in0 := GetOverlappingInputs(0, v.levels[0], Some(smallest.user), Some(largest.user));
      var f := v.levels[0][i];
      assert Overlaps(f, Some(smallest.user), Some(largest.user));
      assert f in (set g | g in in0);
      OverlapShape(v, 0, Some(smallest.user), Some(largest.user), in0);
    }
    ghost var picked := in0;
    assert PickedFor(v, level, v.levels[level][i], picked);
    hide SetUp, PickedFor, LeastClosed, GoodInputs, LevelInputs;
    in0, in1 := SetupOtherInputs(v, level, in0, expandedLimit);
  }

  /** What a manual compaction picks for a user range: at level 0 the least
      closed set holding every file that meets it; above, the files that meet it
      from the first one on, cut once their sizes reach the limit. */
  ghost predicate PickedForRange(v: Version, level: nat, begin: Option<UserKey>, end: Option<UserKey>, sizeLimit: nat, picked: seq<File>)
    requires |v.levels| == NUM_LEVELS && level + 1 < NUM_LEVELS
  {
    if level == 0 then LeastClosed(v.levels[0], begin, end, picked)
    else
      var all := Overlapping(v.levels[level], begin, end);
      && 0 < |picked| <= |all| && picked == all[..|picked|]
      && (forall n | 0 < n < |picked| :: TotalFileSize(all[..n]) < sizeLimit)
      && (|picked| < |all| ==> TotalFileSize(picked) >= sizeLimit)
  }

  /** CompactRange: nothing is found exactly if no file of the level meets the
      range, and otherwise the range decides what is picked. */
  method CompactRange(v: Version, level: nat, begin: Option<UserKey>, end: Option<UserKey>, sizeLimit: nat, expandedLimit: nat)
    returns (found: bool, in0: seq<File>, in1: seq<File>)
    requires ValidVersion(v) && level + 1 < NUM_LEVELS
    ensures found <==> SomeOverlap(v.levels[level], begin, end)
    ensures found ==> GoodInputs(v, level, in0, in1)
    ensures found ==> exists picked :: && |picked| > 0
                                       && PickedForRange(v, level, begin, end, sizeLimit, picked)
                                       && SetUp(v, level, picked, expandedLimit, in0, in1)
                                       && forall f | f in picked :: f in in0
    ensures found && level == 0 ==> forall f | f in v.levels[0] && Overlaps(f, begin, end) :: f in in0
  {
    AllFilesValid(v, level);
    in0 := GetOverlappingInputs(level, v.levels[level], begin, end);
    FoundMeets(v.levels[level], level, begin, end, in0);
    if |in0| == 0 {
      return false, [], [];
    }
    OverlapShape(v, level, begin, end, in0);
    if level > 0 {
      in0 := CutAtSize(v.levels[level], in0, sizeLimit);
      assert LevelInputs(v, level, in0);
    }
    ghost var picked := in0;
    assert PickedForRange(v, level, begin, end, sizeLimit, picked);
    assert level == 0 ==> forall f | f in v.levels[0] && Overlaps(f, begin, end) :: f in (set g | g in picked);
    hide SetUp, PickedForRange, LeastClosed, GoodInputs, LevelInputs, Overlapping;
    in0, in1 := SetupOtherInputs(v, level, in0, expandedLimit);
    found := true;
  }

  lemma FoundMeets(files: seq<File>, level: nat, begin: Option<UserKey>, end: Option<UserKey>, r: seq<File>)
    requires level > 0 ==> r == Overlapping(files, begin, end)
    requires level == 0 ==> LeastClosed(files, begin, end, r)
    ensures |r| > 0 <==> SomeOverlap(files, begin, end)
  {
    OverlappingMembers(files, begin, end);
    var R := set f | f in r;
    assert |r| > 0 ==> r[0] in r;
    if level == 0 {
      assert SomeOverlap(files, begin, end) || ClosedUnderOverlap(files, begin, end, {});
      assert forall f | f in files && Overlaps(f, begin, end) :: f in R;
    }
    assert forall f | f in files && Overlaps(f, begin, end) :: f in r;
  }

  /** The cut of CompactRange above level 0. */
  method CutAtSize(ghost files: seq<File>, inputs: seq<File>, sizeLimit: nat) returns (r: seq<File>)
    requires Run(files, inputs) && |inputs| > 0
    ensures Run(files, r) && 0 < |r| <= |inputs| && r == inputs[..|r|]
    ensures forall n | 0 < n < |r| :: TotalFileSize(inputs[..n]) < sizeLimit
    ensures |r| < |inputs| ==> TotalFileSize(r) >= sizeLimit
  {
    var total, i := 0, 0;
    while i < |inputs|
      invariant i <= |inputs| && total == TotalFileSize(inputs[..i])
      invariant forall n | 0 < n <= i :: TotalFileSize(inputs[..n]) < sizeLimit
    {
      assert inputs[..i + 1][..i] == inputs[..i];
      total := total + inputs[i].size;
      if total >= sizeLimit {
        CutRun(files, inputs, i + 1);
        return inputs[..i + 1];
      }
      i := i + 1;
    }
    r := inputs;
    assert inputs[..|r|] == r;
  }

  lemma CutRun(files: seq<File>, run: seq<File>, n: nat)
    requires Run(files, run) && 0 < n <= |run|
    ensures Run(files, run[..n])
  {
    var a, b :| 0 <= a < b <= |files| && run == files[a..b];
    assert run[..n] == files[a..a + n];
  }

  // ----- Where a flushed memtable goes -----

  ghost predicate SomeOverlap(files: seq<File>, lo: Option<UserKey>, hi: Option<UserKey>) {
    exists f :: f in files && Overlaps(f, lo, hi)
  }

  /** SomeFileOverlapsRange, with binary search on a sorted level. */
  method SomeFileOverlapsRange(disjointSorted: bool, files: seq<File>, lo: Option<UserKey>, hi: Option<UserKey>)
    returns (r: bool)
    requires AllProper(files) && (disjointSorted ==> Disjoint(files))
    requires KeysBounded(files)
    ensures r <==> SomeOverlap(files, lo, hi)
  {
    if !disjointSorted {
      for i := 0 to |files|
        invariant forall j | 0 <= j < i :: !Overlaps(files[j], lo, hi)
      {
        if Overlaps(files[i], lo, hi) {
          return true;
        }
      }
      return false;
    }
    SortedLevelAscends(files);
    var index := 0;
    if lo.Some? {
      forall i, j | 0 <= i < j < |files| ensures Less(files[i].largest, files[j].largest) {
        RunOrder(files, i, j);
      }
      index := FindFile(files, LookupKey(lo.value, MAX_SEQUENCE));
    }
    assert forall i | 0 <= i < |files| :: files[i] in files;
    assert forall i | 0 <= i < index :: files[i].largest.user < lo.value;
    if index >= |files| {
      return false;
    }
    r := !(hi.Some? && hi.value < files[index].smallest.user);
    assert r ==> Overlaps(files[index], lo, hi);
    assert !r ==> forall i | index <= i < |files| :: files[index].smallest.user <= files[i].smallest.user;
  }

  ghost predicate KeysBounded(files: seq<File>) {
    forall f | f in files :: f.largest.seqno <= MAX_SEQUENCE
  }

  /** Version::OverlapInLevel. */
  method OverlapInLevel(v: Version, level: nat, lo: UserKey, hi: UserKey) returns (r: bool)
    requires ValidVersion(v) && level < NUM_LEVELS && KeysBounded(v.levels[level])
    ensures r <==> SomeOverlap(v.levels[level], Some(lo), Some(hi))
  {
    AllFilesValid(v, level);
    r := SomeFileOverlapsRange(level > 0, v.levels[level], Some(lo), Some(hi));
  }

  ghost predicate TooMany(files: seq<File>, lo: UserKey, hi: UserKey, grandparentLimit: nat) {
    TotalFileSize(Overlapping(files, Some(lo), Some(hi))) > grandparentLimit
  }

  /** Whether the level after next has too many bytes under the new file. */
  method TooManyGrandparentBytes(v: Version, level: nat, lo: UserKey, hi: UserKey, limit: nat) returns (r: bool)
    requires ValidVersion(v) && level < NUM_LEVELS
    ensures level > 0 ==> (r <==> TooMany(v.levels[level], lo, hi, limit))
  {
    AllFilesValid(v, level);
    var overlaps := GetOverlappingInputs(level, v.levels[level], Some(lo), Some(hi));
    var sum := ComputeTotalFileSize(overlaps);
    r := sum > limit;
  }

  /** The range is free from level 0 down to `level`. */
  ghost predicate FreeDownTo(v: Version, lo: UserKey, hi: UserKey, level: nat)
    requires |v.levels| == NUM_LEVELS && level < NUM_LEVELS
  {
    forall l | 0 <= l <= level :: !SomeOverlap(v.levels[l], Some(lo), Some(hi))
  }

  /** And meets few bytes two levels below each level on the way. */
  ghost predicate LightDownTo(v: Version, lo: UserKey, hi: UserKey, grandparentLimit: nat, level: nat)
    requires |v.levels| == NUM_LEVELS && level + 1 < NUM_LEVELS
  {
    forall l | 2 <= l <= level + 1 :: !TooMany(v.levels[l], lo, hi, grandparentLimit)
  }

  ghost predicate StopsAt(v: Version, lo: UserKey, hi: UserKey, grandparentLimit: nat, level: nat)
    requires |v.levels| == NUM_LEVELS && level + 2 < NUM_LEVELS
  {
    || level == MAX_MEM_COMPACT_LEVEL
    || (level == 0 && SomeOverlap(v.levels[0], Some(lo), Some(hi)))
    || SomeOverlap(v.levels[level + 1], Some(lo), Some(hi))
    || TooMany(v.levels[level + 2], lo, hi, grandparentLimit)
  }

  /** The level for a flushed memtable: the deepest that is reached step by step
      while the range stays free and light. */
  ghost predicate FlushLevel(v: Version, lo: UserKey, hi: UserKey, grandparentLimit: nat, level: nat)
    requires |v.levels| == NUM_LEVELS
  {
    && level <= MAX_MEM_COMPACT_LEVEL
    && (level > 0 ==> FreeDownTo(v, lo, hi, level))
    && LightDownTo(v, lo, hi, grandparentLimit, level)
    && StopsAt(v, lo, hi, grandparentLimit, level)
  }

  lemma OneDown(v: Version, lo: UserKey, hi: UserKey, grandparentLimit: nat, level: nat)
    requires |v.levels| == NUM_LEVELS && level + 2 < NUM_LEVELS
    ensures FreeDownTo(v, lo, hi, 0) <==> !SomeOverlap(v.levels[0], Some(lo), Some(hi))
    ensures LightDownTo(v, lo, hi, grandparentLimit, 0)
    ensures FreeDownTo(v, lo, hi, level) && !SomeOverlap(v.levels[level + 1], Some(lo), Some(hi)) ==> FreeDownTo(v, lo, hi, level + 1)
    ensures LightDownTo(v, lo, hi, grandparentLimit, level) && !TooMany(v.levels[level + 2], lo, hi, grandparentLimit) ==>
      LightDownTo(v, lo, hi, grandparentLimit, level + 1)
  {
    hide SomeOverlap, TooMany;
  }

  /** PickLevelForMemTableOutput. */
  method PickLevelForMemTableOutput(v: Version, lo: UserKey, hi: UserKey, grandparentLimit: nat) returns (level: nat)
    requires ValidVersion(v)
    requires forall l | 0 <= l < NUM_LEVELS :: KeysBounded(v.levels[l])
    ensures level <= MAX_MEM_COMPACT_LEVEL && |v.levels| == NUM_LEVELS
    ensures FlushLevel(v, lo, hi, grandparentLimit, level)
  {
    assert |v.levels| == NUM_LEVELS;
    hide ValidVersion, SomeOverlap, KeysBounded, TooMany, FreeDownTo, LightDownTo;
    level := 0;
    OneDown(v, lo, hi, grandparentLimit, 0);
    var overlap := OverlapInLevel(v, 0, lo, hi);
    if !overlap {
      while level < MAX_MEM_COMPACT_LEVEL
        invariant level <= MAX_MEM_COMPACT_LEVEL
        invariant FreeDownTo(v, lo, hi, level) && LightDownTo(v, lo, hi, grandparentLimit, level)
      {
        OneDown(v, lo, hi, grandparentLimit, level);
        var next := OverlapInLevel(v, level + 1, lo, hi);
        if next {
          break;
        }
        if level + 2 < NUM_LEVELS {
          var tooMany := TooManyGrandparentBytes(v, level + 2, lo, hi, grandparentLimit);
          if tooMany {
            break;
          }
        }
        level := level + 1;
      }
    }
  }
}
