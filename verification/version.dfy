/** Table files, versions (seven levels of files) and point lookup. */
module Versions {
  import opened DbFormat

  /** FileMetaData together with the entries of the table it describes. */
  datatype File = File(number: nat, size: nat, smallest: InternalKey, largest: InternalKey, entries: seq<Entry>)
  {
    ghost function Set(): set<Entry> { Contents(entries) }

    ghost predicate Valid() {
      && |entries| > 0
      && SortedEntries(entries)
      && smallest == entries[0].key
      && largest == entries[|entries| - 1].key
    }
  }

  datatype Version = Version(levels: seq<seq<File>>)

  ghost function LevelEntries(files: seq<File>): set<Entry> {
    set i, e | 0 <= i < |files| && e in files[i].entries :: e
  }

  ghost function VersionEntries(v: Version): set<Entry> {
    set l, e | 0 <= l < |v.levels| && e in LevelEntries(v.levels[l]) :: e
  }

  ghost predicate ValidFiles(files: seq<File>) {
    && (forall i | 0 <= i < |files| :: files[i].Valid())
    && (forall i, j | 0 <= i < j < |files| :: files[i].number != files[j].number)
  }

  /** The shape of a level above 0: sorted and pairwise disjoint by internal key. */
  ghost predicate Disjoint(files: seq<File>) {
    forall i, j | 0 <= i < j < |files| :: Less(files[i].largest, files[j].smallest)
  }

  /** The shape of level 0: a higher file number means newer entries. */
  ghost predicate NewerByNumber(files: seq<File>) {
    forall i, j | 0 <= i < |files| && 0 <= j < |files| && files[i].number > files[j].number ::
      Newer(files[i].Set(), files[j].Set())
  }

  ghost predicate ValidVersion(v: Version) {
    && |v.levels| == NUM_LEVELS
    && (forall l | 0 <= l < NUM_LEVELS :: ValidFiles(v.levels[l]))
    && (forall l | 0 < l < NUM_LEVELS :: Disjoint(v.levels[l]))
    && NewerByNumber(v.levels[0])
    && (forall l, m | 0 <= l < m < NUM_LEVELS :: Newer(LevelEntries(v.levels[l]), LevelEntries(v.levels[m])))
    && Unique(VersionEntries(v))
  }

  lemma FileBounds(f: File, e: Entry)
    requires f.Valid() && e in f.entries
    ensures !Less(e.key, f.smallest) && !Less(f.largest, e.key)
  {
    var i :| 0 <= i < |f.entries| && f.entries[i] == e;
  }

  // ----- Point lookup -----

  /** Table lookup: the first entry at or after `target`. */
  function SeekIndex(es: seq<Entry>, target: InternalKey): (i: nat)
    ensures i <= |es|
    ensures forall j | 0 <= j < i :: Less(es[j].key, target)
    ensures i < |es| ==> !Less(es[i].key, target)
  {
    if es == [] || !Less(es[0].key, target) then 0 else 1 + SeekIndex(es[1..], target)
  }

  /** FindFile: binary search for the first file whose largest key is at or
      after `key`. */
  method FindFile(files: seq<File>, key: InternalKey) returns (index: nat)
    requires forall i, j | 0 <= i < j < |files| :: Less(files[i].largest, files[j].largest)
    ensures index <= |files|
    ensures forall i | 0 <= i < index :: Less(files[i].largest, key)
    ensures forall i | index <= i < |files| :: !Less(files[i].largest, key)
  {
    var left, right := 0, |files|;
    while left < right
      invariant 0 <= left <= right <= |files|
      invariant forall i | 0 <= i < left :: Less(files[i].largest, key)
      invariant forall i | right <= i < |files| :: !Less(files[i].largest, key)
    {
      var mid := (left + right) / 2;
      if Less(files[mid].largest, key) {
        left := mid + 1;
      } else {
        right := mid;
      }
    }
    index := right;
  }

  lemma DisjointAscending(files: seq<File>)
    requires ValidFiles(files) && Disjoint(files)
    ensures forall i, j | 0 <= i < j < |files| :: Less(files[i].largest, files[j].largest)
  {
    forall i, j | 0 <= i < j < |files| ensures Less(files[i].largest, files[j].largest) {
      FileBounds(files[j], files[j].entries[|files[j].entries| - 1]);
    }
  }

  /** What TableCache::Get reports through SaveValue. */
  datatype Saver = NotFound | Hit(entry: Entry)

  function TableGet(f: File, k: UserKey, s: nat): Saver {
    var i := SeekIndex(f.entries, LookupKey(k, s));
    if i < |f.entries| && f.entries[i].key.user == k then Hit(f.entries[i]) else NotFound
  }

  /** One table: a hit is the newest visible entry, a miss means none is visible. */
  lemma TableGetCorrect(f: File, k: UserKey, s: nat)
    requires f.Valid()
    ensures match TableGet(f, k, s)
      case Hit(e) => Newest(f.Set(), k, s, e)
      case NotFound => forall e | e in f.Set() :: !Visible(e, k, s)
  {
    var i := SeekIndex(f.entries, LookupKey(k, s));
    forall e | e in f.entries && Visible(e, k, s)
      ensures i < |f.entries| && f.entries[i].key.user == k && e.key.seqno <= f.entries[i].key.seqno
    {
      var j :| 0 <= j < |f.entries| && f.entries[j] == e;
      assert j >= i;
    }
  }

  ghost predicate Misses(E: set<Entry>, k: UserKey, s: nat) {
    forall e | e in E :: !Visible(e, k, s)
  }

  /** An entry visible at (k, s) sits in file `index` or later; if later, the
      file at `index` ends on the same user key with an entry at least as new. */
  lemma VisibleFrom(files: seq<File>, k: UserKey, s: nat, index: nat, i: nat, e: Entry)
    requires ValidFiles(files) && Disjoint(files) && i < |files| && index <= |files|
    requires forall j | 0 <= j < index :: Less(files[j].largest, LookupKey(k, s))
    requires index < |files| ==> !Less(files[index].largest, LookupKey(k, s))
    requires e in files[i].entries && Visible(e, k, s)
    ensures index <= i && files[index].smallest.user <= k
    ensures i > index ==> files[index].largest.user == k && e.key.seqno <= files[index].largest.seqno <= s
  {
    FileBounds(files[i], e);
    if i > index {
      assert Less(files[index].largest, files[i].smallest);
      FileBounds(files[index], files[index].entries[0]);
    }
  }

  /** Files of a sorted, disjoint level other than the one FindFile returns
      hold nothing visible that is newer than what that file holds. */
  lemma LevelLookup(files: seq<File>, k: UserKey, s: nat, index: nat)
    requires ValidFiles(files) && Disjoint(files)
    requires index <= |files|
    requires forall i | 0 <= i < index :: Less(files[i].largest, LookupKey(k, s))
    requires index < |files| ==> !Less(files[index].largest, LookupKey(k, s))
    ensures index == |files| || k < files[index].smallest.user ==> Misses(LevelEntries(files), k, s)
    ensures index < |files| ==> match TableGet(files[index], k, s)
      case Hit(e) => Newest(LevelEntries(files), k, s, e)
      case NotFound => Misses(LevelEntries(files), k, s)
  {
    if index < |files| {
      TableGetCorrect(files[index], k, s);
    }
    forall i, e | 0 <= i < |files| && e in files[i].entries && Visible(e, k, s)
      ensures index <= i && files[index].smallest.user <= k
      ensures i > index ==> exists w :: w in files[index].Set() && Visible(w, k, s) && e.key.seqno <= w.key.seqno
    {
      VisibleFrom(files, k, s, index, i, e);
      if i > index {
        assert files[index].entries[|files[index].entries| - 1] in files[index].Set();
      }
    }
  }

  ghost predicate NewestFirst(files: seq<File>) {
    forall i, j | 0 <= i < j < |files| :: files[i].number >= files[j].number
  }

  function InsertByNumber(f: File, sorted: seq<File>): (r: seq<File>)
    requires NewestFirst(sorted)
    ensures |r| == |sorted| + 1
    ensures forall g :: g in r <==> g == f || g in sorted
    ensures NewestFirst(r)
  {
    if sorted == [] || sorted[0].number <= f.number then
      [f] + sorted
    else
      var rest := InsertByNumber(f, sorted[1..]);
      assert forall g | g in rest :: g == f || g in sorted[1..];
      assert forall g | g in sorted[1..] :: sorted[0].number >= g.number;
      [sorted[0]] + rest
  }

  /** std::sort with NewestFirst. */
  function SortNewestFirst(files: seq<File>): (r: seq<File>)
    ensures |r| == |files|
    ensures forall g :: g in r <==> g in files
    ensures NewestFirst(r)
  {
    if files == [] then [] else InsertByNumber(files[0], SortNewestFirst(files[1..]))
  }

  /** The files of level 0 whose user-key range holds `k`. */
  method FilesHolding(files: seq<File>, k: UserKey) returns (tmp: seq<File>)
    ensures forall f | f in tmp :: f in files
    ensures forall f | f in files && f.smallest.user <= k <= f.largest.user :: f in tmp
  {
    tmp := [];
    for i := 0 to |files|
      invariant forall f | f in tmp :: f in files
      invariant forall f | f in files[..i] && f.smallest.user <= k <= f.largest.user :: f in tmp
    {
      assert files[..i + 1] == files[..i] + [files[i]];
      if k >= files[i].smallest.user && k <= files[i].largest.user {
        tmp := tmp + [files[i]];
      }
    }
    assert files[..|files|] == files;
  }

  lemma VisibleOnlyInHolding(files: seq<File>, k: UserKey, s: nat, e: Entry) returns (f: File)
    requires ValidFiles(files)
    requires e in LevelEntries(files) && Visible(e, k, s)
    ensures f in files && e in f.entries && f.smallest.user <= k <= f.largest.user
  {
    var i :| 0 <= i < |files| && e in files[i].entries;
    f := files[i];
    FileBounds(f, e);
  }

  lemma NewerFileDecides(files: seq<File>, f: File, g: File, a: Entry, b: Entry)
    requires ValidFiles(files) && NewerByNumber(files)
    requires f in files && g in files && f.number >= g.number
    requires a in f.entries && b in g.entries && a.key.user == b.key.user
    ensures f == g || a.key.seqno > b.key.seqno
  {
    var i :| 0 <= i < |files| && files[i] == f;
    var j :| 0 <= j < |files| && files[j] == g;
    if i != j {
      assert files[i].number > files[j].number;
      assert a in files[i].Set() && b in files[j].Set();
    }
  }

  ghost predicate Candidates(files: seq<File>, sorted: seq<File>, k: UserKey) {
    && ValidFiles(files) && NewestFirst(sorted)
    && (forall f | f in sorted :: f in files)
    && (forall f | f in files && f.smallest.user <= k <= f.largest.user :: f in sorted)
  }

  lemma HolderAmongCandidates(files: seq<File>, sorted: seq<File>, k: UserKey, s: nat, e: Entry) returns (m: nat)
    requires Candidates(files, sorted, k)
    requires e in LevelEntries(files) && Visible(e, k, s)
    ensures m < |sorted| && e in sorted[m].Set()
  {
    var g := VisibleOnlyInHolding(files, k, s, e);
    m :| 0 <= m < |sorted| && sorted[m] == g;
  }

  lemma FirstHitIsNewest(files: seq<File>, sorted: seq<File>, n: nat, k: UserKey, s: nat, hit: Entry)
    requires Candidates(files, sorted, k) && NewerByNumber(files) && n < |sorted|
    requires forall m | 0 <= m < n :: Misses(sorted[m].Set(), k, s)
    requires Newest(sorted[n].Set(), k, s, hit)
    ensures Newest(LevelEntries(files), k, s, hit)
  {
    assert sorted[n] in files;
    forall e | e in LevelEntries(files) && Visible(e, k, s)
      ensures e.key.seqno <= hit.key.seqno
    {
      var m := HolderAmongCandidates(files, sorted, k, s, e);
      NewerFileDecides(files, sorted[n], sorted[m], hit, e);
    }
  }

  lemma AllMiss(files: seq<File>, sorted: seq<File>, k: UserKey, s: nat)
    requires Candidates(files, sorted, k)
    requires forall m | 0 <= m < |sorted| :: Misses(sorted[m].Set(), k, s)
    ensures Misses(LevelEntries(files), k, s)
  {
    forall e | e in LevelEntries(files) && Visible(e, k, s) ensures false {
      var m := HolderAmongCandidates(files, sorted, k, s, e);
    }
  }

  /** Level 0 of Version::Get: every file whose user range holds the key, newest first. */
  method SearchLevelZero(files: seq<File>, k: UserKey, s: nat) returns (r: Saver)
    requires ValidFiles(files) && NewerByNumber(files)
    ensures match r
      case Hit(e) => Newest(LevelEntries(files), k, s, e)
      case NotFound => Misses(LevelEntries(files), k, s)
  {
    hide NewerByNumber, LevelEntries;
    var tmp := FilesHolding(files, k);
    var sorted := SortNewestFirst(tmp);
    assert Candidates(files, sorted, k);
    for n := 0 to |sorted|
      invariant forall m | 0 <= m < n :: Misses(sorted[m].Set(), k, s)
    {
      assert sorted[n] in files;
      TableGetCorrect(sorted[n], k, s);
      r := TableGet(sorted[n], k, s);
      if r.Hit? {
        FirstHitIsNewest(files, sorted, n, k, s, r.entry);
        return;
      }
    }
    r := NotFound;
    AllMiss(files, sorted, k, s);
  }

  /** A level above 0 of Version::Get: at most one file can answer. */
  method SearchSortedLevel(files: seq<File>, k: UserKey, s: nat) returns (r: Saver)
    requires ValidFiles(files) && Disjoint(files)
    ensures match r
      case Hit(e) => Newest(LevelEntries(files), k, s, e)
      case NotFound => Misses(LevelEntries(files), k, s)
  {
    DisjointAscending(files);
    var index := FindFile(files, LookupKey(k, s));
    LevelLookup(files, k, s, index);
    if index >= |files| || k < files[index].smallest.user {
      return NotFound;
    }
    r := TableGet(files[index], k, s);
  }

  /** Version::Get: search level by level and stop at the first hit.  The
      answer is the newest visible entry of the flat set of all entries. */
  method VersionGet(v: Version, k: UserKey, s: nat) returns (r: Saver)
    requires ValidVersion(v)
    ensures match r
      case Hit(e) => Newest(VersionEntries(v), k, s, e) && ReadAt(VersionEntries(v), k, s) == Outcome(e)
      case NotFound => Misses(VersionEntries(v), k, s) && ReadAt(VersionEntries(v), k, s) == None
  {
    for level := 0 to NUM_LEVELS
      invariant forall l | 0 <= l < level :: Misses(LevelEntries(v.levels[l]), k, s)
    {
      if |v.levels[level]| == 0 {
        continue;
      }
      if level == 0 {
        r := SearchLevelZero(v.levels[0], k, s);
      } else {
        r := SearchSortedLevel(v.levels[level], k, s);
      }
      if r.Hit? {
        assert Newest(VersionEntries(v), k, s, r.entry);
        ReadOfNewest(VersionEntries(v), k, s, r.entry);
        return;
      }
    }
    r := NotFound;
  }
}
