/** The merge loop of a compaction: which entries it drops, and when dropping
    them leaves every read at or above the smallest snapshot unchanged. */
module CompactionWork {
  import opened DbFormat
  import opened Versions
  import opened Picking

  /** No file below the output level has k in its user range. */
  ghost predicate BaseLevel(v: Version, level: nat, k: UserKey)
    requires |v.levels| == NUM_LEVELS
  {
    forall l, i | level + 2 <= l < NUM_LEVELS && 0 <= i < |v.levels[l]| ::
      !(v.levels[l][i].smallest.user <= k <= v.levels[l][i].largest.user)
  }

  /** Compaction: level_ptrs_ only ever moves forward. */
  class Compaction {
    const version: Version
    const level: nat
    var levelPtrs: seq<nat>
    ghost var lastKey: Option<UserKey>

    ghost predicate Valid()
      reads this
    {
      && |version.levels| == NUM_LEVELS && |levelPtrs| == NUM_LEVELS && level + 1 < NUM_LEVELS
      && (forall l | 0 < l < NUM_LEVELS :: Ascending(version.levels[l]))
      && (forall l | 0 <= l < NUM_LEVELS :: levelPtrs[l] <= |version.levels[l]|)
      && (forall l, i | level + 2 <= l < NUM_LEVELS && 0 <= i < levelPtrs[l] ::
            lastKey.Some? && version.levels[l][i].largest.user < lastKey.value)
    }

    constructor (v: Version, level: nat)
      requires |v.levels| == NUM_LEVELS && level + 1 < NUM_LEVELS && forall l | 0 < l < NUM_LEVELS :: Ascending(v.levels[l])
      ensures Valid() && lastKey == None && version == v && this.level == level
    {
      version, this.level := v, level;
      levelPtrs := seq(NUM_LEVELS, l => 0);
      lastKey := None;
    }

    /** The cursors agree with a stateless scan as long as keys do not decrease. */
    method IsBaseLevelForKey(k: UserKey) returns (base: bool)
      requires Valid() && (lastKey.Some? ==> lastKey.value <= k)
      modifies this
      ensures Valid() && lastKey == Some(k)
      ensures base <==> BaseLevel(version, level, k)
    {
      lastKey := Some(k);
      for lvl := level + 2 to NUM_LEVELS
        invariant Valid() && lastKey == Some(k)
        invariant forall l, i | level + 2 <= l < lvl && 0 <= i < |version.levels[l]| ::
          !(version.levels[l][i].smallest.user <= k <= version.levels[l][i].largest.user)
      {
        var files := version.levels[lvl];
        while levelPtrs[lvl] < |files|
          invariant Valid() && lastKey == Some(k)
          decreases |files| - levelPtrs[lvl]
        {
          var f := files[levelPtrs[lvl]];
          if k <= f.largest.user {
            if k >= f.smallest.user {
              return false;
            }
            break;
          }
          levelPtrs := levelPtrs[lvl := levelPtrs[lvl] + 1];
        }
      }
      base := true;
    }
  }

  // ----- The drop rules on the sorted input -----

  /** Rule (A): the previous entry has the same user key and is at or below the snapshot. */
  predicate Hidden(input: seq<Entry>, i: nat, snap: nat)
    requires i < |input|
  {
    i > 0 && input[i - 1].key.user == input[i].key.user && input[i - 1].key.seqno <= snap
  }

  /** The tombstone rule: a deletion at or below the snapshot with nothing below the output level. */
  ghost predicate Obsolete(v: Version, level: nat, snap: nat, e: Entry)
    requires |v.levels| == NUM_LEVELS
  {
    e.key.kind.TypeDeletion? && e.key.seqno <= snap && BaseLevel(v, level, e.key.user)
  }

  ghost predicate Dropped(v: Version, level: nat, snap: nat, input: seq<Entry>, i: nat)
    requires |v.levels| == NUM_LEVELS && i < |input|
  {
    Hidden(input, i, snap) || Obsolete(v, level, snap, input[i])
  }

  /** What the merge loop writes for the first n input entries. */
  ghost function Kept(v: Version, level: nat, snap: nat, input: seq<Entry>, n: nat): seq<Entry>
    requires |v.levels| == NUM_LEVELS && n <= |input|
  {
    if n == 0 then []
    else Kept(v, level, snap, input, n - 1) + if Dropped(v, level, snap, input, n - 1) then [] else [input[n - 1]]
  }

  function Flatten(files: seq<File>): seq<Entry> {
    if files == [] then [] else Flatten(files[..|files| - 1]) + files[|files| - 1].entries
  }

  lemma FlattenAppend(files: seq<File>, f: File)
    ensures Flatten(files + [f]) == Flatten(files) + f.entries
  {
    assert (files + [f])[..|files|] == files;
  }

  ghost predicate Numbered(files: seq<File>, first: nat) {
    forall i | 0 <= i < |files| :: files[i].number == first + i
  }

  /** FinishCompactionOutputFile: the file covers exactly what was added to it. */
  function FinishFile(number: nat, size: nat, entries: seq<Entry>): (f: File)
    requires |entries| > 0
  {
    File(number, size, entries[0].key, entries[|entries| - 1].key, entries)
  }

  lemma {:induction false} KeptIsSorted(v: Version, level: nat, snap: nat, input: seq<Entry>, n: nat)
    requires |v.levels| == NUM_LEVELS && n <= |input| && SortedEntries(input)
    ensures SortedEntries(Kept(v, level, snap, input, n))
    ensures forall e | e in Kept(v, level, snap, input, n) :: e in input[..n]
  {
    if n > 0 {
      KeptIsSorted(v, level, snap, input, n - 1);
      assert input[..n] == input[..n - 1] + [input[n - 1]];
      forall e | e in Kept(v, level, snap, input, n - 1) ensures Less(e.key, input[n - 1].key) {
        var j :| 0 <= j < |input[..n - 1]| && input[..n - 1][j] == e;
      }
    }
  }

  ghost predicate OutputsOf(files: seq<File>, building: seq<Entry>, first: nat, kept: seq<Entry>) {
    && Flatten(files) + building == kept
    && Numbered(files, first)
    && forall i | 0 <= i < |files| :: Covers(files[i])
  }

  ghost predicate Covers(f: File) {
    |f.entries| > 0 && f.smallest == f.entries[0].key && f.largest == f.entries[|f.entries| - 1].key
  }

  lemma CloseOutput(files: seq<File>, building: seq<Entry>, first: nat, kept: seq<Entry>, size: nat)
    requires OutputsOf(files, building, first, kept) && |building| > 0
    ensures OutputsOf(files + [FinishFile(first + |files|, size, building)], [], first, kept)
  {
    FlattenAppend(files, FinishFile(first + |files|, size, building));
  }

  lemma KeepOne(v: Version, level: nat, snap: nat, input: seq<Entry>, i: nat, files: seq<File>, building: seq<Entry>, first: nat)
    requires |v.levels| == NUM_LEVELS && i < |input|
    requires OutputsOf(files, building, first, Kept(v, level, snap, input, i))
    ensures Dropped(v, level, snap, input, i) ==> OutputsOf(files, building, first, Kept(v, level, snap, input, i + 1))
    ensures !Dropped(v, level, snap, input, i) ==>
              OutputsOf(files, building + [input[i]], first, Kept(v, level, snap, input, i + 1))
  {
  }

  /** The loop's memory of the previous entry: its user key and sequence. */
  ghost predicate Remembers(input: seq<Entry>, i: nat, has: bool, key: UserKey, seqno: nat)
    requires i <= |input|
  {
    && (has <==> i > 0)
    && (i > 0 ==> key == input[i - 1].key.user && seqno == input[i - 1].key.seqno)
  }

  lemma KeysAscend(input: seq<Entry>, i: nat)
    requires SortedEntries(input) && 0 < i < |input|
    ensures input[i - 1].key.user <= input[i].key.user
  {
    assert Less(input[i - 1].key, input[i].key);
  }

  /** The drop decision for one input entry. */
  method DecideDrop(c: Compaction, input: seq<Entry>, i: nat, snap: nat, seqno: nat) returns (drop: bool)
    requires c.Valid() && i < |input| && SortedEntries(input) && snap < MAX_SEQUENCE
    requires c.lastKey.Some? ==> c.lastKey.value <= input[i].key.user
    requires seqno == if i > 0 && input[i - 1].key.user == input[i].key.user then input[i - 1].key.seqno else MAX_SEQUENCE
    modifies c
    ensures c.Valid() && (c.lastKey == old(c.lastKey) || c.lastKey == Some(input[i].key.user))
    ensures drop <==> Dropped(c.version, c.level, snap, input, i)
  {
    var key := input[i].key;
    drop := false;
    if seqno <= snap {
      drop := true;
    } else if key.kind.TypeDeletion? && key.seqno <= snap {
      drop := c.IsBaseLevelForKey(key.user);
    }
  }

  /** DoCompactionWork over the merged input.  Where output files are cut
      (ShouldStopBefore, file size) is left open. */
  method DoCompactionWork(c: Compaction, input: seq<Entry>, snap: nat, first: nat) returns (outputs: seq<File>)
    requires c.Valid() && c.lastKey == None
    requires SortedEntries(input) && snap < MAX_SEQUENCE
    modifies c
    ensures OutputsOf(outputs, [], first, Kept(c.version, c.level, snap, input, |input|))
  {
    hide OutputsOf, Kept, Dropped, SortedEntries;
    outputs := [];
    var building: seq<Entry> := [];
    var hasCurrentUserKey, currentUserKey := false, 0.0;
    var lastSequenceForKey: nat := MAX_SEQUENCE;
    NoOutputs(c.version, c.level, snap, input, first);
    for i := 0 to |input|
      invariant c.Valid() && (c.lastKey.Some? ==> i > 0 && c.lastKey.value <= input[i - 1].key.user)
      invariant Remembers(input, i, hasCurrentUserKey, currentUserKey, lastSequenceForKey)
      invariant OutputsOf(outputs, building, first, Kept(c.version, c.level, snap, input, i))
    {
      var stopBefore: bool, bytes: nat := *, *;
      if stopBefore && |building| > 0 {
        CloseOutput(outputs, building, first, Kept(c.version, c.level, snap, input, i), bytes);
        outputs, building := outputs + [FinishFile(first + |outputs|, bytes, building)], [];
      }
      var key := input[i].key;
      if i > 0 {
        KeysAscend(input, i);
      }
      if !hasCurrentUserKey || key.user != currentUserKey {
        currentUserKey, hasCurrentUserKey := key.user, true;
        lastSequenceForKey := MAX_SEQUENCE;
      }
      var drop := DecideDrop(c, input, i, snap, lastSequenceForKey);
      lastSequenceForKey := key.seqno;
      KeepOne(c.version, c.level, snap, input, i, outputs, building, first);
      if !drop {
        building := building + [input[i]];
        var bigEnough: bool, size: nat := *, *;
        if bigEnough {
          CloseOutput(outputs, building, first, Kept(c.version, c.level, snap, input, i + 1), size);
          outputs, building := outputs + [FinishFile(first + |outputs|, size, building)], [];
        }
      }
    }
    if |building| > 0 {
      var size: nat := *;
      CloseOutput(outputs, building, first, Kept(c.version, c.level, snap, input, |input|), size);
      outputs := outputs + [FinishFile(first + |outputs|, size, building)];
    }
  }

  lemma NoOutputs(v: Version, level: nat, snap: nat, input: seq<Entry>, first: nat)
    requires |v.levels| == NUM_LEVELS
    ensures OutputsOf([], [], first, Kept(v, level, snap, input, 0))
  {
  }

  // ----- The same rules on sets of entries -----

  /** A newer input entry of the same key is itself at or below the snapshot. */
  ghost predicate Covered(I: set<Entry>, e: Entry, snap: nat) {
    exists n :: n in I && n.key.user == e.key.user && n.key.seqno > e.key.seqno && n.key.seqno <= snap
  }

  /** Input entries that survive, given which user keys are base-level. */
  ghost function Survivors(I: set<Entry>, snap: nat, v: Version, level: nat): set<Entry>
    requires |v.levels| == NUM_LEVELS
  {
    set e | e in I && !Covered(I, e, snap) && !Obsolete(v, level, snap, e)
  }

  /** The neighbour test of rule (A) finds exactly the covered entries. */
  lemma HiddenIsCovered(input: seq<Entry>, i: nat, snap: nat)
    requires SortedEntries(input) && Unique(Contents(input)) && i < |input|
    ensures Hidden(input, i, snap) <==> Covered(Contents(input), input[i], snap)
  {
    if Hidden(input, i, snap) {
      assert Less(input[i - 1].key, input[i].key);
      assert input[i - 1] in Contents(input) && input[i] in Contents(input);
    }
    if Covered(Contents(input), input[i], snap) {
      var n :| n in Contents(input) && n.key.user == input[i].key.user && n.key.seqno > input[i].key.seqno && n.key.seqno <= snap;
      var j :| 0 <= j < |input| && input[j] == n;
      NewerComesFirst(input, j, i);
      if j < i - 1 {
        assert Less(input[j].key, input[i - 1].key) && Less(input[i - 1].key, input[i].key);
      }
    }
  }

  lemma NewerComesFirst(input: seq<Entry>, j: nat, i: nat)
    requires SortedEntries(input) && i < |input| && j < |input|
    requires input[j].key.user == input[i].key.user && input[j].key.seqno > input[i].key.seqno
    ensures j < i
  {
    SortedIsInjective(input);
  }

  lemma SortedIsInjective(input: seq<Entry>)
    requires SortedEntries(input)
    ensures forall i, j | 0 <= i < |input| && 0 <= j < |input| && Less(input[i].key, input[j].key) :: i < j
    ensures forall i, j | 0 <= i < |input| && 0 <= j < |input| && input[i] == input[j] :: i == j
  {
    forall i, j | 0 <= i < |input| && 0 <= j < |input| && i != j
      ensures Less(input[i].key, input[j].key) <==> i < j
      ensures input[i] != input[j]
    {
      assert i < j ==> Less(input[i].key, input[j].key);
      assert j < i ==> Less(input[j].key, input[i].key);
    }
  }

  lemma {:induction false} KeptMembers(v: Version, level: nat, snap: nat, input: seq<Entry>, n: nat, e: Entry)
    requires |v.levels| == NUM_LEVELS && n <= |input|
    ensures e in Kept(v, level, snap, input, n) <==>
            exists i :: 0 <= i < n && input[i] == e && !Dropped(v, level, snap, input, i)
  {
    if n > 0 {
      KeptMembers(v, level, snap, input, n - 1, e);
    }
  }

  lemma KeptAreSurvivors(v: Version, level: nat, snap: nat, input: seq<Entry>)
    requires |v.levels| == NUM_LEVELS && SortedEntries(input) && Unique(Contents(input))
    ensures Contents(Kept(v, level, snap, input, |input|)) == Survivors(Contents(input), snap, v, level)
  {
    forall e ensures e in Kept(v, level, snap, input, |input|) <==> e in Survivors(Contents(input), snap, v, level) {
      KeptMembers(v, level, snap, input, |input|, e);
      if e in input {
        var i :| 0 <= i < |input| && input[i] == e;
        HiddenIsCovered(input, i, snap);
        SortedIsInjective(input);
      }
    }
  }

  /** What a compaction is for: of each user key at most one input entry at or
      below the smallest snapshot stays, and a deletion there only if a deeper
      level may still hold the key. */
  lemma NothingNeedlessStays(I: set<Entry>, snap: nat, v: Version, level: nat)
    requires |v.levels| == NUM_LEVELS && Unique(I)
    ensures forall a, b | a in Survivors(I, snap, v, level) && b in Survivors(I, snap, v, level) && a.key.user == b.key.user
              && a.key.seqno <= snap && b.key.seqno <= snap :: a == b
    ensures forall d | d in Survivors(I, snap, v, level) && d.key.kind.TypeDeletion? && d.key.seqno <= snap ::
              exists l, f :: level + 2 <= l < NUM_LEVELS && f in v.levels[l] && f.smallest.user <= d.key.user <= f.largest.user
  {
    forall d | d in Survivors(I, snap, v, level) && d.key.kind.TypeDeletion? && d.key.seqno <= snap
      ensures exists l, f :: level + 2 <= l < NUM_LEVELS && f in v.levels[l] && f.smallest.user <= d.key.user <= f.largest.user
    {
      var l, i :| level + 2 <= l < NUM_LEVELS && 0 <= i < |v.levels[l]|
        && v.levels[l][i].smallest.user <= d.key.user <= v.levels[l][i].largest.user;
      assert v.levels[l][i] in v.levels[l];
    }
  }

  // ----- Reads before and after -----

  /** The state in which dropping the tombstone d brings the old value p back:
      d is the input's newest entry of its key at or below the snapshot, it is
      obsolete, and among the entries outside the inputs p is the newest one at
      or below the snapshot, is older than d, and is a value. */
  ghost predicate Resurrects(I: set<Entry>, O: set<Entry>, snap: nat, v: Version, level: nat, d: Entry, p: Entry)
    requires |v.levels| == NUM_LEVELS
  {
    && d in I && Obsolete(v, level, snap, d) && !Covered(I, d, snap)
    && Newest(O, d.key.user, snap, p) && p.key.seqno < d.key.seqno && p.key.kind.TypeValue?
  }

  ghost predicate NoResurrection(I: set<Entry>, O: set<Entry>, snap: nat, v: Version, level: nat)
    requires |v.levels| == NUM_LEVELS
  {
    forall d, p | d in I && p in O :: !Resurrects(I, O, snap, v, level, d, p)
  }

  ghost predicate ReadsKept(I: set<Entry>, O: set<Entry>, snap: nat, v: Version, level: nat)
    requires |v.levels| == NUM_LEVELS
  {
    forall k, s | s >= snap :: ReadAt(Survivors(I, snap, v, level) + O, k, s) == ReadAt(I + O, k, s)
  }

  lemma ReadKept(I: set<Entry>, O: set<Entry>, snap: nat, v: Version, level: nat, k: UserKey, s: nat)
    requires |v.levels| == NUM_LEVELS && Unique(I + O) && s >= snap
    requires NoResurrection(I, O, snap, v, level)
    ensures ReadAt(Survivors(I, snap, v, level) + O, k, s) == ReadAt(I + O, k, s)
  {
    var S := Survivors(I, snap, v, level);
    if e :| e in I + O && Visible(e, k, s) {
      var n := NewestExists(I + O, k, s, e);
      ReadOfNewest(I + O, k, s, n);
      if n in S + O {
        assert Newest(S + O, k, s, n);
        ReadOfNewest(S + O, k, s, n);
      } else {
        NewestDropped(I, O, snap, v, level, k, s, n);
      }
    }
  }

  /** If the newest visible entry was dropped it was a tombstone, and what is
      left reads as absent too. */
  lemma NewestDropped(I: set<Entry>, O: set<Entry>, snap: nat, v: Version, level: nat, k: UserKey, s: nat, n: Entry)
    requires |v.levels| == NUM_LEVELS && Unique(I + O) && s >= snap
    requires NoResurrection(I, O, snap, v, level)
    requires Newest(I + O, k, s, n) && n in I && n !in Survivors(I, snap, v, level)
    ensures n.key.kind.TypeDeletion? && ReadAt(Survivors(I, snap, v, level) + O, k, s) == None
  {
    var S := Survivors(I, snap, v, level);
    assert !Covered(I, n, snap) by {
      if c :| c in I && c.key.user == n.key.user && c.key.seqno > n.key.seqno && c.key.seqno <= snap {
        assert c in I + O && Visible(c, k, s);
      }
    }
    assert Obsolete(v, level, snap, n);
    if p :| Newest(S + O, k, s, p) && p.key.kind.TypeValue? {
      OnlyOutsiderLeft(I, O, snap, v, level, k, s, n, p);
    }
  }

  lemma OnlyOutsiderLeft(I: set<Entry>, O: set<Entry>, snap: nat, v: Version, level: nat, k: UserKey, s: nat, n: Entry, p: Entry)
    requires |v.levels| == NUM_LEVELS && Unique(I + O) && s >= snap
    requires Newest(I + O, k, s, n) && n in I && Obsolete(v, level, snap, n) && !Covered(I, n, snap)
    requires Newest(Survivors(I, snap, v, level) + O, k, s, p) && p.key.kind.TypeValue?
    ensures Resurrects(I, O, snap, v, level, n, p) && p in O
  {
    var S := Survivors(I, snap, v, level);
    assert p in I + O && p.key.seqno <= n.key.seqno && p != n;
    assert p.key.seqno < n.key.seqno;
    assert p !in S;
    forall o | o in O && Visible(o, k, snap) ensures o.key.seqno <= p.key.seqno {
      assert o in S + O && Visible(o, k, s);
    }
    assert Newest(O, k, snap, p);
  }

  lemma ResurrectionChangesRead(I: set<Entry>, O: set<Entry>, snap: nat, v: Version, level: nat, d: Entry, p: Entry)
    requires |v.levels| == NUM_LEVELS && Unique(I + O) && Resurrects(I, O, snap, v, level, d, p)
    ensures ReadAt(I + O, d.key.user, snap) == None
    ensures ReadAt(Survivors(I, snap, v, level) + O, d.key.user, snap) == Some(p.value)
  {
    var k, S := d.key.user, Survivors(I, snap, v, level);
    forall o | o in I + O && Visible(o, k, snap) ensures o.key.seqno <= d.key.seqno {
      if o in O { assert Visible(o, k, snap); }
    }
    assert Newest(I + O, k, snap, d);
    ReadOfNewest(I + O, k, snap, d);
    forall o | o in S + O && Visible(o, k, snap) ensures o.key.seqno <= p.key.seqno {
      if o in S {
        SurvivorAboveSnapshot(I, snap, v, level, d, o);
      }
    }
    assert Newest(S + O, k, snap, p);
    ReadOfNewest(S + O, k, snap, p);
  }

  lemma SurvivorAboveSnapshot(I: set<Entry>, snap: nat, v: Version, level: nat, d: Entry, o: Entry)
    requires |v.levels| == NUM_LEVELS && Unique(I)
    requires d in I && Obsolete(v, level, snap, d) && !Covered(I, d, snap)
    requires o in Survivors(I, snap, v, level) && o.key.user == d.key.user
    ensures o.key.seqno > snap
  {
    assert o.key.seqno < d.key.seqno ==> Covered(I, o, snap);
    assert o.key.seqno == d.key.seqno ==> o == d;
    assert o.key.seqno > d.key.seqno && o.key.seqno <= snap ==> Covered(I, d, snap);
  }

  /** Compaction preserves every read at or above the smallest snapshot exactly
      when no dropped tombstone has an older value outside the inputs. */
  lemma ReadsKeptExactlyWithoutResurrection(I: set<Entry>, O: set<Entry>, snap: nat, v: Version, level: nat)
    requires |v.levels| == NUM_LEVELS && Unique(I + O)
    ensures ReadsKept(I, O, snap, v, level) <==> NoResurrection(I, O, snap, v, level)
  {
    if NoResurrection(I, O, snap, v, level) {
      forall k, s | s >= snap ensures ReadAt(Survivors(I, snap, v, level) + O, k, s) == ReadAt(I + O, k, s) {
        ReadKept(I, O, snap, v, level, k, s);
      }
    } else {
      var d, p :| d in I && p in O && Resurrects(I, O, snap, v, level, d, p);
      ResurrectionChangesRead(I, O, snap, v, level, d, p);
    }
  }
}
