/** The database as a running object: writes, snapshots, flushes and
    compactions in any order, against the history of everything written. */
module Database {
  import opened DbFormat
  import opened Versions
  import opened Picking
  import opened VersionBuilder
  import opened CompactionWork
  import opened LsmTree
  import opened LsmSteps
  import opened Snapshots

  /** The entries MemTableInserter adds for a batch whose first sequence number is `first`. */
  function BatchEntries(ops: seq<Op>, first: nat): set<Entry> {
    set i | 0 <= i < |ops| :: OpEntry(ops[i], first + i)
  }

  // ----- What a client sees: a map from keys to values -----

  /** A batch applied to the client's map. */
  function Applied(m: map<UserKey, Value>, ops: seq<Op>): map<UserKey, Value> {
    if ops == [] then m
    else
      var before := Applied(m, ops[..|ops| - 1]);
      match ops[|ops| - 1]
      case PutOp(k, value) => before[k := value]
      case DeleteOp(k) => before - {k}
  }

  function Lookup(m: map<UserKey, Value>, k: UserKey): Option<Value> {
    if k in m then Some(m[k]) else None
  }

  /** The entries read at `s` as the map. */
  ghost predicate Shows(H: set<Entry>, s: nat, m: map<UserKey, Value>) {
    forall k :: ReadAt(H, k, s) == Lookup(m, k)
  }

  lemma OneWriteShows(H: set<Entry>, last: nat, m: map<UserKey, Value>, op: Op, next: nat)
    requires Unique(H) && Shows(H, last, m) && last < next && Dated(H, last)
    ensures Unique(H + {OpEntry(op, next)}) && Dated(H + {OpEntry(op, next)}, next)
    ensures Shows(H + {OpEntry(op, next)}, next, match op case PutOp(k, value) => m[k := value] case DeleteOp(k) => m - {k})
  {
    var e := OpEntry(op, next);
    forall k ensures ReadAt(H + {e}, k, next) == if k == op.key then Outcome(e) else ReadAt(H, k, last) {
      if k == op.key {
        assert Newest(H + {e}, k, next, e);
        ReadOfNewest(H + {e}, k, next, e);
      } else {
        assert forall o :: Newest(H + {e}, k, next, o) <==> Newest(H, k, last, o);
      }
    }
  }

  /** After a batch, every key reads as the batch makes it, or as before. */
  lemma {:induction false} BatchShows(H: set<Entry>, last: nat, m: map<UserKey, Value>, ops: seq<Op>)
    requires Unique(H) && Shows(H, last, m) && Dated(H, last)
    ensures var N := BatchEntries(ops, last + 1);
      Unique(H + N) && Shows(H + N, last + |ops|, Applied(m, ops)) && Dated(H + N, last + |ops|)
  {
    hide *;
    if ops == [] {
      NoEntries(last + 1);
      AppliedNothing(m);
      assert H + {} == H;
    } else {
      var n := |ops| - 1;
      BatchShows(H, last, m, ops[..n]);
      MoreEntries(ops, last + 1);
      var before, e := BatchEntries(ops[..n], last + 1), OpEntry(ops[n], last + 1 + n);
      assert (H + before) + {e} == H + BatchEntries(ops, last + 1);
      OneWriteShows(H + before, last + n, Applied(m, ops[..n]), ops[n], last + 1 + n);
      AppliedNext(m, ops);
    }
  }

  lemma NoEntries(first: nat)
    ensures BatchEntries([], first) == {}
  {
  }

  lemma AppliedNothing(m: map<UserKey, Value>)
    ensures Applied(m, []) == m
  {
  }

  lemma AppliedNext(m: map<UserKey, Value>, ops: seq<Op>)
    requires ops != []
    ensures var before := Applied(m, ops[..|ops| - 1]);
      Applied(m, ops) == match ops[|ops| - 1] case PutOp(k, value) => before[k := value] case DeleteOp(k) => before - {k}
  {
  }

  lemma MoreEntries(ops: seq<Op>, first: nat)
    requires ops != []
    ensures BatchEntries(ops, first) == BatchEntries(ops[..|ops| - 1], first) + {OpEntry(ops[|ops| - 1], first + |ops| - 1)}
  {
    var n := |ops| - 1;
    assert forall i | 0 <= i < n :: ops[..n][i] == ops[i];
  }

  /** Newer entries do not change what an older snapshot shows. */
  lemma OlderShows(H: set<Entry>, N: set<Entry>, s: nat, m: map<UserKey, Value>)
    requires Unique(H + N) && Shows(H, s, m) && forall e | e in N :: e.key.seqno > s
    ensures Shows(H + N, s, m)
  {
    forall k ensures ReadAt(H + N, k, s) == ReadAt(H, k, s) {
      SameNewestSameRead(H + N, H, k, s);
    }
  }

  lemma EntriesAfter(ops: seq<Op>, first: nat)
    ensures forall e | e in BatchEntries(ops, first) :: first <= e.key.seqno < first + |ops|
  {
  }

  lemma NothingShows(s: nat)
    ensures Shows({}, s, map[])
  {
  }

  ghost predicate Ascend(s: seq<nat>) {
    forall i, j | 0 <= i < j < |s| :: s[i] <= s[j]
  }

  function MemGet(mem: seq<Entry>, k: UserKey, s: nat): Saver {
    var i := SeekIndex(mem, LookupKey(k, s));
    if i < |mem| && mem[i].key.user == k then Hit(mem[i]) else NotFound
  }

  lemma MemGetCorrect(mem: seq<Entry>, k: UserKey, s: nat)
    requires SortedEntries(mem)
    ensures match MemGet(mem, k, s)
      case Hit(e) => Newest(Contents(mem), k, s, e)
      case NotFound => Misses(Contents(mem), k, s)
  {
    if |mem| > 0 {
      TableGetCorrect(FinishFile(0, 0, mem), k, s);
    }
  }

  lemma NewerUnion(A: set<Entry>, B: set<Entry>, C: set<Entry>)
    requires Newer(A, B) && Newer(A, C)
    ensures Newer(A, B + C)
  {
  }

  /** Replacing the older part by one that reads alike from `snap` on changes no read from `snap` on. */
  lemma SameReadsUnder(A: set<Entry>, B: set<Entry>, C: set<Entry>, k: UserKey, s: nat)
    requires Newer(A, B) && Newer(A, C) && Unique(A + B) && Unique(A + C)
    requires ReadAt(B, k, s) == ReadAt(C, k, s)
    ensures ReadAt(A + B, k, s) == ReadAt(A + C, k, s)
  {
    ReadThrough(A, B, k, s);
    ReadThrough(A, C, k, s);
    if a :| a in A && Visible(a, k, s) {
      var n := NewestExists(A, k, s, a);
    }
  }

  function InsertBatch(mem: seq<Entry>, ops: seq<Op>, first: nat): seq<Entry> {
    if ops == [] then mem
    else InsertEntry(OpEntry(ops[|ops| - 1], first + |ops| - 1), InsertBatch(mem, ops[..|ops| - 1], first))
  }

  lemma {:induction false} InsertBatchMembers(mem: seq<Entry>, ops: seq<Op>, first: nat)
    requires SortedEntries(mem) && forall e | e in mem :: e.key.seqno < first
    ensures SortedEntries(InsertBatch(mem, ops, first))
    ensures Contents(InsertBatch(mem, ops, first)) == Contents(mem) + BatchEntries(ops, first)
  {
    if ops != [] {
      var n := |ops| - 1;
      InsertBatchMembers(mem, ops[..n], first);
      var before := InsertBatch(mem, ops[..n], first);
      assert BatchEntries(ops, first) == BatchEntries(ops[..n], first) + {OpEntry(ops[n], first + n)};
      assert forall e | e in before :: e in Contents(before);
      InsertEntryMembers(OpEntry(ops[n], first + n), before);
    }
  }

  lemma NothingInserted(mem: seq<Entry>, first: nat)
    ensures InsertBatch(mem, [], first) == mem
  {
  }

  lemma InsertBatchNext(mem: seq<Entry>, ops: seq<Op>, i: nat, first: nat)
    requires i < |ops|
    ensures InsertBatch(mem, ops[..i + 1], first) == InsertEntry(OpEntry(ops[i], first + i), InsertBatch(mem, ops[..i], first))
  {
    assert ops[..i + 1][..i] == ops[..i];
  }

  lemma NewBatch(ops: seq<Op>, first: nat, H: set<Entry>, S: set<Entry>)
    requires Unique(H) && S <= H && forall e | e in H :: e.key.seqno < first
    ensures var N := BatchEntries(ops, first);
      && Newer(N, H) && Newer(N, S) && Unique(N + H) && Unique(N + S)
      && forall e | e in N :: first <= e.key.seqno < first + |ops|
  {
  }

  lemma ReplacedNumbers(v: Version, level: nat, in0: seq<File>, in1: seq<File>, outs: seq<File>, r: Version, next: nat)
    requires |v.levels| == NUM_LEVELS && Replaced(v, level, in0, in1, outs, r)
    requires NumbersBelow(v, next) && forall o | o in outs :: o.number < next
    ensures NumbersBelow(r, next)
  {
    forall l, f | 0 <= l < NUM_LEVELS && f in r.levels[l] ensures f.number < next {
      ReplacedStays(v, level, in0, in1, outs, r, l);
    }
  }

  lemma CompactedSubset(v: Version, level: nat, in0: seq<File>, in1: seq<File>, snap: nat, r: Version)
    requires WellFormed(v) && level + 1 < NUM_LEVELS && GoodInputs(v, level, in0, in1)
    requires VersionEntries(r) == Survivors(InputEntries(in0, in1), snap, v, level) + OtherEntries(v, level, in0, in1)
    ensures VersionEntries(r) <= VersionEntries(v)
  {
    NextInputsAreNextFiles(v, level, in0, in1);
    VersionSplits(v, level, in0, in1);
    SurvivorsAreInputs(InputEntries(in0, in1), snap, v, level);
  }

  /** Installing a version with fewer entries and the same reads from `snap` on
      changes no read of the whole database from `snap` on. */
  lemma InstallKeepsFaith(M: set<Entry>, I: set<Entry>, v: Version, r: Version, H: set<Entry>, snap: nat)
    requires Newer(M, VersionEntries(v)) && Newer(I, VersionEntries(v))
    requires Unique(M + (I + VersionEntries(v)))
    requires VersionEntries(r) <= VersionEntries(v) && SameReadsFrom(snap, v, r)
    ensures Newer(M, VersionEntries(r)) && Newer(I, VersionEntries(r))
    ensures Unique(M + (I + VersionEntries(r)))
    ensures forall k, s | s >= snap ::
      ReadAt(M + (I + VersionEntries(r)), k, s) == ReadAt(M + (I + VersionEntries(v)), k, s)
  {
    var A, B, C := M + I, VersionEntries(v), VersionEntries(r);
    assert M + (I + B) == A + B && M + (I + C) == A + C;
    UniqueSubset(A + C, A + B);
    forall k, s | s >= snap ensures ReadAt(A + C, k, s) == ReadAt(A + B, k, s) {
      SameReadsUnder(A, B, C, k, s);
    }
  }

  // ----- The state as a value, and its invariant -----

  datatype State = State(mem: seq<Entry>, imm: Option<seq<Entry>>, current: Version,
                         lastSequence: nat, nextFile: nat, snapshots: seq<nat>)

  ghost function ImmEntries(imm: Option<seq<Entry>>): set<Entry> {
    if imm.Some? then Contents(imm.value) else {}
  }

  /** Every entry the database still holds. */
  ghost function Stored(st: State): set<Entry> {
    Contents(st.mem) + (ImmEntries(st.imm) + VersionEntries(st.current))
  }

  /** compact->smallest_snapshot. */
  function SmallestSnapshot(lastSequence: nat, snapshots: seq<nat>): nat {
    if |snapshots| == 0 then lastSequence else snapshots[0]
  }

  ghost predicate Sorted(st: State) {
    SortedEntries(st.mem) && (st.imm.Some? ==> SortedEntries(st.imm.value))
  }

  /** Memtable over immutable memtable over version, newer to older. */
  ghost predicate Layers(M: set<Entry>, I: set<Entry>, V: set<Entry>) {
    Newer(M, I) && Newer(M, V) && Newer(I, V) && Unique(M + (I + V))
  }

  ghost predicate SameReads(A: set<Entry>, B: set<Entry>, snap: nat) {
    forall k, s | s >= snap :: ReadAt(A, k, s) == ReadAt(B, k, s)
  }

  ghost predicate Dated(E: set<Entry>, last: nat) {
    forall e | e in E :: e.key.seqno <= last
  }

  ghost predicate LiveSnapshots(snapshots: seq<nat>, last: nat) {
    Ascend(snapshots) && forall s | s in snapshots :: s <= last
  }

  /** The invariant of every run: `H` is everything ever written. */
  ghost predicate Inv(st: State, H: set<Entry>) {
    && WellFormed(st.current) && NumbersBelow(st.current, st.nextFile)
    && Sorted(st)
    && Layers(Contents(st.mem), ImmEntries(st.imm), VersionEntries(st.current))
    && Stored(st) <= H && Unique(H) && Dated(H, st.lastSequence)
    && st.lastSequence < MAX_SEQUENCE
    && LiveSnapshots(st.snapshots, st.lastSequence)
    && SameReads(Stored(st), H, SmallestSnapshot(st.lastSequence, st.snapshots))
  }

  lemma LayersAfterWrite(N: set<Entry>, M: set<Entry>, I: set<Entry>, V: set<Entry>, H: set<Entry>)
    requires Layers(M, I, V) && M + (I + V) <= H && Newer(N, H) && Unique(N + H)
    ensures Layers(M + N, I, V)
  {
    UniqueSubset((M + N) + (I + V), N + H);
  }

  lemma ReadsAfterWrite(N: set<Entry>, S: set<Entry>, H: set<Entry>, snap: nat)
    requires S <= H && Newer(N, H) && Unique(N + H) && SameReads(S, H, snap)
    ensures SameReads(N + S, N + H, snap)
  {
    UniqueSubset(N + S, N + H);
    assert Newer(N, S);
    forall k, s | s >= snap ensures ReadAt(N + S, k, s) == ReadAt(N + H, k, s) {
      SameReadsUnder(N, S, H, k, s);
    }
  }

  lemma SnapshotFloor(snapshots: seq<nat>, last: nat, s: nat)
    requires LiveSnapshots(snapshots, last) && (s in snapshots || s >= last)
    ensures s >= SmallestSnapshot(last, snapshots)
  {
    assert |snapshots| > 0 ==> snapshots[0] in snapshots;
    if s in snapshots {
      var i :| 0 <= i < |snapshots| && snapshots[i] == s;
      assert i > 0 ==> snapshots[0] <= snapshots[i];
    }
  }

  lemma MemAfterWrite(st: State, H: set<Entry>, ops: seq<Op>)
    requires Inv(st, H)
    ensures var first := st.lastSequence + 1; var N := BatchEntries(ops, first); var mem' := InsertBatch(st.mem, ops, first);
      && SortedEntries(mem') && Contents(mem') == Contents(st.mem) + N
      && Newer(N, H) && Unique(N + H) && Dated(N + H, st.lastSequence + |ops|)
  {
    var first := st.lastSequence + 1;
    assert forall e | e in st.mem :: e in Contents(st.mem);
    assert Contents(st.mem) <= Stored(st);
    InsertBatchMembers(st.mem, ops, first);
    NewBatch(ops, first, H, Stored(st));
  }

  lemma WriteStep(st: State, H: set<Entry>, ops: seq<Op>, st': State)
    requires Inv(st, H) && st.lastSequence + |ops| < MAX_SEQUENCE
    requires st' == st.(mem := InsertBatch(st.mem, ops, st.lastSequence + 1), lastSequence := st.lastSequence + |ops|)
    ensures Inv(st', H + BatchEntries(ops, st.lastSequence + 1))
  {
    var N := BatchEntries(ops, st.lastSequence + 1);
    var snap, snap' := SmallestSnapshot(st.lastSequence, st.snapshots), SmallestSnapshot(st'.lastSequence, st'.snapshots);
    MemAfterWrite(st, H, ops);
    LiveLater(st.snapshots, st.lastSequence, st'.lastSequence);
    hide WellFormed, NumbersBelow, Layers, SameReads, InsertBatch, VersionEntries, BatchEntries, Newer, Unique,
      SortedEntries, Contents, Dated, ImmEntries, LiveSnapshots, SmallestSnapshot;
    LayersAfterWrite(N, Contents(st.mem), ImmEntries(st.imm), VersionEntries(st.current), H);
    ReadsAfterWrite(N, Stored(st), H, snap);
    WrittenStored(Contents(st.mem), ImmEntries(st.imm), VersionEntries(st.current), N, H);
    hide Stored;
    SameReadsLater(Stored(st'), H + N, snap, snap');
  }

  lemma LiveLater(snapshots: seq<nat>, last: nat, later: nat)
    requires LiveSnapshots(snapshots, last) && last <= later
    ensures LiveSnapshots(snapshots, later)
    ensures SmallestSnapshot(last, snapshots) <= SmallestSnapshot(later, snapshots)
  {
  }

  lemma WrittenStored(M: set<Entry>, I: set<Entry>, V: set<Entry>, N: set<Entry>, H: set<Entry>)
    requires M + (I + V) <= H
    ensures (M + N) + (I + V) == N + (M + (I + V)) && H + N == N + H && (M + N) + (I + V) <= H + N
  {
  }

  lemma SameReadsLater(A: set<Entry>, B: set<Entry>, snap: nat, later: nat)
    requires SameReads(A, B, snap) && snap <= later
    ensures SameReads(A, B, later)
  {
  }

  lemma NoEntriesSorted()
    ensures SortedEntries([])
  {
  }

  lemma NothingOnTop(M: set<Entry>, V: set<Entry>)
    requires Layers(M, {}, V)
    ensures Layers({}, M, V) && M + ({} + V) == {} + (M + V)
  {
    assert M + ({} + V) == {} + (M + V);
  }

  lemma SwitchStep(st: State, H: set<Entry>)
    requires Inv(st, H) && st.imm == None
    ensures Inv(st.(mem := [], imm := Some(st.mem)), H)
  {
    var st' := st.(mem := [], imm := Some(st.mem));
    hide WellFormed, NumbersBelow, SameReads, VersionEntries, SortedEntries;
    NothingOnTop(Contents(st.mem), VersionEntries(st.current));
    assert Contents([]) == {};
    assert SortedEntries([]) by { NoEntriesSorted(); }
    hide Layers, Contents;
    assert Stored(st') == Stored(st);
  }

  lemma SnapshotStep(st: State, H: set<Entry>)
    requires Inv(st, H)
    ensures Inv(st.(snapshots := st.snapshots + [st.lastSequence]), H)
  {
    var more := st.snapshots + [st.lastSequence];
    assert SmallestSnapshot(st.lastSequence, more) == SmallestSnapshot(st.lastSequence, st.snapshots);
    assert Stored(st.(snapshots := more)) == Stored(st);
    assert forall s | s in st.snapshots :: s <= st.lastSequence;
    assert forall i | 0 <= i < |st.snapshots| :: st.snapshots[i] in st.snapshots;
    hide WellFormed, NumbersBelow, Layers, SameReads, Stored;
  }

  lemma ReleaseStep(st: State, H: set<Entry>, i: nat)
    requires Inv(st, H) && i < |st.snapshots|
    ensures Inv(st.(snapshots := st.snapshots[..i] + st.snapshots[i + 1..]), H)
  {
    var fewer := st.snapshots[..i] + st.snapshots[i + 1..];
    var snap, later := SmallestSnapshot(st.lastSequence, st.snapshots), SmallestSnapshot(st.lastSequence, fewer);
    assert forall s | s in fewer :: s in st.snapshots;
    assert |fewer| > 0 ==> fewer[0] in fewer;
    SnapshotFloor(st.snapshots, st.lastSequence, later);
    SameReadsLater(Stored(st), H, snap, later);
    assert Stored(st.(snapshots := fewer)) == Stored(st);
    assert Ascend(fewer);
    hide WellFormed, NumbersBelow, Layers, SameReads, Stored;
  }

  lemma FlushStep(st: State, H: set<Entry>, r: Version)
    requires Inv(st, H) && st.imm.Some?
    requires WellFormed(r) && NumbersBelow(r, st.nextFile + 1)
    requires VersionEntries(r) == ImmEntries(st.imm) + VersionEntries(st.current)
    ensures Inv(st.(imm := None, current := r, nextFile := st.nextFile + 1), H)
  {
    var st' := st.(imm := None, current := r, nextFile := st.nextFile + 1);
    var M, I, V := Contents(st.mem), ImmEntries(st.imm), VersionEntries(st.current);
    assert Stored(st') == M + ({} + (I + V));
    assert {} + (I + V) == I + V;
    NewerUnion(M, I, V);
    hide WellFormed, NumbersBelow, SameReads, VersionEntries, Stored;
  }

  lemma InstallStep(st: State, H: set<Entry>, r: Version, next: nat)
    requires Inv(st, H) && WellFormed(r) && NumbersBelow(r, next)
    requires VersionEntries(r) <= VersionEntries(st.current)
    requires SameReadsFrom(SmallestSnapshot(st.lastSequence, st.snapshots), st.current, r)
    ensures Inv(st.(current := r, nextFile := next), H)
  {
    var st' := st.(current := r, nextFile := next);
    var snap := SmallestSnapshot(st.lastSequence, st.snapshots);
    InstallKeepsFaith(Contents(st.mem), ImmEntries(st.imm), st.current, r, H, snap);
    assert SameReads(Stored(st'), Stored(st), snap);
    hide WellFormed, NumbersBelow, VersionEntries, Newer, Unique;
    assert SameReads(Stored(st'), H, snap);
  }

  // ----- Steps and runs -----

  datatype Event =
    | Wrote(ops: seq<Op>)
    | Switched
    | TookSnapshot
    | Released(i: nat)
    | Flushed(size: nat, grandparentLimit: nat)
    | Moved(level: nat, file: File)
    | Compacted(level: nat, in0: seq<File>, in1: seq<File>, outs: seq<File>)

  function Floor(st: State): nat {
    SmallestSnapshot(st.lastSequence, st.snapshots)
  }

  ghost predicate Writes(st: State, ops: seq<Op>, st': State) {
    && st.lastSequence + |ops| < MAX_SEQUENCE
    && st' == st.(mem := InsertBatch(st.mem, ops, st.lastSequence + 1), lastSequence := st.lastSequence + |ops|)
  }

  ghost predicate Switches(st: State, st': State) {
    st.imm == None && st' == st.(mem := [], imm := Some(st.mem))
  }

  ghost predicate TakesSnapshot(st: State, st': State) {
    st' == st.(snapshots := st.snapshots + [st.lastSequence])
  }

  ghost predicate Releases(st: State, i: nat, st': State) {
    i < |st.snapshots| && st' == st.(snapshots := st.snapshots[..i] + st.snapshots[i + 1..])
  }

  ghost predicate Flushes(st: State, size: nat, grandparentLimit: nat, st': State) {
    && st.imm.Some? && |st.current.levels| == NUM_LEVELS
    && FlushesTo(st.current, st.imm.value, st.nextFile, size, grandparentLimit, st'.current)
    && st' == st.(imm := None, current := st'.current, nextFile := st.nextFile + 1)
  }

  ghost predicate Moves(st: State, level: nat, f: File, st': State) {
    && |st.current.levels| == NUM_LEVELS && level + 1 < NUM_LEVELS && GoodInputs(st.current, level, [f], [])
    && st' == st.(current := ApplyEdit(st.current, CompactionEdit(level, [f], [], [f])))
  }

  ghost predicate Compacts(st: State, level: nat, in0: seq<File>, in1: seq<File>, outs: seq<File>, st': State) {
    && |st.current.levels| == NUM_LEVELS && level + 1 < NUM_LEVELS && GoodInputs(st.current, level, in0, in1)
    && CompactsTo(st.current, level, in0, in1, Floor(st), st.nextFile, outs, st'.current)
    && st' == st.(current := st'.current, nextFile := st.nextFile + |outs|)
  }

  /** One step of the database, as the methods of `DB` take it. */
  ghost predicate Step(st: State, a: Event, st': State) {
    match a
    case Wrote(ops) => Writes(st, ops, st')
    case Switched => Switches(st, st')
    case TookSnapshot => TakesSnapshot(st, st')
    case Released(i) => Releases(st, i, st')
    case Flushed(size, grandparentLimit) => Flushes(st, size, grandparentLimit, st')
    case Moved(level, f) => Moves(st, level, f, st')
    case Compacted(level, in0, in1, outs) => Compacts(st, level, in0, in1, outs, st')
  }

  /** What was ever written, after one more step. */
  ghost function Recorded(H: set<Entry>, st: State, a: Event): set<Entry> {
    if a.Wrote? then H + BatchEntries(a.ops, st.lastSequence + 1) else H
  }

  ghost predicate Safe(st: State, a: Event) {
    a.Compacted? ==> |st.current.levels| == NUM_LEVELS && ClosedToTombstones(st.current, a.level, a.in0, a.in1, Floor(st))
  }

  lemma StepKeeps(st: State, a: Event, st': State, H: set<Entry>)
    requires Inv(st, H) && Step(st, a, st') && Safe(st, a)
    ensures Inv(st', Recorded(H, st, a))
  {
    hide Inv, Writes, Switches, TakesSnapshot, Releases, Flushes, Moves, Compacts, ClosedToTombstones, BatchEntries;
    match a {
      case Wrote(ops) => WriteKeeps(st, H, ops, st');
      case Switched => SwitchKeeps(st, H, st');
      case TookSnapshot => SnapshotKeeps(st, H, st');
      case Released(i) => ReleaseKeeps(st, H, i, st');
      case Flushed(size, grandparentLimit) => FlushKeeps(st, H, size, grandparentLimit, st');
      case Moved(level, f) => MoveKeeps(st, H, level, f, st');
      case Compacted(level, in0, in1, outs) => CompactKeeps(st, H, level, in0, in1, outs, st');
    }
  }

  lemma WriteKeeps(st: State, H: set<Entry>, ops: seq<Op>, st': State)
    requires Inv(st, H) && Writes(st, ops, st')
    ensures Inv(st', H + BatchEntries(ops, st.lastSequence + 1))
  {
    hide Inv, InsertBatch, BatchEntries;
    WriteStep(st, H, ops, st');
  }

  lemma SwitchKeeps(st: State, H: set<Entry>, st': State)
    requires Inv(st, H) && Switches(st, st')
    ensures Inv(st', H)
  {
    hide Inv;
    SwitchStep(st, H);
  }

  lemma SnapshotKeeps(st: State, H: set<Entry>, st': State)
    requires Inv(st, H) && TakesSnapshot(st, st')
    ensures Inv(st', H)
  {
    hide Inv;
    SnapshotStep(st, H);
  }

  lemma ReleaseKeeps(st: State, H: set<Entry>, i: nat, st': State)
    requires Inv(st, H) && Releases(st, i, st')
    ensures Inv(st', H)
  {
    hide Inv;
    ReleaseStep(st, H, i);
  }

  lemma FlushKeeps(st: State, H: set<Entry>, size: nat, grandparentLimit: nat, st': State)
    requires Inv(st, H) && Flushes(st, size, grandparentLimit, st')
    ensures Inv(st', H)
  {
    assert st' == st.(imm := None, current := st'.current, nextFile := st.nextFile + 1);
    assert st.imm.Some? && |st.current.levels| == NUM_LEVELS;
    assert FlushesTo(st.current, st.imm.value, st.nextFile, size, grandparentLimit, st'.current);
    hide *;
    FlushAllowed(st, H);
    FlushIsWellFormed(st.current, st.imm.value, st.nextFile, size, grandparentLimit, st'.current);
    ImmIs(st);
    FlushStep(st, H, st'.current);
  }

  lemma ImmIs(st: State)
    requires st.imm.Some?
    ensures ImmEntries(st.imm) == Contents(st.imm.value)
  {
  }

  lemma MoveKeeps(st: State, H: set<Entry>, level: nat, f: File, st': State)
    requires Inv(st, H) && Moves(st, level, f, st')
    ensures Inv(st', H)
  {
    var r := ApplyEdit(st.current, CompactionEdit(level, [f], [], [f]));
    assert st' == st.(current := r) && |st.current.levels| == NUM_LEVELS && level + 1 < NUM_LEVELS;
    assert GoodInputs(st.current, level, [f], []);
    hide *;
    InvParts(st, H);
    LoneInput(st.current, level, f);
    MovedNumbers(st.current, level, f);
    NothingElse(st.current, level, f);
    EditReplaces(st.current, level, [f], [], [f]);
    MoveKeepsEntries(st.current, level, f, r);
    MoveStep(st, H, level, f, r);
  }

  lemma NothingElse(v: Version, level: nat, f: File)
    requires |v.levels| == NUM_LEVELS && level + 1 < NUM_LEVELS && f in v.levels[level]
    ensures (forall g | g in [f] :: g in v.levels[level]) && forall g | g in [] :: g in v.levels[level + 1]
  {
  }

  lemma CompactKeeps(st: State, H: set<Entry>, level: nat, in0: seq<File>, in1: seq<File>, outs: seq<File>, st': State)
    requires Inv(st, H) && Compacts(st, level, in0, in1, outs, st')
    requires ClosedToTombstones(st.current, level, in0, in1, Floor(st))
    ensures Inv(st', H)
  {
    var v, input, r := st.current, SortEntries(Flatten(in0) + Flatten(in1)), st'.current;
    assert |v.levels| == NUM_LEVELS && level + 1 < NUM_LEVELS && GoodInputs(v, level, in0, in1);
    assert OutputsOf(outs, [], st.nextFile, Kept(v, level, Floor(st), input, |input|));
    assert r == ApplyEdit(v, CompactionEdit(level, in0, in1, outs)) && Numbered(outs, st.nextFile);
    assert st' == st.(current := r, nextFile := st.nextFile + |outs|);
    hide *;
    InvParts(st, H);
    FloorIs(st);
    InputIsSortedUnion(v, level, in0, in1, input);
    CompactedVersion(v, level, in0, in1, input, Floor(st), outs, st.nextFile);
    ReadsOfCompacted(v, level, in0, in1, Floor(st), r);
    CompactStep(st, H, level, in0, in1, outs, r);
  }

  lemma FlushIsStep(st: State, size: nat, grandparentLimit: nat, r: Version)
    requires st.imm.Some? && |st.current.levels| == NUM_LEVELS
    requires FlushesTo(st.current, st.imm.value, st.nextFile, size, grandparentLimit, r)
    ensures Step(st, Flushed(size, grandparentLimit), st.(imm := None, current := r, nextFile := st.nextFile + 1))
  {
    hide FlushesTo;
  }

  lemma MoveIsStep(st: State, level: nat, f: File, r: Version)
    requires |st.current.levels| == NUM_LEVELS && level + 1 < NUM_LEVELS && GoodInputs(st.current, level, [f], [])
    requires r == ApplyEdit(st.current, CompactionEdit(level, [f], [], [f]))
    ensures Step(st, Moved(level, f), st.(current := r))
  {
    hide GoodInputs, ApplyEdit, CompactionEdit;
  }

  lemma CompactIsStep(st: State, level: nat, in0: seq<File>, in1: seq<File>, outs: seq<File>, r: Version)
    requires |st.current.levels| == NUM_LEVELS && level + 1 < NUM_LEVELS && GoodInputs(st.current, level, in0, in1)
    requires CompactsTo(st.current, level, in0, in1, SmallestSnapshot(st.lastSequence, st.snapshots), st.nextFile, outs, r)
    ensures Step(st, Compacted(level, in0, in1, outs), st.(current := r, nextFile := st.nextFile + |outs|))
  {
    hide GoodInputs, CompactsTo;
  }

  lemma FloorIs(st: State)
    ensures Floor(st) == SmallestSnapshot(st.lastSequence, st.snapshots)
  {
  }

  const EMPTY_STATE := State([], None, EMPTY_VERSION, 0, 2, [])

  /** Every step of the run is one of the database, from an empty one on. */
  ghost predicate Run(sts: seq<State>, events: seq<Event>) {
    && |sts| == |events| + 1 && sts[0] == EMPTY_STATE
    && forall i | 0 <= i < |events| :: Step(sts[i], events[i], sts[i + 1])
  }

  ghost predicate RunIsSafe(sts: seq<State>, events: seq<Event>)
    requires Run(sts, events)
  {
    forall i | 0 <= i < |events| :: Safe(sts[i], events[i])
  }

  ghost function History(sts: seq<State>, events: seq<Event>, i: nat): set<Entry>
    requires i <= |events| <= |sts|
  {
    if i == 0 then {} else Recorded(History(sts, events, i - 1), sts[i - 1], events[i - 1])
  }

  lemma EmptyIsValid()
    ensures Inv(EMPTY_STATE, {})
  {
    EmptyVersion();
    assert Stored(EMPTY_STATE) == {};
  }

  /** In every run whose compactions take inputs closed to tombstones, every live
      snapshot and the current sequence read as everything written so far. */
  lemma {:induction false} RunReadsHistory(sts: seq<State>, events: seq<Event>, i: nat)
    requires Run(sts, events) && RunIsSafe(sts, events) && i <= |events|
    ensures Inv(sts[i], History(sts, events, i))
    ensures forall k, s | s in sts[i].snapshots || s == sts[i].lastSequence ::
      ReadAt(Stored(sts[i]), k, s) == ReadAt(History(sts, events, i), k, s)
  {
    hide Inv, Step, Safe, Recorded, SmallestSnapshot;
    if i == 0 {
      EmptyIsValid();
    } else {
      RunReadsHistory(sts, events, i - 1);
      assert Step(sts[i - 1], events[i - 1], sts[i]) && Safe(sts[i - 1], events[i - 1]);
      StepKeeps(sts[i - 1], events[i - 1], sts[i], History(sts, events, i - 1));
    }
    var st, H := sts[i], History(sts, events, i);
    LiveReads(st, H);
  }

  /** The client's map after the first i events. */
  ghost function MapAfter(events: seq<Event>, i: nat): map<UserKey, Value>
    requires i <= |events|
  {
    if i == 0 then map[]
    else if events[i - 1].Wrote? then Applied(MapAfter(events, i - 1), events[i - 1].ops)
    else MapAfter(events, i - 1)
  }

  lemma StepIs(st: State, a: Event, st': State)
    requires Step(st, a, st')
    ensures st'.lastSequence == st.lastSequence + if a.Wrote? then |a.ops| else 0
    ensures a.Wrote? ==> st.lastSequence + |a.ops| < MAX_SEQUENCE
  {
    hide GoodInputs, CompactsTo, FlushesTo, InsertBatch;
  }

  lemma RecordedIs(H: set<Entry>, st: State, a: Event)
    ensures Recorded(H, st, a) == if a.Wrote? then H + BatchEntries(a.ops, st.lastSequence + 1) else H
  {
  }

  lemma StepShows(st: State, a: Event, st': State, H: set<Entry>, m: map<UserKey, Value>)
    requires Inv(st, H) && Step(st, a, st') && Shows(H, st.lastSequence, m)
    ensures st.lastSequence <= st'.lastSequence
    ensures Shows(Recorded(H, st, a), st'.lastSequence, if a.Wrote? then Applied(m, a.ops) else m)
  {
    hide *;
    HistoryIs(st, H);
    StepIs(st, a, st');
    RecordedIs(H, st, a);
    if a.Wrote? {
      BatchShows(H, st.lastSequence, m, a.ops);
    }
  }

  lemma StepShowsOlder(st: State, a: Event, st': State, H: set<Entry>, s: nat, m: map<UserKey, Value>)
    requires Inv(st, H) && Step(st, a, st') && Shows(H, s, m) && s <= st.lastSequence
    ensures Shows(Recorded(H, st, a), s, m)
  {
    hide *;
    StepIs(st, a, st');
    RecordedIs(H, st, a);
    if a.Wrote? {
      StillShows(st, H, a.ops, s, m);
    }
  }

  lemma HistoryOfWrite(st: State, H: set<Entry>, ops: seq<Op>)
    requires Inv(st, H)
    ensures Unique(H + BatchEntries(ops, st.lastSequence + 1))
  {
    hide *;
    HistoryIs(st, H);
    WrittenIsNew(H, ops, st.lastSequence);
  }

  lemma WrittenIsNew(H: set<Entry>, ops: seq<Op>, last: nat)
    requires Unique(H) && Dated(H, last)
    ensures Unique(H + BatchEntries(ops, last + 1))
  {
    EntriesAfter(ops, last + 1);
  }

  /** The history, read as it was after event j, is the client's map after event j. */
  lemma {:induction false} HistoryShows(sts: seq<State>, events: seq<Event>, i: nat, j: nat)
    requires Run(sts, events) && RunIsSafe(sts, events) && j <= i <= |events|
    ensures sts[j].lastSequence <= sts[i].lastSequence
    ensures Shows(History(sts, events, i), sts[j].lastSequence, MapAfter(events, j))
    decreases i
  {
    hide Inv, Step, Safe, Recorded, Shows, Applied;
    if i == 0 {
      NothingShows(0);
    } else {
      RunReadsHistory(sts, events, i - 1);
      assert Step(sts[i - 1], events[i - 1], sts[i]) && Safe(sts[i - 1], events[i - 1]);
      HistoryShows(sts, events, i - 1, if j < i then j else i - 1);
      StepShows(sts[i - 1], events[i - 1], sts[i], History(sts, events, i - 1), MapAfter(events, i - 1)) by {
        HistoryShows(sts, events, i - 1, i - 1);
      }
      if j < i {
        StepShowsOlder(sts[i - 1], events[i - 1], sts[i], History(sts, events, i - 1), sts[j].lastSequence, MapAfter(events, j));
      }
    }
  }

  /** A run of the database is a run of a map: at the current sequence number
      every key reads as the puts and deletions left it, and at a live snapshot as
      it was at any moment with that sequence number. */
  lemma RunIsMap(sts: seq<State>, events: seq<Event>, i: nat, j: nat, k: UserKey)
    requires Run(sts, events) && RunIsSafe(sts, events) && j <= i <= |events|
    requires sts[j].lastSequence in sts[i].snapshots || sts[j].lastSequence == sts[i].lastSequence
    ensures ReadAt(Stored(sts[i]), k, sts[j].lastSequence) == Lookup(MapAfter(events, j), k)
  {
    assert |sts| == |events| + 1;
    hide *;
    RunReadsHistory(sts, events, i);
    HistoryShows(sts, events, i, j);
    ShowsAt(History(sts, events, i), sts[j].lastSequence, MapAfter(events, j), k);
  }

  lemma ShowsAt(H: set<Entry>, s: nat, m: map<UserKey, Value>, k: UserKey)
    requires Shows(H, s, m)
    ensures ReadAt(H, k, s) == Lookup(m, k)
  {
  }

  lemma LiveReads(st: State, H: set<Entry>)
    requires Inv(st, H)
    ensures forall k, s | s in st.snapshots || s == st.lastSequence :: ReadAt(Stored(st), k, s) == ReadAt(H, k, s)
  {
    hide WellFormed, NumbersBelow, Sorted, Layers, Stored, Unique, Dated, ReadAt;
    forall k, s | s in st.snapshots || s == st.lastSequence ensures ReadAt(Stored(st), k, s) == ReadAt(H, k, s) {
      SnapshotFloor(st.snapshots, st.lastSequence, s);
    }
  }

  // ----- What the client was promised -----

  /** The current map, and the map each live snapshot was taken of. */
  ghost predicate ShowsAll(H: set<Entry>, last: nat, contents: map<UserKey, Value>, live: seq<nat>,
                            pinned: map<nat, map<UserKey, Value>>)
  {
    && Shows(H, last, contents)
    && forall s | s in live :: s in pinned && Shows(H, s, pinned[s])
  }

  lemma RememberedWrite(st: State, H: set<Entry>, contents: map<UserKey, Value>, pinned: map<nat, map<UserKey, Value>>, ops: seq<Op>)
    requires Inv(st, H) && ShowsAll(H, st.lastSequence, contents, st.snapshots, pinned)
    ensures ShowsAll(H + BatchEntries(ops, st.lastSequence + 1), st.lastSequence + |ops|, Applied(contents, ops), st.snapshots, pinned)
  {
    hide *;
    HistoryIs(st, H);
    ShowsNow(H, st.lastSequence, contents, st.snapshots, pinned);
    BatchShows(H, st.lastSequence, contents, ops);
    forall s | s in st.snapshots ensures Shows(H + BatchEntries(ops, st.lastSequence + 1), s, pinned[s]) {
      StillShows(st, H, ops, s, pinned[s]);
    }
    MakeShowsAll(H + BatchEntries(ops, st.lastSequence + 1), st.lastSequence + |ops|, Applied(contents, ops), st.snapshots, pinned);
  }

  lemma StillShows(st: State, H: set<Entry>, ops: seq<Op>, s: nat, m: map<UserKey, Value>)
    requires Inv(st, H) && Shows(H, s, m) && s <= st.lastSequence
    ensures Shows(H + BatchEntries(ops, st.lastSequence + 1), s, m)
  {
    hide *;
    HistoryOfWrite(st, H, ops);
    EntriesAfter(ops, st.lastSequence + 1);
    OlderShows(H, BatchEntries(ops, st.lastSequence + 1), s, m);
  }

  lemma ShowsNow(H: set<Entry>, last: nat, contents: map<UserKey, Value>, live: seq<nat>, pinned: map<nat, map<UserKey, Value>>)
    requires ShowsAll(H, last, contents, live, pinned)
    ensures Shows(H, last, contents) && forall s | s in live :: s in pinned && Shows(H, s, pinned[s])
  {
    hide Shows;
  }

  lemma MakeShowsAll(H: set<Entry>, last: nat, contents: map<UserKey, Value>, live: seq<nat>, pinned: map<nat, map<UserKey, Value>>)
    requires Shows(H, last, contents) && forall s | s in live :: s in pinned && Shows(H, s, pinned[s])
    ensures ShowsAll(H, last, contents, live, pinned)
  {
    hide Shows;
  }

  lemma HistoryIs(st: State, H: set<Entry>)
    requires Inv(st, H)
    ensures Unique(H) && Dated(H, st.lastSequence) && forall s | s in st.snapshots :: s <= st.lastSequence
  {
  }

  lemma RememberedSnapshot(H: set<Entry>, last: nat, contents: map<UserKey, Value>, live: seq<nat>,
                           pinned: map<nat, map<UserKey, Value>>)
    requires ShowsAll(H, last, contents, live, pinned)
    ensures ShowsAll(H, last, contents, live + [last], pinned[last := contents])
  {
    hide Shows;
  }

  lemma RememberedRelease(H: set<Entry>, last: nat, contents: map<UserKey, Value>, live: seq<nat>,
                          pinned: map<nat, map<UserKey, Value>>, i: nat)
    requires ShowsAll(H, last, contents, live, pinned) && i < |live|
    ensures ShowsAll(H, last, contents, live[..i] + live[i + 1..], pinned)
  {
    hide Shows;
    assert forall s | s in live[..i] + live[i + 1..] :: s in live;
  }

  lemma RememberedRead(H: set<Entry>, last: nat, contents: map<UserKey, Value>, live: seq<nat>,
                       pinned: map<nat, map<UserKey, Value>>, k: UserKey, s: nat)
    requires ShowsAll(H, last, contents, live, pinned)
    ensures s == last ==> ReadAt(H, k, s) == Lookup(contents, k)
    ensures s in live ==> s in pinned && ReadAt(H, k, s) == Lookup(pinned[s], k)
  {
  }

  // ----- The object -----

  class DB {
    var mem: seq<Entry>
    var imm: Option<seq<Entry>>
    var current: Version
    var lastSequence: nat
    var nextFile: nat
    const snapshots: SnapshotList
    /** Every entry ever written. */
    ghost var history: set<Entry>
    /** The client's view: a map, and the maps that snapshots were taken of. */
    ghost var contents: map<UserKey, Value>
    ghost var pinned: map<nat, map<UserKey, Value>>

    /** The live snapshots are the numbers in the ring. */
    ghost function View(): State
      reads this, snapshots
    {
      State(mem, imm, current, lastSequence, nextFile, snapshots.Values())
    }

    ghost predicate Valid()
      reads this, snapshots, snapshots.head, snapshots.nodes
    {
      snapshots.Valid() && Inv(View(), history) && Promised()
    }

    ghost predicate Promised()
      reads this, snapshots
    {
      ShowsAll(history, lastSequence, contents, snapshots.Values(), pinned)
    }

    lemma Means()
      ensures View() == State(mem, imm, current, lastSequence, nextFile, snapshots.Values())
      ensures Valid() <==> snapshots.Valid() && Inv(View(), history) && Promised()
      ensures Promised() <==> ShowsAll(history, lastSequence, contents, snapshots.Values(), pinned)
    {
      hide Inv, ShowsAll;
    }

    constructor ()
      ensures Valid() && history == {} && contents == map[] && snapshots.Values() == [] && lastSequence == 0
      ensures fresh(snapshots) && fresh(snapshots.head) && snapshots.nodes == []
    {
      mem, imm := [], None;
      current := EMPTY_VERSION;
      snapshots := new SnapshotList();
      lastSequence, nextFile, history, contents, pinned := 0, 2, {}, map[], map[];
      new;
      NothingShows(0);
      EmptyVersion();
      assert Stored(View()) == {};
    }

    /** DBImpl::Get: memtable, immutable memtable, then the version.  It returns
        what the client's map holds, or what it held when the snapshot was taken,
        and so what the whole write history says. */
    method Get(k: UserKey, s: nat) returns (r: Option<Value>)
      requires Valid()
      requires s in snapshots.Values() || s == lastSequence
      ensures r == ReadAt(history, k, s)
      ensures s == lastSequence ==> r == Lookup(contents, k)
      ensures s in snapshots.Values() ==> s in pinned && r == Lookup(pinned[s], k)
    {
      RememberedRead(history, lastSequence, contents, snapshots.Values(), pinned, k, s);
      hide ShowsAll, Promised;
      SnapshotFloor(snapshots.Values(), lastSequence, s);
      MemGetCorrect(mem, k, s);
      var hit := MemGet(mem, k, s);
      if hit == NotFound {
        if imm.Some? {
          MemGetCorrect(imm.value, k, s);
          hit := MemGet(imm.value, k, s);
        }
        if hit == NotFound {
          hit := VersionGet(current, k, s);
        }
      }
      r := if hit.Hit? then Outcome(hit.entry) else None;
      LayeredRead(Contents(mem), ImmEntries(imm), VersionEntries(current), k, s, hit);
    }

    /** MakeRoomForWrite's switch: the memtable becomes immutable, a new one starts. */
    method SwitchMemTable()
      requires Valid() && imm == None
      modifies this`mem, this`imm
      ensures Valid() && Step(old(View()), Switched, View())
    {
      hide Inv, ShowsAll;
      SwitchStep(View(), history);
      imm := Some(mem);
      mem := [];
    }

    /** Write: the batch gets the next sequence numbers and goes into the memtable. */
    method Write(ops: seq<Op>)
      requires Valid() && lastSequence + |ops| < MAX_SEQUENCE
      modifies this`mem, this`lastSequence, this`history, this`contents
      ensures Valid()
      ensures contents == Applied(old(contents), ops)
      ensures history == old(history) + BatchEntries(ops, old(lastSequence) + 1)
      ensures Step(old(View()), Wrote(ops), View())
    {
      hide Inv, InsertBatch, InsertEntry, BatchEntries, ShowsAll, Applied;
      RememberedWrite(View(), history, contents, pinned, ops);
      ghost var after := View().(mem := InsertBatch(mem, ops, lastSequence + 1), lastSequence := lastSequence + |ops|);
      WriteStep(View(), history, ops, after);
      var sequence := lastSequence + 1;
      NothingInserted(mem, sequence);
      for i := 0 to |ops|
        invariant mem == InsertBatch(old(mem), ops[..i], lastSequence + 1)
        invariant sequence == lastSequence + 1 + i && lastSequence == old(lastSequence)
        invariant history == old(history) && contents == old(contents)
      {
        InsertBatchNext(old(mem), ops, i, lastSequence + 1);
        mem := InsertEntry(OpEntry(ops[i], sequence), mem);
        sequence := sequence + 1;
      }
      assert ops[..|ops|] == ops;
      history, contents := history + BatchEntries(ops, lastSequence + 1), Applied(contents, ops);
      lastSequence := lastSequence + |ops|;
      assert View() == after;
    }

    /** GetSnapshot: pins the current sequence number at the end of the list. */
    method GetSnapshot() returns (snapshot: SnapshotImpl)
      requires Valid()
      modifies this`pinned, snapshots, snapshots.head, snapshots.nodes
      ensures Valid() && snapshot.sequenceNumber == lastSequence && pinned == old(pinned)[lastSequence := contents]
      ensures snapshots.nodes == old(snapshots.nodes) + [snapshot] && fresh(snapshot)
      ensures Step(old(View()), TookSnapshot, View())
    {
      SnapshotStep(View(), history);
      NewestIsPast(View(), history);
      RememberedSnapshot(history, lastSequence, contents, snapshots.Values(), pinned);
      hide Inv, ShowsAll;
      pinned := pinned[lastSequence := contents];
      snapshot := snapshots.New(lastSequence);
    }

    /** ReleaseSnapshot: unlinks one element, wherever it stands. */
    method ReleaseSnapshot(snapshot: SnapshotImpl, ghost i: nat)
      requires Valid() && i < |snapshots.nodes| && snapshots.nodes[i] == snapshot
      modifies snapshots, snapshots.head, snapshots.nodes
      ensures Valid() && snapshots.nodes == old(snapshots.nodes)[..i] + old(snapshots.nodes)[i + 1..]
      ensures Step(old(View()), Released(i), View())
    {
      ReleaseStep(View(), history, i);
      RememberedRelease(history, lastSequence, contents, snapshots.Values(), pinned, i);
      hide Inv, ShowsAll;
      snapshots.Delete(snapshot, i);
    }

    /** The choice of compact->smallest_snapshot in DoCompactionWork: no live
        snapshot is below it. */
    method OldestSnapshot() returns (s: nat)
      requires Valid()
      ensures s == SmallestSnapshot(lastSequence, snapshots.Values())
      ensures s <= lastSequence && forall n | n in snapshots.nodes :: s <= n.sequenceNumber
      ensures if snapshots.nodes == [] then s == lastSequence else exists n :: n in snapshots.nodes && s == n.sequenceNumber
    {
      hide Inv;
      var empty := snapshots.Empty();
      if empty {
        s := lastSequence;
      } else {
        var oldest := snapshots.Oldest();
        s := oldest.sequenceNumber;
        assert s == snapshots.Values()[0];
      }
      FloorIsPast(View(), history);
    }

    /** CompactMemTable: the immutable memtable becomes a table file. */
    method CompactMemTable(size: nat, grandparentLimit: nat)
      requires Valid() && imm.Some?
      modifies this`imm, this`current, this`nextFile
      ensures Valid() && imm == None
      ensures VersionEntries(current) == old(ImmEntries(imm) + VersionEntries(current))
      ensures Step(old(View()), Flushed(size, grandparentLimit), View())
    {
      hide *;
      Means();
      FlushAllowed(View(), history);
      ImmIs(View());
      var r := Flush(current, imm.value, nextFile, size, grandparentLimit);
      FlushStep(View(), history, r);
      FlushIsStep(View(), size, grandparentLimit, r);
      current, imm, nextFile := r, None, nextFile + 1;
      Means();
    }

    /** BackgroundCompaction of a picked file.  The levels stay well-formed; reads,
        and with them the invariant, survive exactly when a file was only moved
        or the chosen inputs are closed to tombstones, which the code does not
        guarantee: see Tombstones.SplitTombstoneComesBack. */
    method BackgroundCompaction(level: nat, in0: seq<File>, in1: seq<File>, mayMove: bool) returns (moved: bool)
      requires Valid() && level + 1 < NUM_LEVELS && GoodInputs(current, level, in0, in1)
      modifies this`current, this`nextFile
      ensures moved <==> mayMove && |in0| == 1 && |in1| == 0
      ensures WellFormed(current) && NumbersBelow(current, nextFile)
      ensures SameReadsFrom(SmallestSnapshot(lastSequence, snapshots.Values()), old(current), current)
        <==> moved || ClosedToTombstones(old(current), level, in0, in1, SmallestSnapshot(lastSequence, snapshots.Values()))
      ensures moved || ClosedToTombstones(old(current), level, in0, in1, SmallestSnapshot(lastSequence, snapshots.Values()))
        ==> Valid()
      ensures if moved then Step(old(View()), Moved(level, in0[0]), View())
              else exists outs :: Step(old(View()), Compacted(level, in0, in1, outs), View())
    {
      hide *;
      Means();
      InvParts(View(), history);
      moved := mayMove && |in0| == 1 && |in1| == 0;
      if moved {
        assert in0 == [in0[0]] && in1 == [];
        var r := TrivialMove(current, level, in0[0]);
        MoveStep(View(), history, level, in0[0], r);
        MoveIsStep(View(), level, in0[0], r);
        current := r;
      } else {
        var smallest := OldestSnapshot();
        var r, outs := CompactFiles(current, level, in0, in1, smallest, nextFile);
        CompactStep(View(), history, level, in0, in1, outs, r);
        CompactIsStep(View(), level, in0, in1, outs, r);
        current, nextFile := r, nextFile + |outs|;
      }
      Means();
    }
  }

  lemma InvParts(st: State, H: set<Entry>)
    requires Inv(st, H)
    ensures |st.current.levels| == NUM_LEVELS
    ensures WellFormed(st.current) && NumbersBelow(st.current, st.nextFile)
    ensures SmallestSnapshot(st.lastSequence, st.snapshots) < MAX_SEQUENCE
  {
    assert |st.snapshots| > 0 ==> st.snapshots[0] in st.snapshots;
  }

  lemma FloorIsPast(st: State, H: set<Entry>)
    requires Inv(st, H)
    ensures SmallestSnapshot(st.lastSequence, st.snapshots) <= st.lastSequence
  {
    assert |st.snapshots| > 0 ==> st.snapshots[0] in st.snapshots;
  }

  lemma NewestIsPast(st: State, H: set<Entry>)
    requires Inv(st, H)
    ensures |st.snapshots| > 0 ==> st.snapshots[|st.snapshots| - 1] <= st.lastSequence
  {
    assert |st.snapshots| > 0 ==> st.snapshots[|st.snapshots| - 1] in st.snapshots;
  }

  lemma MoveStep(st: State, H: set<Entry>, level: nat, f: File, r: Version)
    requires Inv(st, H) && level + 1 < NUM_LEVELS && GoodInputs(st.current, level, [f], [])
    requires WellFormed(r) && VersionEntries(r) == VersionEntries(st.current) && Replaced(st.current, level, [f], [], [f], r)
    ensures Inv(st.(current := r), H) && SameReadsFrom(SmallestSnapshot(st.lastSequence, st.snapshots), st.current, r)
    ensures NumbersBelow(r, st.nextFile)
  {
    InvParts(st, H);
    hide Inv, WellFormed, GoodInputs, Replaced, NumbersBelow;
    MovedNumber(st.current, level, f, r, st.nextFile);
    InstallStep(st, H, r, st.nextFile);
  }

  lemma CompactStep(st: State, H: set<Entry>, level: nat, in0: seq<File>, in1: seq<File>, outs: seq<File>, r: Version)
    requires Inv(st, H) && level + 1 < NUM_LEVELS && GoodInputs(st.current, level, in0, in1)
    requires WellFormed(r) && Replaced(st.current, level, in0, in1, outs, r) && Numbered(outs, st.nextFile)
    requires VersionEntries(r) ==
      Survivors(InputEntries(in0, in1), SmallestSnapshot(st.lastSequence, st.snapshots), st.current, level)
      + OtherEntries(st.current, level, in0, in1)
    ensures NumbersBelow(r, st.nextFile + |outs|)
    ensures SameReadsFrom(SmallestSnapshot(st.lastSequence, st.snapshots), st.current, r) ==>
      Inv(st.(current := r, nextFile := st.nextFile + |outs|), H)
  {
    hide *;
    InvParts(st, H);
    WrittenNumbers(st.current, level, in0, in1, outs, r, st.nextFile);
    CompactedSubset(st.current, level, in0, in1, SmallestSnapshot(st.lastSequence, st.snapshots), r);
    if SameReadsFrom(SmallestSnapshot(st.lastSequence, st.snapshots), st.current, r) {
      InstallStep(st, H, r, st.nextFile + |outs|);
    }
  }

  lemma MovedNumber(v: Version, level: nat, f: File, r: Version, next: nat)
    requires |v.levels| == NUM_LEVELS && level + 1 < NUM_LEVELS && NumbersBelow(v, next)
    requires GoodInputs(v, level, [f], []) && Replaced(v, level, [f], [], [f], r)
    ensures NumbersBelow(r, next)
  {
    LoneInput(v, level, f);
    ReplacedNumbers(v, level, [f], [], [f], r, next);
  }

  lemma WrittenNumbers(v: Version, level: nat, in0: seq<File>, in1: seq<File>, outs: seq<File>, r: Version, next: nat)
    requires |v.levels| == NUM_LEVELS && Replaced(v, level, in0, in1, outs, r)
    requires NumbersBelow(v, next) && Numbered(outs, next)
    ensures NumbersBelow(r, next + |outs|)
  {
    ReplacedNumbers(v, level, in0, in1, outs, r, next + |outs|);
  }

  lemma FlushAllowed(st: State, H: set<Entry>)
    requires Inv(st, H) && st.imm.Some?
    ensures WellFormed(st.current) && NumbersBelow(st.current, st.nextFile)
    ensures SeqBounded(st.current, MAX_SEQUENCE)
    ensures SortedEntries(st.imm.value) && Newer(Contents(st.imm.value), VersionEntries(st.current))
    ensures Unique(Contents(st.imm.value) + VersionEntries(st.current))
  {
    assert VersionEntries(st.current) <= Stored(st);
    UniqueSubset(Contents(st.imm.value) + VersionEntries(st.current), Stored(st));
  }

  /** What the layered search found is what the union of the layers says. */
  lemma LayeredRead(M: set<Entry>, I: set<Entry>, V: set<Entry>, k: UserKey, s: nat, hit: Saver)
    requires Layers(M, I, V)
    requires match hit
      case Hit(e) => Newest(M, k, s, e) || (Misses(M, k, s) && Newest(I, k, s, e))
                     || (Misses(M, k, s) && Misses(I, k, s) && Newest(V, k, s, e))
      case NotFound => Misses(M, k, s) && Misses(I, k, s) && Misses(V, k, s)
    ensures ReadAt(M + (I + V), k, s) == if hit.Hit? then Outcome(hit.entry) else None
  {
    if hit.Hit? {
      assert Newest(M + (I + V), k, s, hit.entry);
      ReadOfNewest(M + (I + V), k, s, hit.entry);
    } else {
      ReadOfNothing(M + (I + V), k, s);
    }
  }

  const EMPTY_VERSION := Version([[], [], [], [], [], [], []])

  lemma EmptyLevel(l: nat)
    requires l < NUM_LEVELS
    ensures EMPTY_VERSION.levels[l] == [] && LevelEntries([]) == {}
    ensures SortedFiles([]) && LevelFacts(l, [])
  {
  }

  lemma EmptyVersion()
    ensures WellFormed(EMPTY_VERSION) && VersionEntries(EMPTY_VERSION) == {} && NumbersBelow(EMPTY_VERSION, 0)
  {
    hide WellFormed;
    assert |EMPTY_VERSION.levels| == NUM_LEVELS;
    forall l | 0 <= l < NUM_LEVELS
      ensures EMPTY_VERSION.levels[l] == [] && LevelEntries(EMPTY_VERSION.levels[l]) == {}
      ensures SortedFiles(EMPTY_VERSION.levels[l]) && LevelFacts(l, EMPTY_VERSION.levels[l])
    {
      EmptyLevel(l);
    }
    hide LevelFacts, SortedFiles, LevelEntries;
    assert VersionEntries(EMPTY_VERSION) == {};
    FactsGiveWellFormed(EMPTY_VERSION);
  }
}
