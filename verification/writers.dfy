/** The writer queue: threads take turns leading a group commit.  Each step is
    what one thread does between two acquisitions or releases of the mutex, or
    one store of the unlocked log-and-insert phase. */
module WriterQueue {
  import opened DbFormat

  /** DBImpl::Writer: batch None is the null batch of a forced memtable switch;
      `size` is WriteBatchInternal::ByteSize. */
  datatype Request = Request(batch: Option<seq<Op>>, size: nat, sync: bool)

  datatype Phase =
    | Queued
    | Committing(group: nat, first: nat, logged: bool, inserted: nat)
    | Finished

  datatype Record = Record(first: nat, ops: seq<Op>)

  /** A caller is named by its arrival number: caller t made request reqs[t] and
      is in phase[t].  The first `popped` callers have left the queue, so the
      queue is popped, popped + 1, ...  `synced` counts the operations covered
      by the last file sync. */
  datatype State = State(
    reqs: seq<Request>, phase: seq<Phase>, popped: nat,
    log: seq<Record>, synced: nat, mem: seq<Entry>, lastSequence: nat)

  const INIT := State([], [], 0, [], 0, [], 0)

  // ----- BuildBatchGroup -----

  function MaxGroupSize(first: nat): nat {
    if first <= 0x2_0000 then first + 0x2_0000 else 0x10_0000
  }

  /** How many more requests after the first i join the group. */
  function GroupEnd(rs: seq<Request>, i: nat, size: nat): (n: nat)
    requires 0 < i <= |rs|
    ensures 0 < i <= n <= |rs|
    ensures forall j | i <= j < n :: rs[j].sync ==> rs[0].sync
    decreases |rs| - i
  {
    if i == |rs| || (rs[i].sync && !rs[0].sync) then i
    else if rs[i].batch == None then GroupEnd(rs, i + 1, size)
    else if size + rs[i].size > MaxGroupSize(rs[0].size) then i
    else GroupEnd(rs, i + 1, size + rs[i].size)
  }

  /** The sizes of the batches among the first n requests; null batches have none. */
  function TotalSize(rs: seq<Request>, n: nat): nat
    requires n <= |rs|
  {
    if n == 0 then 0 else TotalSize(rs, n - 1) + if rs[n - 1].batch.Some? then rs[n - 1].size else 0
  }

  /** 128 KiB above a front of at most 128 KiB, and 1 MiB otherwise. */
  ghost predicate WithinCap(rs: seq<Request>, total: nat)
    requires |rs| > 0
  {
    if rs[0].size <= 131072 then total <= rs[0].size + 131072 else total <= 1048576
  }

  /** The first n requests can be one group: no sync write behind a front that
      does not sync, and once a second batch has joined, the sizes within the cap. */
  ghost predicate MayGroup(rs: seq<Request>, n: nat)
    requires 0 < n <= |rs|
  {
    && (forall j | 0 < j < n && rs[j].sync :: rs[0].sync)
    && ((exists j :: 0 < j < n && rs[j].batch.Some?) ==> WithinCap(rs, TotalSize(rs, n)))
  }

  /** Why the request after a group of n stays out. */
  ghost predicate MustStop(rs: seq<Request>, n: nat)
    requires 0 < n <= |rs|
  {
    || n == |rs|
    || (rs[n].sync && !rs[0].sync)
    || (rs[n].batch.Some? && !WithinCap(rs, TotalSize(rs, n) + rs[n].size))
  }

  /** The group is the longest run that may be one. */
  lemma GroupIsLongest(rs: seq<Request>)
    requires |rs| > 0 && rs[0].batch.Some?
    ensures var n := GroupEnd(rs, 1, rs[0].size);
      MayGroup(rs, n) && MustStop(rs, n) && forall m | n < m <= |rs| :: !MayGroup(rs, m)
  {
    assert TotalSize(rs, 0) == 0 && TotalSize(rs, 1) == rs[0].size;
    GroupEndStops(rs, 1, rs[0].size);
    var n := GroupEnd(rs, 1, rs[0].size);
    forall m | n < m <= |rs| ensures !MayGroup(rs, m) {
      SizesGrow(rs, n + 1, m);
    }
  }

  lemma {:induction false} GroupEndStops(rs: seq<Request>, i: nat, size: nat)
    requires 0 < i <= |rs| && rs[0].batch.Some? && size == TotalSize(rs, i)
    ensures MustStop(rs, GroupEnd(rs, i, size))
    ensures (exists j :: i <= j < GroupEnd(rs, i, size) && rs[j].batch.Some?) ==> WithinCap(rs, TotalSize(rs, GroupEnd(rs, i, size)))
    ensures !(exists j :: i <= j < GroupEnd(rs, i, size) && rs[j].batch.Some?) ==> TotalSize(rs, GroupEnd(rs, i, size)) == size
    decreases |rs| - i
  {
    var n := GroupEnd(rs, i, size);
    if i < n {
      assert TotalSize(rs, i + 1) == size + if rs[i].batch.Some? then rs[i].size else 0;
      GroupEndStops(rs, i + 1, TotalSize(rs, i + 1));
      if j :| i <= j < n && rs[j].batch.Some? && j != i {
        assert i + 1 <= j < n;
      }
    }
  }

  lemma {:induction false} SizesGrow(rs: seq<Request>, n: nat, m: nat)
    requires n <= m <= |rs|
    ensures TotalSize(rs, n) <= TotalSize(rs, m)
    decreases m
  {
    if n < m {
      SizesGrow(rs, n, m - 1);
    }
  }

  function OpsOf(r: Request): seq<Op> {
    if r.batch.Some? then r.batch.value else []
  }

  /** The concatenated operations of the requests, as WriteBatch::Append builds them. */
  function AllOps(rs: seq<Request>): seq<Op> {
    if rs == [] then [] else AllOps(rs[..|rs| - 1]) + OpsOf(rs[|rs| - 1])
  }

  function OpsBefore(rs: seq<Request>, n: nat): seq<Op>
    requires n <= |rs|
  {
    AllOps(rs[..n])
  }

  lemma AllOpsNext(rs: seq<Request>, n: nat)
    requires n < |rs|
    ensures AllOps(rs[..n + 1]) == AllOps(rs[..n]) + OpsOf(rs[n])
    ensures OpsBefore(rs, n + 1) == OpsBefore(rs, n) + OpsOf(rs[n])
  {
    assert rs[..n + 1][..n] == rs[..n];
  }

  lemma GroupEndStep(rs: seq<Request>, i: nat, size: nat)
    requires 0 < i < |rs|
    ensures GroupEnd(rs, i, size) ==
      if rs[i].sync && !rs[0].sync then i
      else if rs[i].batch == None then GroupEnd(rs, i + 1, size)
      else if size + rs[i].size > MaxGroupSize(rs[0].size) then i
      else GroupEnd(rs, i + 1, size + rs[i].size)
  {
  }

  lemma FirstOps(rs: seq<Request>)
    requires |rs| > 0
    ensures OpsBefore(rs, 1) == OpsOf(rs[0])
    ensures forall size :: GroupEnd(rs, |rs|, size) == |rs|
  {
    AllOpsNext(rs, 0);
  }

  lemma RiderOps(ops: seq<Op>, r: Request)
    ensures ops + OpsOf(r) == if r.batch == None then ops else ops + r.batch.value
  {
  }

  /** BuildBatchGroup: the front's batch and as many followers as may ride along. */
  method BuildBatchGroup(rs: seq<Request>) returns (result: seq<Op>, lastWriter: nat)
    requires |rs| > 0 && rs[0].batch.Some?
    ensures lastWriter + 1 == GroupEnd(rs, 1, rs[0].size)
    ensures lastWriter < |rs| && result == OpsBefore(rs, lastWriter + 1)
    ensures MayGroup(rs, lastWriter + 1) && MustStop(rs, lastWriter + 1)
    ensures forall m | lastWriter + 1 < m <= |rs| :: !MayGroup(rs, m)
  {
    GroupIsLongest(rs);
    hide MayGroup, MustStop;
    result := rs[0].batch.value;
    var size: nat := rs[0].size;
    var maxSize := 0x10_0000;
    if size <= 0x2_0000 {
      maxSize := size + 0x2_0000;
    }
    lastWriter := 0;
    var iter: nat := 1;
    assert maxSize == MaxGroupSize(rs[0].size) && result == OpsOf(rs[0]);
    FirstOps(rs);
    hide AllOps, GroupEnd, OpsOf, MaxGroupSize, OpsBefore;
    while iter < |rs|
      invariant 0 < iter == lastWriter + 1 <= |rs|
      invariant GroupEnd(rs, iter, size) == GroupEnd(rs, 1, rs[0].size)
      invariant result == OpsBefore(rs, iter)
    {
      var w := rs[iter];
      GroupEndStep(rs, iter, size);
      if w.sync && !rs[0].sync {
        break;
      }
      AllOpsNext(rs, iter);
      RiderOps(result, w);
      if w.batch != None {
        if size + w.size > maxSize {
          break;
        }
        size := size + w.size;
        result := result + w.batch.value;
      }
      lastWriter := iter;
      iter := iter + 1;
    }
  }

  // ----- The steps -----

  ghost predicate Shape(s: State) {
    |s.phase| == |s.reqs| && s.popped <= |s.reqs|
  }

  /** How many operations the first n callers bring. */
  function Place(reqs: seq<Request>, n: nat): nat
    requires n <= |reqs|
  {
    |AllOps(reqs[..n])|
  }

  /** The operations of the group a committing leader carries. */
  function GroupOps(s: State, group: nat): seq<Op>
    requires s.popped + group <= |s.reqs|
  {
    AllOps(s.reqs[s.popped..s.popped + group])
  }

  /** A caller takes the mutex and joins the queue. */
  ghost predicate Arrive(s: State, r: Request, s': State) {
    s' == s.(reqs := s.reqs + [r], phase := s.phase + [Queued])
  }

  /** t is at the front of the queue and has not been marked done. */
  ghost predicate AtFront(s: State, t: nat)
    requires Shape(s)
  {
    t == s.popped < |s.reqs| && s.phase[t] == Queued
  }

  /** The front caller finds room, builds its group and releases the mutex. */
  ghost predicate Lead(s: State, t: nat, s': State)
    requires Shape(s)
  {
    && AtFront(s, t) && s.reqs[t].batch.Some?
    && s' == s.(phase := s.phase[t := Committing(
         GroupEnd(s.reqs[s.popped..], 1, s.reqs[t].size), s.lastSequence + 1, false, 0)])
  }

  /** A front caller with a null batch only waits for room, then leaves. */
  ghost predicate LeaveEmpty(s: State, t: nat, s': State)
    requires Shape(s)
  {
    && AtFront(s, t) && s.reqs[t].batch == None
    && s' == s.(phase := s.phase[t := Finished], popped := s.popped + 1)
  }

  ghost predicate InGroup(s: State, t: nat)
    requires Shape(s)
  {
    t < |s.phase| && s.phase[t].Committing? && s.popped + s.phase[t].group <= |s.reqs|
  }

  /** Unlocked: append the group's record to the log, and sync the file if the leader asked. */
  ghost predicate AddRecord(s: State, t: nat, s': State)
    requires Shape(s)
  {
    && InGroup(s, t) && !s.phase[t].logged
    && var log' := s.log + [Record(s.phase[t].first, GroupOps(s, s.phase[t].group))];
       s' == s.(phase := s.phase[t := s.phase[t].(logged := true)], log := log',
                synced := if s.reqs[t].sync then |LogOps(log')| else s.synced)
  }

  /** Unlocked: one entry goes into the memtable. */
  ghost predicate InsertOne(s: State, t: nat, s': State)
    requires Shape(s)
  {
    && InGroup(s, t) && s.phase[t].logged
    && var ops := GroupOps(s, s.phase[t].group);
       var i := s.phase[t].inserted;
       && i < |ops|
       && s' == s.(phase := s.phase[t := s.phase[t].(inserted := i + 1)],
                   mem := s.mem + [OpEntry(ops[i], s.phase[t].first + i)])
  }

  /** Back under the mutex: publish the sequence number, pop the group, mark each member done. */
  ghost predicate Commit(s: State, t: nat, s': State)
    requires Shape(s)
  {
    && InGroup(s, t) && s.phase[t].logged
    && var ops := GroupOps(s, s.phase[t].group);
       var n := s.popped + s.phase[t].group;
       && s.phase[t].inserted == |ops|
       && s' == s.(lastSequence := s.lastSequence + |ops|, popped := n,
                   phase := seq(|s.phase|, i requires 0 <= i < |s.phase| =>
                     if s.popped <= i < n then Finished else s.phase[i]))
  }

  ghost predicate Step(s: State, s': State)
    requires Shape(s)
  {
    || (exists r :: Arrive(s, r, s'))
    || (exists t :: Lead(s, t, s') || LeaveEmpty(s, t, s') || AddRecord(s, t, s') || InsertOne(s, t, s') || Commit(s, t, s'))
  }

  // ----- The invariant -----

  function LogOps(log: seq<Record>): seq<Op> {
    if log == [] then [] else LogOps(log[..|log| - 1]) + log[|log| - 1].ops
  }

  /** Records carry consecutive sequence ranges from 1 on. */
  ghost predicate Contiguous(log: seq<Record>) {
    forall i | 0 <= i < |log| :: log[i].first == |LogOps(log[..i])| + 1
  }

  /** The entries of operations numbered from `first`. */
  function Stamp(ops: seq<Op>, first: nat): seq<Entry> {
    seq(|ops|, i requires 0 <= i < |ops| => OpEntry(ops[i], first + i))
  }

  /** Callers that left are done, callers behind the front wait, and only the
      front may be committing. */
  ghost predicate Phases(s: State)
    requires Shape(s)
  {
    && (forall i | 0 <= i < s.popped :: s.phase[i] == Finished)
    && (forall i | s.popped < i < |s.phase| :: s.phase[i] == Queued)
    && (s.popped < |s.phase| ==> !s.phase[s.popped].Finished?)
  }

  ghost predicate Leading(s: State)
    requires Shape(s)
  {
    s.popped < |s.phase| && s.phase[s.popped].Committing?
  }

  /** What is known of the front while it commits. */
  ghost predicate GroupFits(s: State)
    requires Shape(s) && Leading(s)
  {
    var p := s.phase[s.popped];
    && 0 < p.group && s.popped + p.group <= |s.reqs|
    && p.first == s.lastSequence + 1
    && p.inserted <= |GroupOps(s, p.group)| && (!p.logged ==> p.inserted == 0)
    && (forall j | s.popped <= j < s.popped + p.group :: s.reqs[j].sync ==> s.reqs[s.popped].sync)
  }

  /** The operations of the callers that have left the queue. */
  function Done(s: State): seq<Op>
    requires s.popped <= |s.reqs|
  {
    AllOps(s.reqs[..s.popped])
  }

  /** The current group's operations that the log already has. */
  ghost function LoggedPart(s: State): seq<Op>
    requires Shape(s) && (Leading(s) ==> GroupFits(s))
  {
    if Leading(s) && s.phase[s.popped].logged then GroupOps(s, s.phase[s.popped].group) else []
  }

  /** The current group's operations that the memtable already has. */
  ghost function InsertedPart(s: State): seq<Op>
    requires Shape(s) && (Leading(s) ==> GroupFits(s))
  {
    if Leading(s) then GroupOps(s, s.phase[s.popped].group)[..s.phase[s.popped].inserted] else []
  }

  ghost predicate Bookkept(s: State)
    requires Shape(s) && (Leading(s) ==> GroupFits(s))
  {
    && s.lastSequence == |Done(s)|
    && LogOps(s.log) == Done(s) + LoggedPart(s)
    && s.mem == Stamp(Done(s) + InsertedPart(s), 1)
    && Contiguous(s.log)
  }

  /** Every sync caller that has left the queue, or rides in a logged group, is on disk. */
  ghost predicate SyncedFar(s: State)
    requires Shape(s) && (Leading(s) ==> GroupFits(s))
  {
    && s.synced <= |LogOps(s.log)|
    && (forall n | 0 < n <= s.popped && s.reqs[n - 1].sync && s.reqs[n - 1].batch.Some? :: Place(s.reqs, n) <= s.synced)
    && (Leading(s) && s.phase[s.popped].logged && s.reqs[s.popped].sync ==> s.synced == |LogOps(s.log)|)
  }

  ghost predicate Inv(s: State) {
    && Shape(s) && Phases(s) && (Leading(s) ==> GroupFits(s)) && Bookkept(s) && SyncedFar(s)
  }

  // ----- Every step keeps it -----

  lemma AllOpsSnoc(rs: seq<Request>, r: Request)
    ensures AllOps(rs + [r]) == AllOps(rs) + OpsOf(r)
  {
    assert (rs + [r])[..|rs|] == rs;
  }

  lemma NoOps()
    ensures AllOps([]) == []
  {
  }

  lemma {:induction false} AllOpsConcat(a: seq<Request>, b: seq<Request>)
    ensures AllOps(a + b) == AllOps(a) + AllOps(b)
  {
    hide *;
    if b == [] {
      NoOps();
      assert a + b == a && AllOps(a) + [] == AllOps(a);
    } else {
      var init, last := b[..|b| - 1], b[|b| - 1];
      AllOpsConcat(a, init);
      AllOpsSnoc(init, last);
      AllOpsSnoc(a + init, last);
      assert b == init + [last];
      assert a + b == (a + init) + [last];
      assert (AllOps(a) + AllOps(init)) + OpsOf(last) == AllOps(a) + (AllOps(init) + OpsOf(last));
    }
  }

  lemma PrefixOps(reqs: seq<Request>, i: nat, n: nat)
    requires i <= n <= |reqs|
    ensures AllOps(reqs[..n]) == AllOps(reqs[..i]) + AllOps(reqs[i..n])
  {
    assert reqs[..n] == reqs[..i] + reqs[i..n];
    AllOpsConcat(reqs[..i], reqs[i..n]);
  }

  lemma LogOpsNext(log: seq<Record>, r: Record)
    ensures LogOps(log + [r]) == LogOps(log) + r.ops
    ensures Contiguous(log) && r.first == |LogOps(log)| + 1 ==> Contiguous(log + [r])
  {
    var longer := log + [r];
    assert longer[..|log|] == log;
    assert forall i | 0 <= i < |log| :: longer[..i] == log[..i];
  }

  lemma ArriveKeeps(s: State, r: Request, s': State)
    requires Inv(s) && Arrive(s, r, s')
    ensures Inv(s')
  {
    hide AllOps, LogOps, Stamp;
    assert s'.reqs[..s.popped] == s.reqs[..s.popped];
    if Leading(s) {
      var g := s.phase[s.popped].group;
      assert s'.reqs[s.popped..s.popped + g] == s.reqs[s.popped..s.popped + g];
    }
    forall n | 0 < n <= s.popped ensures Place(s'.reqs, n) == Place(s.reqs, n) {
      assert s'.reqs[..n] == s.reqs[..n];
    }
    assert Leading(s') == Leading(s) && Done(s') == Done(s);
    assert Phases(s');
    assert Leading(s) ==> GroupFits(s');
    assert LoggedPart(s') == LoggedPart(s) && InsertedPart(s') == InsertedPart(s);
  }

  lemma LeadKeeps(s: State, t: nat, s': State)
    requires Inv(s) && Lead(s, t, s')
    ensures Inv(s')
  {
    hide AllOps, LogOps, Stamp;
    var queue := s.reqs[s.popped..];
    var g := GroupEnd(queue, 1, s.reqs[t].size);
    forall j | s.popped <= j < s.popped + g ensures s'.reqs[j].sync ==> s'.reqs[s.popped].sync {
      assert queue[j - s.popped] == s.reqs[j];
    }
    assert GroupOps(s', g)[..0] == [];
  }

  lemma LeaveEmptyKeeps(s: State, t: nat, s': State)
    requires Inv(s) && LeaveEmpty(s, t, s')
    ensures Inv(s')
  {
    hide AllOps, LogOps, Stamp, Contiguous;
    AllOpsNext(s.reqs, s.popped);
    assert Done(s') == Done(s) && s'.log == s.log && s'.mem == s.mem;
    assert !Leading(s) && !Leading(s');
    assert InsertedPart(s') == InsertedPart(s) && LoggedPart(s') == LoggedPart(s);
  }

  lemma AddRecordKeeps(s: State, t: nat, s': State)
    requires Inv(s) && AddRecord(s, t, s')
    ensures Inv(s')
  {
    hide AllOps, LogOps, Stamp, Contiguous;
    LogOpsNext(s.log, Record(s.phase[t].first, GroupOps(s, s.phase[t].group)));
    assert Done(s') == Done(s) && LoggedPart(s') == GroupOps(s, s.phase[t].group);
    assert LogOps(s'.log) == Done(s) + GroupOps(s, s.phase[t].group);
    assert InsertedPart(s') == InsertedPart(s);
  }

  lemma StampNext(ops: seq<Op>, op: Op, first: nat)
    ensures Stamp(ops + [op], first) == Stamp(ops, first) + [OpEntry(op, first + |ops|)]
  {
  }

  lemma InsertOneKeeps(s: State, t: nat, s': State)
    requires Inv(s) && InsertOne(s, t, s')
    ensures Inv(s')
  {
    hide AllOps, LogOps, Stamp, Contiguous;
    var ops, i := GroupOps(s, s.phase[t].group), s.phase[t].inserted;
    assert GroupOps(s', s.phase[t].group) == ops && Done(s') == Done(s);
    assert InsertedPart(s) == ops[..i] && InsertedPart(s') == ops[..i + 1];
    assert Done(s) + ops[..i + 1] == (Done(s) + ops[..i]) + [ops[i]];
    StampNext(Done(s) + ops[..i], ops[i], 1);
    assert LoggedPart(s') == LoggedPart(s);
  }

  lemma PlaceGrows(reqs: seq<Request>, i: nat, n: nat)
    requires i <= n <= |reqs|
    ensures Place(reqs, i) <= Place(reqs, n)
  {
    PrefixOps(reqs, i, n);
  }

  lemma CommitDone(s: State, t: nat, s': State)
    requires Inv(s) && Commit(s, t, s')
    ensures Done(s') == Done(s) + GroupOps(s, s.phase[t].group)
    ensures forall n | 0 < n <= s'.popped :: Place(s.reqs, n) <= |Done(s')|
  {
    hide Inv, AllOps;
    PrefixOps(s.reqs, s.popped, s'.popped);
    forall n | 0 < n <= s'.popped ensures Place(s.reqs, n) <= |Done(s')| {
      PlaceGrows(s.reqs, n, s'.popped);
    }
  }

  lemma CommitKeeps(s: State, t: nat, s': State)
    requires Inv(s) && Commit(s, t, s')
    ensures Inv(s')
  {
    CommitDone(s, t, s');
    hide AllOps, LogOps, Stamp, Contiguous;
    var ops := GroupOps(s, s.phase[t].group);
    assert ops[..|ops|] == ops;
    assert InsertedPart(s) == ops && LoggedPart(s) == ops;
    assert !Leading(s') && InsertedPart(s') == [] && LoggedPart(s') == [];
    assert Done(s') + [] == Done(s');
    assert s.reqs[s.popped].sync ==> s.synced == |Done(s')|;
  }

  lemma StepKeeps(s: State, s': State)
    requires Inv(s) && Step(s, s')
    ensures Inv(s')
  {
    assert Shape(s);
    hide Inv, Shape, Arrive, Lead, LeaveEmpty, AddRecord, InsertOne, Commit;
    if r :| Arrive(s, r, s') {
      ArriveKeeps(s, r, s');
    } else {
      var t :| Lead(s, t, s') || LeaveEmpty(s, t, s') || AddRecord(s, t, s') || InsertOne(s, t, s') || Commit(s, t, s');
      if Lead(s, t, s') {
        LeadKeeps(s, t, s');
      } else if LeaveEmpty(s, t, s') {
        LeaveEmptyKeeps(s, t, s');
      } else if AddRecord(s, t, s') {
        AddRecordKeeps(s, t, s');
      } else if InsertOne(s, t, s') {
        InsertOneKeeps(s, t, s');
      } else {
        CommitKeeps(s, t, s');
      }
    }
  }

  // ----- Whole runs -----

  ghost predicate IsRun(run: seq<State>) {
    && |run| > 0 && run[0] == INIT
    && forall i | 0 <= i < |run| - 1 :: Shape(run[i]) && Step(run[i], run[i + 1])
  }

  lemma RunStarts(run: seq<State>)
    requires IsRun(run)
    ensures Inv(run[0])
  {
    hide Step;
  }

  lemma RunSteps(run: seq<State>, i: nat)
    requires IsRun(run) && 0 < i < |run|
    ensures Step(run[i - 1], run[i])
  {
    hide Step;
    var k := i - 1;
    assert Step(run[k], run[k + 1]);
  }

  lemma {:induction false} RunKeeps(run: seq<State>, i: nat)
    requires IsRun(run) && i < |run|
    ensures Inv(run[i])
  {
    hide *;
    RunStarts(run);
    if i > 0 {
      RunSteps(run, i);
      RunKeeps(run, i - 1);
      StepKeeps(run[i - 1], run[i]);
    }
  }

  /** At most one caller is in the unlocked phase, and it is the queue's front. */
  lemma OneCommitterAtTheFront(run: seq<State>, i: nat, t: nat, u: nat)
    requires IsRun(run) && i < |run| && t < |run[i].phase| && u < |run[i].phase|
    requires run[i].phase[t].Committing? && run[i].phase[u].Committing?
    ensures t == u == run[i].popped
  {
    RunKeeps(run, i);
  }

  /** Where caller t's operations sit in the overall order. */
  function Start(s: State, t: nat): nat
    requires t <= |s.reqs|
  {
    Place(s.reqs, t)
  }

  lemma OpsBetween(reqs: seq<Request>, t: nat, n: nat)
    requires t < n <= |reqs|
    ensures var all := AllOps(reqs[..n]); var a, b := |AllOps(reqs[..t])|, |AllOps(reqs[..t + 1])|;
      a <= b <= |all| && all[a..b] == OpsOf(reqs[t])
  {
    PrefixOps(reqs, t + 1, n);
    AllOpsNext(reqs, t);
    hide AllOps;
    var all := AllOps(reqs[..n]);
    assert all == AllOps(reqs[..t]) + OpsOf(reqs[t]) + AllOps(reqs[t + 1..n]);
  }

  /** Every finished write is in the log exactly at its place in arrival order,
      and a finished sync write is on disk. */
  lemma FinishedIsLogged(run: seq<State>, i: nat, t: nat)
    requires IsRun(run) && i < |run| && t < |run[i].phase| == |run[i].reqs| && run[i].phase[t] == Finished
    ensures var s := run[i];
      && Start(s, t) <= Start(s, t + 1) <= |LogOps(s.log)|
      && (s.reqs[t].batch.Some? ==> LogOps(s.log)[Start(s, t)..Start(s, t + 1)] == s.reqs[t].batch.value)
      && (s.reqs[t].batch.None? ==> Start(s, t) == Start(s, t + 1))
      && (s.reqs[t].sync && s.reqs[t].batch.Some? ==> Start(s, t + 1) <= s.synced)
      && Contiguous(s.log)
  {
    RunKeeps(run, i);
    LoggedInPlace(run[i], t);
  }

  lemma LoggedInPlace(s: State, t: nat)
    requires Inv(s) && t < |s.phase| && s.phase[t] == Finished
    ensures Start(s, t) <= Start(s, t + 1) <= |LogOps(s.log)|
    ensures LogOps(s.log)[Start(s, t)..Start(s, t + 1)] == OpsOf(s.reqs[t])
    ensures s.reqs[t].sync && s.reqs[t].batch.Some? ==> Start(s, t + 1) <= s.synced
    ensures Contiguous(s.log)
  {
    assert t < s.popped;
    hide AllOps, LogOps, Contiguous, Stamp, GroupFits;
    OpsBetween(s.reqs, t, s.popped);
  }

  /** A sync write only ever rides with a sync leader. */
  lemma SyncRidesWithSync(run: seq<State>, i: nat, j: nat)
    requires IsRun(run) && i < |run| && Shape(run[i]) && Leading(run[i])
    requires run[i].popped <= j < run[i].popped + run[i].phase[run[i].popped].group
    ensures j < |run[i].reqs| && (run[i].reqs[j].sync ==> run[i].reqs[run[i].popped].sync)
  {
    RunKeeps(run, i);
  }

  /** A reader at LastSequence sees all entries of a batch or none: the entries
      at or below it are exactly those of the callers that have left the queue. */
  lemma SnapshotsSeeWholeBatches(run: seq<State>, i: nat, t: nat)
    requires IsRun(run) && i < |run| && t < |run[i].reqs|
    ensures var s := run[i];
      && s.lastSequence <= |s.mem|
      && s.popped <= |s.reqs| && s.mem[..s.lastSequence] == Stamp(Done(s), 1)
      && (forall n | 0 <= n < |s.mem| :: s.mem[n].key.seqno <= s.lastSequence <==> n < s.lastSequence)
      && (Start(s, t + 1) <= s.lastSequence || s.lastSequence <= Start(s, t))
  {
    RunKeeps(run, i);
    var s := run[i];
    hide AllOps, LogOps, Contiguous, Phases, SyncedFar;
    assert forall n | 0 <= n < |s.mem| :: s.mem[n].key.seqno == n + 1;
    if t < s.popped {
      PlaceGrows(s.reqs, t + 1, s.popped);
    } else {
      PlaceGrows(s.reqs, s.popped, t);
    }
  }

  lemma CommitterCanStep(s: State) returns (s': State)
    requires Shape(s) && Leading(s) && InGroup(s, s.popped)
    requires s.phase[s.popped].inserted <= |GroupOps(s, s.phase[s.popped].group)|
    ensures (AddRecord(s, s.popped, s') || InsertOne(s, s.popped, s') || Commit(s, s.popped, s')) && s'.reqs == s.reqs
  {
    hide AllOps, LogOps, GroupEnd, GroupOps;
    var t := s.popped;
    var p := s.phase[t];
    var ops := GroupOps(s, p.group);
    if !p.logged {
      var log' := s.log + [Record(p.first, ops)];
      s' := s.(phase := s.phase[t := p.(logged := true)], log := log',
               synced := if s.reqs[t].sync then |LogOps(log')| else s.synced);
    } else if p.inserted < |ops| {
      s' := s.(phase := s.phase[t := p.(inserted := p.inserted + 1)],
               mem := s.mem + [OpEntry(ops[p.inserted], p.first + p.inserted)]);
    } else {
      s' := s.(lastSequence := s.lastSequence + |ops|, popped := t + p.group,
               phase := seq(|s.phase|, k requires 0 <= k < |s.phase| =>
                 if t <= k < t + p.group then Finished else s.phase[k]));
    }
  }

  lemma FrontCanStart(s: State, t: nat) returns (s': State)
    requires Shape(s) && AtFront(s, t)
    ensures (Lead(s, t, s') || LeaveEmpty(s, t, s')) && s'.reqs == s.reqs
  {
    if s.reqs[t].batch.Some? {
      s' := s.(phase := s.phase[t := Committing(GroupEnd(s.reqs[s.popped..], 1, s.reqs[t].size), s.lastSequence + 1, false, 0)]);
    } else {
      s' := s.(phase := s.phase[t := Finished], popped := s.popped + 1);
    }
  }

  /** While somebody is queued, the front can always take a step. */
  lemma QueueIsNeverStuck(run: seq<State>, i: nat) returns (s': State)
    requires IsRun(run) && i < |run| && run[i].popped < |run[i].reqs|
    ensures Shape(run[i]) && Step(run[i], s') && s'.reqs == run[i].reqs
  {
    RunKeeps(run, i);
    hide AllOps, LogOps, GroupEnd, Stamp, Contiguous, SyncedFar, Bookkept, GroupOps;
    var s := run[i];
    if s.phase[s.popped].Queued? {
      s' := FrontCanStart(s, s.popped);
    } else {
      s' := CommitterCanStep(s);
    }
  }
}
