/** Crashes and recovery: logs, tables, the manifest and CURRENT on disk, one
    process over them, and a crash at any moment.

    A log is the set of entries of its complete records, and a manifest is what
    replaying its complete records gives: modules `LogReader` and `Manifest`
    show that a torn last record counts for nothing.  A write step is one record
    reaching the file; a crash within it is a crash before it. */
module Durability {
  import opened DbFormat

  datatype Manifest = Manifest(live: set<nat>, log: nat, next: nat, last: nat)

  datatype Disk = Disk(tables: map<nat, set<Entry>>, logs: map<nat, set<Entry>>, manifests: map<nat, Manifest>, current: nat)

  /** What the background thread is in the middle of. */
  datatype Phase =
    | Idle
    | FlushBuilt(table: nat)
    | FlushLogged(table: nat)
    | CompactBuilt(ins: set<nat>, outs: set<nat>, snap: nat)
    | CompactLogged(ins: set<nat>, outs: set<nat>)

  /** The process.  `inflight` has reached the log but not the memtable. */
  datatype Process =
    | Down
    | Up(mem: set<Entry>, inflight: Option<set<Entry>>, imm: Option<set<Entry>>, immLog: nat, logFile: nat,
         live: set<nat>, logNumber: nat, manifest: nat, next: nat, last: nat, pending: set<nat>, phase: Phase)

  /** `logged` is what was ever completely logged, `acked` what was acknowledged;
      no read below `horizon` is promised, since compaction may have dropped what
      only such a read would see. */
  datatype System = System(disk: Disk, process: Process, logged: set<Entry>, acked: set<Entry>, horizon: nat)

  ghost function TableEntries(tables: map<nat, set<Entry>>, live: set<nat>): set<Entry> {
    set n, e | n in live && n in tables && e in tables[n] :: e
  }

  ghost function LogEntries(logs: map<nat, set<Entry>>, from: nat): set<Entry> {
    set n, e | n in logs && from <= n && e in logs[n] :: e
  }

  // ----- Recovery -----

  /** DBImpl::Recover starts from CURRENT's manifest, needs its tables, and reads
      the logs it names or newer ones. */
  ghost predicate Recoverable(d: Disk) {
    && d.current in d.manifests
    && d.manifests[d.current].live <= d.tables.Keys
  }

  ghost function RecoveredEntries(d: Disk): set<Entry>
    requires Recoverable(d)
  {
    var m := d.manifests[d.current];
    TableEntries(d.tables, m.live) + LogEntries(d.logs, m.log)
  }

  /** LastSequence is the manifest's, raised to what the logs hold. */
  ghost predicate RecoveredLast(d: Disk, last: nat)
    requires Recoverable(d)
  {
    var m := d.manifests[d.current];
    && m.last <= last
    && (forall e | e in LogEntries(d.logs, m.log) :: e.key.seqno <= last)
    && (last == m.last || exists e | e in LogEntries(d.logs, m.log) :: e.key.seqno == last)
  }

  ghost predicate SameReads(A: set<Entry>, B: set<Entry>, from: nat) {
    forall k, s | from <= s :: ReadAt(A, k, s) == ReadAt(B, k, s)
  }

  /** What a crash at this moment would leave: all the files recovery needs, and
      a database that reads as everything logged. */
  ghost predicate Durable(d: Disk, logged: set<Entry>, acked: set<Entry>, horizon: nat) {
    && Recoverable(d)
    && var m := d.manifests[d.current];
    && RecoveredEntries(d) <= logged
    && acked <= logged && Unique(logged)
    && SameReads(RecoveredEntries(d), logged, horizon)
    && (forall e | e in TableEntries(d.tables, m.live) :: e.key.seqno <= m.last)
    && (forall e | e in logged :: e.key.seqno <= m.last || e in LogEntries(d.logs, m.log))
    && horizon <= m.last
    && (forall n | n in m.live :: n < m.next)
    && m.log < m.next
    && Newer(LogEntries(d.logs, m.log), TableEntries(d.tables, m.live))
  }

  /** The promise to a client: after a crash and recovery, a read at the
      recovered last sequence finds, for every user key, the newest write that
      was logged, and the last sequence is at or after every write ever logged. */
  lemma AcknowledgedSurvives(d: Disk, logged: set<Entry>, acked: set<Entry>, horizon: nat, last: nat, k: UserKey)
    requires Durable(d, logged, acked, horizon) && RecoveredLast(d, last)
    ensures forall e | e in RecoveredEntries(d) :: e in logged
    ensures forall e | e in logged :: e.key.seqno <= last
    ensures ReadAt(RecoveredEntries(d), k, last) == ReadAt(logged, k, last)
    ensures forall a | Newest(logged, k, last, a) && a in acked :: ReadAt(RecoveredEntries(d), k, last) == Outcome(a)
  {
    forall a | Newest(logged, k, last, a) ensures ReadAt(logged, k, last) == Outcome(a) {
      ReadOfNewest(logged, k, last, a);
    }
  }

  // ----- The invariant -----

  ghost function OptionSet(o: Option<set<Entry>>): set<Entry> {
    if o.Some? then o.value else {}
  }

  ghost function Recent(p: Process): set<Entry>
    requires p.Up?
  {
    p.mem + OptionSet(p.inflight) + OptionSet(p.imm)
  }

  ghost predicate LogsMatch(d: Disk, p: Process)
    requires p.Up?
  {
    && p.logFile in d.logs && d.logs[p.logFile] == p.mem + OptionSet(p.inflight)
    && p.logNumber <= p.logFile
    && (if p.imm.Some?
        then p.immLog in d.logs && p.immLog < p.logFile && d.logs[p.immLog] == p.imm.value && p.logNumber == p.immLog
        else p.logNumber == p.logFile)
    && (forall n | n in d.logs && p.logNumber <= n :: n == p.logFile || (p.imm.Some? && n == p.immLog))
    && forall n | n in d.logs :: n < p.next
  }

  ghost predicate ManifestMatches(d: Disk, p: Process)
    requires p.Up?
  {
    && d.current == p.manifest && d.current in d.manifests
    && var m := d.manifests[d.current];
    && p.live <= d.tables.Keys && (forall n | n in p.live :: n < p.next)
    && m.next <= p.next && m.last <= p.last && m.log < m.next
    && (forall n | n in m.live :: n < m.next)
    && (match p.phase
        case Idle => m.live == p.live && m.log == p.logNumber
        case FlushBuilt(t) =>
          && m.live == p.live && m.log == p.logNumber
          && p.imm.Some? && t in d.tables && d.tables[t] == p.imm.value && t !in p.live && t < p.next
        case FlushLogged(t) =>
          && m.live == p.live + {t} && m.log == p.logFile
          && p.imm.Some? && t in d.tables && d.tables[t] == p.imm.value && t !in p.live
        case CompactBuilt(ins, outs, snap) =>
          && m.live == p.live && m.log == p.logNumber
          && Compacts(d, p, ins, outs, snap) && snap <= p.last
        case CompactLogged(ins, outs) =>
          && m.live == p.live - ins + outs && m.log == p.logNumber
          && outs <= d.tables.Keys)
  }

  /** What compaction guarantees of its outputs. */
  ghost predicate Compacts(d: Disk, p: Process, ins: set<nat>, outs: set<nat>, snap: nat)
    requires p.Up?
  {
    var before, after := TableEntries(d.tables, p.live), TableEntries(d.tables, p.live - ins + outs);
    && ins <= p.live && outs !! p.live && outs <= d.tables.Keys && (forall n | n in outs :: n < p.next)
    && after <= before && SameReads(after, before, snap)
  }

  ghost predicate Contentful(c: System)
    requires c.process.Up?
  {
    var d, p := c.disk, c.process;
    var tables := TableEntries(d.tables, p.live);
    && d.current in d.manifests
    && Recent(p) + tables <= c.logged && c.acked <= c.logged && Unique(c.logged)
    && Newer(Recent(p), tables) && Newer(p.mem + OptionSet(p.inflight), OptionSet(p.imm))
    && SameReads(Recent(p) + tables, c.logged, c.horizon)
    && (forall e | e in tables :: e.key.seqno <= d.manifests[d.current].last)
    && (forall e | e in p.mem + OptionSet(p.imm) :: e.key.seqno <= p.last)
    && (forall e | e in c.logged :: e.key.seqno <= p.last || e in OptionSet(p.inflight))
    && c.horizon <= d.manifests[d.current].last
  }

  ghost predicate Inv(c: System) {
    && Durable(c.disk, c.logged, c.acked, c.horizon)
    && (c.process.Up? ==> LogsMatch(c.disk, c.process) && ManifestMatches(c.disk, c.process) && Contentful(c))
  }

  // ----- Sets of entries -----

  lemma LogsAre(d: Disk, p: Process)
    requires p.Up? && LogsMatch(d, p)
    ensures LogEntries(d.logs, p.logNumber) == Recent(p)
    ensures LogEntries(d.logs, p.logFile) == p.mem + OptionSet(p.inflight)
  {
    forall e ensures e in LogEntries(d.logs, p.logNumber) <==> e in Recent(p) {
      if e in Recent(p) {
        assert e in d.logs[p.logFile] || (p.imm.Some? && e in d.logs[p.immLog]);
      }
    }
    forall e ensures e in LogEntries(d.logs, p.logFile) <==> e in p.mem + OptionSet(p.inflight) {
      if e in p.mem + OptionSet(p.inflight) {
        assert e in d.logs[p.logFile];
      }
    }
  }

  lemma TablesWith(tables: map<nat, set<Entry>>, live: set<nat>, t: nat)
    requires t in tables
    ensures TableEntries(tables, live + {t}) == TableEntries(tables, live) + tables[t]
  {
  }

  /** A file that no version names does not matter. */
  lemma TablesFrame(tables: map<nat, set<Entry>>, tables': map<nat, set<Entry>>, live: set<nat>)
    requires forall n | n in live :: (n in tables <==> n in tables') && (n in tables ==> tables[n] == tables'[n])
    ensures TableEntries(tables, live) == TableEntries(tables', live)
  {
    forall e ensures e in TableEntries(tables, live) <==> e in TableEntries(tables', live) {
      if n :| n in live && n in tables && e in tables[n] {
        assert n in tables' && e in tables'[n];
      }
      if n :| n in live && n in tables' && e in tables'[n] {
        assert n in tables && e in tables[n];
      }
    }
  }

  lemma LogsFrame(logs: map<nat, set<Entry>>, logs': map<nat, set<Entry>>, from: nat)
    requires forall n | from <= n && n in logs :: (n in logs' && logs[n] == logs'[n]) || (logs[n] == {} && n !in logs')
    requires forall n | from <= n && n in logs' && n !in logs :: logs'[n] == {}
    ensures LogEntries(logs, from) == LogEntries(logs', from)
  {
    forall e ensures e in LogEntries(logs, from) <==> e in LogEntries(logs', from) {
      if n :| n in logs && from <= n && e in logs[n] {
        assert n in logs' && e in logs'[n];
      }
      if n :| n in logs' && from <= n && e in logs'[n] {
        assert n in logs && e in logs[n];
      }
    }
  }

  /** A newer part in front of two sets that read alike. */
  lemma ReadsUnder(A: set<Entry>, B: set<Entry>, C: set<Entry>, from: nat)
    requires C <= B && Newer(A, B) && Unique(A + B) && SameReads(C, B, from)
    ensures SameReads(A + C, A + B, from)
  {
    forall k, s | from <= s ensures ReadAt(A + C, k, s) == ReadAt(A + B, k, s) {
      ReadThrough(A, B, k, s);
      ReadThrough(A, C, k, s);
      if a :| a in A && Visible(a, k, s) {
        var n := NewestExists(A, k, s, a);
      }
    }
  }

  /** Adding the same newer entries to both. */
  lemma ReadsWithNew(A: set<Entry>, B: set<Entry>, N: set<Entry>, from: nat)
    requires A <= B && SameReads(A, B, from) && Newer(N, B) && Unique(N + B)
    ensures SameReads(A + N, B + N, from)
  {
    ReadsUnder(N, B, A, from);
    assert N + A == A + N && N + B == B + N;
  }

  // ----- Steps of a running process -----

  /** A batch reaches the log: its entries are newer than all that were
      acknowledged. */
  ghost predicate LogWrite(c: System, c': System, N: set<Entry>) {
    && c.process.Up? && c.process.inflight.None? && c.process.logFile in c.disk.logs
    && Unique(N) && Above(N, c.process.last)
    && var p := c.process;
    && c'.disk == c.disk.(logs := c.disk.logs[p.logFile := c.disk.logs[p.logFile] + N])
    && c'.process == p.(inflight := Some(N))
    && c'.logged == c.logged + N && c'.acked == c.acked && c'.horizon == c.horizon
  }

  ghost predicate UpTo(S: set<Entry>, last: nat) {
    forall e | e in S :: e.key.seqno <= last
  }

  ghost predicate Above(S: set<Entry>, last: nat) {
    forall e | e in S :: e.key.seqno > last
  }

  lemma AboveIsNewer(N: set<Entry>, S: set<Entry>, last: nat)
    requires Above(N, last) && UpTo(S, last)
    ensures Newer(N, S)
    ensures Unique(N) && Unique(S) ==> Unique(S + N) && Unique(N + S)
  {
  }

  lemma NewerParts(A: set<Entry>, B: set<Entry>, S: set<Entry>)
    ensures Newer(A + B, S) <==> Newer(A, S) && Newer(B, S)
  {
  }

  lemma LogGrows(logs: map<nat, set<Entry>>, f: nat, N: set<Entry>, from: nat)
    requires f in logs && from <= f
    ensures LogEntries(logs[f := logs[f] + N], from) == LogEntries(logs, from) + N
  {
    var logs' := logs[f := logs[f] + N];
    forall e ensures e in LogEntries(logs', from) <==> e in LogEntries(logs, from) + N {
      if e in N {
        assert e in logs'[f];
      }
      if n :| n in logs && from <= n && e in logs[n] {
        assert e in logs'[n];
      }
    }
  }

  lemma LogWriteDurable(c: System, N: set<Entry>)
    requires Inv(c) && c.process.Up? && c.process.inflight.None?
    requires Unique(N) && Above(N, c.process.last)
    ensures var p := c.process;
      Durable(c.disk.(logs := c.disk.logs[p.logFile := c.disk.logs[p.logFile] + N]), c.logged + N, c.acked, c.horizon)
  {
    hide SameReads, Unique, Newer, LogEntries, TableEntries;
    var d, p := c.disk, c.process;
    var m := d.manifests[d.current];
    var tables := TableEntries(d.tables, m.live);
    LogGrows(d.logs, p.logFile, N, m.log);
    AboveIsNewer(N, c.logged, p.last);
    AboveIsNewer(N, tables, p.last);
    NewerParts(LogEntries(d.logs, m.log), N, tables);
    ReadsWithNew(RecoveredEntries(d), c.logged, N, c.horizon);
    var d' := d.(logs := d.logs[p.logFile := d.logs[p.logFile] + N]);
    assert RecoveredEntries(d') == RecoveredEntries(d) + N;
  }

  lemma LogWriteContentful(c: System, c': System, N: set<Entry>)
    requires Inv(c) && c.process.Up? && c.process.inflight.None?
    requires Unique(N) && Above(N, c.process.last)
    requires c'.process == c.process.(inflight := Some(N)) && c'.logged == c.logged + N && c'.acked == c.acked && c'.horizon == c.horizon
    requires c'.disk.tables == c.disk.tables && c'.disk.manifests == c.disk.manifests && c'.disk.current == c.disk.current
    ensures Contentful(c')
  {
    hide SameReads, Unique, Newer, TableEntries;
    var d, p := c.disk, c.process;
    var tables := TableEntries(d.tables, p.live);
    AboveIsNewer(N, c.logged, p.last);
    AboveIsNewer(N, tables, p.last);
    AboveIsNewer(N, OptionSet(p.imm), p.last);
    NewerParts(Recent(p), N, tables);
    NewerParts(p.mem, N, OptionSet(p.imm));
    ReadsWithNew(Recent(p) + tables, c.logged, N, c.horizon);
    assert Recent(c'.process) == Recent(p) + N;
    assert Recent(c'.process) + tables == (Recent(p) + tables) + N;
    assert p.mem + OptionSet(p.inflight) == p.mem;
  }

  lemma LogWriteKeeps(c: System, c': System, N: set<Entry>)
    requires Inv(c) && LogWrite(c, c', N)
    ensures Inv(c')
  {
    hide SameReads, Newer, TableEntries, Contentful, Durable;
    LogWriteDurable(c, N);
    LogWriteContentful(c, c', N);
  }

  /** The batch reaches the memtable and is acknowledged. */
  ghost predicate Acknowledge(c: System, c': System, last: nat) {
    && c.process.Up? && c.process.inflight.Some?
    && var p := c.process;
    && p.last <= last && UpTo(p.inflight.value, last)
    && c'.disk == c.disk && c'.logged == c.logged && c'.horizon == c.horizon
    && c'.process == p.(mem := p.mem + p.inflight.value, inflight := None, last := last)
    && c'.acked == c.acked + p.inflight.value
  }

  lemma AcknowledgeKeeps(c: System, c': System, last: nat)
    requires Inv(c) && Acknowledge(c, c', last)
    ensures Inv(c')
  {
    hide SameReads, Newer, TableEntries, LogEntries;
    var p, p' := c.process, c'.process;
    assert Recent(p') == Recent(p);
    assert p'.mem + OptionSet(p'.inflight) == p.mem + OptionSet(p.inflight);
  }

  /** The full memtable becomes immutable and a new log is begun. */
  ghost predicate Switch(c: System, c': System, n: nat) {
    && c.process.Up? && c.process.inflight.None? && c.process.imm.None? && c.process.next <= n
    && var p := c.process;
    && c'.disk == c.disk.(logs := c.disk.logs[n := {}])
    && c'.logged == c.logged && c'.acked == c.acked && c'.horizon == c.horizon
    && c'.process == p.(mem := {}, imm := Some(p.mem), immLog := p.logFile, logFile := n, next := n + 1)
  }

  lemma SwitchKeeps(c: System, c': System, n: nat)
    requires Inv(c) && Switch(c, c', n)
    ensures Inv(c')
  {
    hide SameReads, Newer, TableEntries, LogEntries;
    var p, p' := c.process, c'.process;
    LogsFrame(c.disk.logs, c'.disk.logs, c.disk.manifests[c.disk.current].log);
    assert Recent(p') == Recent(p);
    assert p.mem + OptionSet(p.inflight) == p.mem;
    NothingIsNewer(p.mem);
  }

  lemma NothingIsNewer(S: set<Entry>)
    ensures Newer({} + {}, S) && Newer({}, S) && Newer(S, {})
  {
  }

  /** The table of the immutable memtable is written. */
  ghost predicate BuildFlush(c: System, c': System, t: nat) {
    && c.process.Up? && c.process.imm.Some? && c.process.phase.Idle? && c.process.next <= t
    && c'.disk == c.disk.(tables := c.disk.tables[t := c.process.imm.value])
    && c'.logged == c.logged && c'.acked == c.acked && c'.horizon == c.horizon
    && c'.process == c.process.(phase := FlushBuilt(t), next := t + 1)
  }

  lemma BuildFlushKeeps(c: System, c': System, t: nat)
    requires Inv(c) && BuildFlush(c, c', t)
    ensures Inv(c')
  {
    hide SameReads, Newer, TableEntries, LogEntries, Compacts;
    TablesFrame(c.disk.tables, c'.disk.tables, c.disk.manifests[c.disk.current].live);
    TablesFrame(c.disk.tables, c'.disk.tables, c.process.live);
    assert Recent(c'.process) == Recent(c.process);
  }

  /** The edit of the flush reaches the manifest: the table is in, and the logs
      before the current one are no longer needed. */
  ghost predicate LogFlush(c: System, c': System) {
    && c.process.Up? && c.process.phase.FlushBuilt? && c.disk.current in c.disk.manifests
    && var p := c.process;
    && c'.disk == c.disk.(manifests := c.disk.manifests[c.disk.current := Manifest(p.live + {p.phase.table}, p.logFile, p.next, p.last)])
    && c'.logged == c.logged && c'.acked == c.acked && c'.horizon == c.horizon
    && c'.process == p.(phase := FlushLogged(p.phase.table))
  }

  lemma LogFlushKeeps(c: System, c': System)
    requires Inv(c) && LogFlush(c, c')
    ensures Inv(c')
  {
    hide SameReads, Newer, TableEntries, LogEntries, Compacts;
    var d, d', p := c.disk, c'.disk, c.process;
    var t := p.phase.table;
    LogsAre(d, p);
    TablesWith(d.tables, p.live, t);
    assert RecoveredEntries(d') == Recent(p) + TableEntries(d.tables, p.live);
    NewerJoin(p.mem + OptionSet(p.inflight), TableEntries(d.tables, p.live), p.imm.value);
    NewerParts(p.mem + OptionSet(p.inflight), OptionSet(p.imm), TableEntries(d.tables, p.live));
    assert Recent(c'.process) == Recent(p);
  }

  lemma NewerJoin(A: set<Entry>, B: set<Entry>, C: set<Entry>)
    ensures Newer(A, B + C) <==> Newer(A, B) && Newer(A, C)
  {
  }

  ghost predicate InstallFlush(c: System, c': System) {
    && c.process.Up? && c.process.phase.FlushLogged?
    && var p := c.process;
    && c'.disk == c.disk && c'.logged == c.logged && c'.acked == c.acked && c'.horizon == c.horizon
    && c'.process == p.(live := p.live + {p.phase.table}, logNumber := p.logFile, imm := None, phase := Idle)
  }

  lemma InstallFlushKeeps(c: System, c': System)
    requires Inv(c) && InstallFlush(c, c')
    ensures Inv(c')
  {
    hide SameReads, Newer, TableEntries, LogEntries, Compacts;
    var d, p, p' := c.disk, c.process, c'.process;
    var t := p.phase.table;
    TablesWith(d.tables, p.live, t);
    var A, tables := p.mem + OptionSet(p.inflight), TableEntries(d.tables, p.live);
    NewerJoin(A, tables, p.imm.value);
    NewerParts(A, OptionSet(p.imm), tables);
    assert Recent(p') == A && A + OptionSet(p'.imm) == A;
    assert A + (tables + p.imm.value) == Recent(p) + tables;
    NothingIsNewer(A);
    LogsAre(d, p);
  }

  /** The outputs of a compaction are written; `snap` is the smallest snapshot. */
  ghost predicate BuildCompact(c: System, c': System, ins: set<nat>, outputs: map<nat, set<Entry>>, snap: nat) {
    && c.process.Up? && c.process.phase.Idle? && c'.process.Up?
    && var p := c.process;
    && (forall n | n in outputs :: p.next <= n < c'.process.next) && p.next <= c'.process.next
    && c'.disk == c.disk.(tables := c.disk.tables + outputs)
    && c'.logged == c.logged && c'.acked == c.acked && c'.horizon == c.horizon
    && c'.process == p.(phase := CompactBuilt(ins, outputs.Keys, snap), pending := p.pending + outputs.Keys, next := c'.process.next)
    && snap <= p.last && Compacts(c'.disk, c'.process, ins, outputs.Keys, snap)
  }

  lemma BuildCompactKeeps(c: System, c': System, ins: set<nat>, outputs: map<nat, set<Entry>>, snap: nat)
    requires Inv(c) && BuildCompact(c, c', ins, outputs, snap)
    ensures Inv(c')
  {
    hide SameReads, Newer, TableEntries, LogEntries, Compacts;
    TablesFrame(c.disk.tables, c'.disk.tables, c.disk.manifests[c.disk.current].live);
    TablesFrame(c.disk.tables, c'.disk.tables, c.process.live);
    assert Recent(c'.process) == Recent(c.process);
  }

  /** The edit of the compaction reaches the manifest. */
  ghost predicate LogCompact(c: System, c': System) {
    && c.process.Up? && c.process.phase.CompactBuilt? && c.disk.current in c.disk.manifests
    && var p := c.process;
    && var live := p.live - p.phase.ins + p.phase.outs;
    && c'.disk == c.disk.(manifests := c.disk.manifests[c.disk.current := Manifest(live, p.logNumber, p.next, p.last)])
    && c'.logged == c.logged && c'.acked == c.acked
    && c'.horizon == (if c.horizon < p.phase.snap then p.phase.snap else c.horizon)
    && c'.process == p.(phase := CompactLogged(p.phase.ins, p.phase.outs))
  }

  lemma LogCompactKeeps(c: System, c': System)
    requires Inv(c) && LogCompact(c, c')
    ensures Inv(c')
  {
    hide SameReads, Newer, Unique, TableEntries, LogEntries;
    var d, d', p := c.disk, c'.disk, c.process;
    var before, after := TableEntries(d.tables, p.live), TableEntries(d.tables, p.live - p.phase.ins + p.phase.outs);
    LogsAre(d, p);
    NewerSubset(Recent(p), before, after);
    UniqueSubset(Recent(p) + before, c.logged);
    ReadsUnder(Recent(p), before, after, p.phase.snap);
    ReadsChain(Recent(p) + after, Recent(p) + before, c.logged, p.phase.snap, c.horizon, c'.horizon);
    ReadsLater(Recent(p) + before, c.logged, c.horizon, c'.horizon);
    assert RecoveredEntries(d') == Recent(p) + after;
    assert Recent(c'.process) == Recent(p);
  }

  lemma NewerSubset(A: set<Entry>, B: set<Entry>, C: set<Entry>)
    requires Newer(A, B) && C <= B
    ensures Newer(A, C)
  {
  }

  lemma UniqueSubset(A: set<Entry>, B: set<Entry>)
    requires A <= B && Unique(B)
    ensures Unique(A)
  {
  }

  lemma ReadsChain(A: set<Entry>, B: set<Entry>, C: set<Entry>, x: nat, y: nat, z: nat)
    requires SameReads(A, B, x) && SameReads(B, C, y) && x <= z && y <= z
    ensures SameReads(A, C, z)
  {
  }

  lemma ReadsLater(A: set<Entry>, B: set<Entry>, x: nat, y: nat)
    requires SameReads(A, B, x) && x <= y
    ensures SameReads(A, B, y)
  {
  }

  ghost predicate InstallCompact(c: System, c': System) {
    && c.process.Up? && c.process.phase.CompactLogged?
    && var p := c.process;
    && c'.disk == c.disk && c'.logged == c.logged && c'.acked == c.acked && c'.horizon == c.horizon
    && c'.process == p.(live := p.live - p.phase.ins + p.phase.outs, pending := p.pending - p.phase.outs, phase := Idle)
  }

  lemma InstallCompactKeeps(c: System, c': System)
    requires Inv(c) && InstallCompact(c, c')
    ensures Inv(c')
  {
    hide SameReads, Newer, TableEntries, LogEntries, Compacts;
    var d, p := c.disk, c.process;
    LogsAre(d, p);
    assert Recent(c'.process) == Recent(p);
    assert Recent(p) + TableEntries(d.tables, c'.process.live) == RecoveredEntries(d);
  }

  /** DeleteObsoleteFiles deletes one file. */
  datatype Obsolete = Table(n: nat) | Log(n: nat) | Descriptor(n: nat)

  ghost predicate IsObsolete(p: Process, f: Obsolete)
    requires p.Up?
  {
    match f
    case Table(n) => n !in p.live && n !in p.pending
    case Log(n) => n < p.logNumber
    case Descriptor(n) => n < p.manifest
  }

  function Without(d: Disk, f: Obsolete): Disk {
    match f
    case Table(n) => d.(tables := d.tables - {n})
    case Log(n) => d.(logs := d.logs - {n})
    case Descriptor(n) => d.(manifests := d.manifests - {n})
  }

  ghost predicate Delete(c: System, c': System, f: Obsolete) {
    && c.process.Up? && c.process.phase.Idle? && IsObsolete(c.process, f)
    && c' == c.(disk := Without(c.disk, f))
  }

  /** A file that recovery would need. */
  ghost predicate Needed(d: Disk, f: Obsolete)
    requires Recoverable(d)
  {
    var m := d.manifests[d.current];
    match f
    case Table(n) => n in m.live
    case Log(n) => m.log <= n
    case Descriptor(n) => n == d.current
  }

  /** DeleteObsoleteFiles never removes a log, a table or a manifest that is
      still needed. */
  lemma NeverNeeded(c: System, c': System, f: Obsolete)
    requires Inv(c) && Delete(c, c', f)
    ensures !Needed(c.disk, f)
  {
    hide SameReads, Newer, TableEntries, LogEntries, Contentful;
  }

  /** ... and it keeps nothing else: what stays is needed, is a table still being
      written, or is a manifest newer than the current one. */
  lemma OnlyNeededStays(c: System, f: Obsolete)
    requires Inv(c) && c.process.Up? && c.process.phase.Idle?
    ensures IsObsolete(c.process, f) <==>
      !Needed(c.disk, f) && !(f.Table? && f.n in c.process.pending) && !(f.Descriptor? && f.n > c.disk.current)
  {
    hide SameReads, Newer, TableEntries, LogEntries, Contentful;
  }

  lemma DeleteKeeps(c: System, c': System, f: Obsolete)
    requires Inv(c) && Delete(c, c', f)
    ensures Inv(c')
  {
    hide SameReads, Newer, TableEntries, LogEntries, Compacts;
    NeverNeeded(c, c', f);
    var d, d' := c.disk, c'.disk;
    TablesFrame(d.tables, d'.tables, d.manifests[d.current].live);
    TablesFrame(d.tables, d'.tables, c.process.live);
    LogsFrame(d.logs, d'.logs, d.manifests[d.current].log);
  }

  // ----- Crash and reopening -----

  ghost predicate Crash(c: System, c': System) {
    c' == c.(process := Down)
  }

  /** While the database is being reopened, files appear that CURRENT's manifest
      does not name: tables of recovered log entries, the next log, still empty,
      and a manifest that is not current yet. */
  datatype NewFile = NewTable(n: nat, entries: set<Entry>) | NewLog(n: nat) | NewDescriptor(n: nat, manifest: Manifest)

  ghost predicate Prepare(c: System, c': System, f: NewFile) {
    && c.process.Down? && Recoverable(c.disk)
    && var d, m := c.disk, c.disk.manifests[c.disk.current];
    && match f
       case NewTable(n, E) => n !in m.live && c' == c.(disk := d.(tables := d.tables[n := E]))
       case NewLog(n) => n !in d.logs && c' == c.(disk := d.(logs := d.logs[n := {}]))
       case NewDescriptor(n, M) => n != d.current && c' == c.(disk := d.(manifests := d.manifests[n := M]))
  }

  lemma PrepareKeeps(c: System, c': System, f: NewFile)
    requires Inv(c) && Prepare(c, c', f)
    ensures Inv(c')
  {
    hide SameReads, Newer, TableEntries, LogEntries;
    var d, d' := c.disk, c'.disk;
    var m := d.manifests[d.current];
    match f
    case NewTable(n, E) => TablesFrame(d.tables, d'.tables, m.live);
    case NewLog(n) => LogsFrame(d.logs, d'.logs, m.log);
    case NewDescriptor(n, M) =>
  }

  /** CURRENT is switched to the new manifest, which names the recovered tables
      and the new log: the database is open. */
  ghost predicate Open(c: System, c': System, k: nat, recovered: set<nat>, log: nat) {
    && c.process.Down? && Recoverable(c.disk)
    && var d, m := c.disk, c.disk.manifests[c.disk.current];
    && k in d.manifests && var M := d.manifests[k];
    && recovered <= d.tables.Keys && recovered !! m.live
    && TableEntries(d.tables, recovered) == LogEntries(d.logs, m.log)
    && M.live == m.live + recovered && M.log == log && RecoveredLast(d, M.last)
    && log in d.logs && d.logs[log] == {} && (forall n | n in d.logs && n != log :: n < log)
    && m.next <= M.next && log < M.next && (forall n | n in recovered :: n < M.next)
    && c' == c.(disk := d.(current := k), process := c'.process)
    && c'.process.Up? && M.next <= c'.process.next
    && c'.process == Up({}, None, None, 0, log, M.live, log, k, c'.process.next, M.last, {}, Idle)
  }

  lemma OpenKeeps(c: System, c': System, k: nat, recovered: set<nat>, log: nat)
    requires Inv(c) && Open(c, c', k, recovered, log)
    ensures Inv(c')
  {
    hide SameReads, Newer, Unique;
    var d, d' := c.disk, c'.disk;
    var m, M := d.manifests[d.current], d.manifests[k];
    TablesJoin(d.tables, m.live, recovered);
    EmptyLog(d.logs, log);
    assert RecoveredEntries(d') == RecoveredEntries(d);
    NothingIsNewer(TableEntries(d.tables, M.live));
    NothingIsNewer({});
    assert Recent(c'.process) + TableEntries(d.tables, M.live) == RecoveredEntries(d);
    assert Recent(c'.process) == {} && c'.process.mem + OptionSet(c'.process.inflight) == {};
  }

  lemma TablesJoin(tables: map<nat, set<Entry>>, a: set<nat>, b: set<nat>)
    ensures TableEntries(tables, a + b) == TableEntries(tables, a) + TableEntries(tables, b)
  {
  }

  lemma EmptyLog(logs: map<nat, set<Entry>>, log: nat)
    requires log in logs && logs[log] == {} && forall n | n in logs && n != log :: n < log
    ensures LogEntries(logs, log) == {}
  {
  }

  // ----- Runs -----

  datatype Action =
    | DoLogWrite(batch: set<Entry>)
    | DoAcknowledge(last: nat)
    | DoSwitch(log: nat)
    | DoBuildFlush(table: nat)
    | DoLogFlush
    | DoInstallFlush
    | DoBuildCompact(ins: set<nat>, outputs: map<nat, set<Entry>>, snap: nat)
    | DoLogCompact
    | DoInstallCompact
    | DoDelete(file: Obsolete)
    | DoCrash
    | DoPrepare(newFile: NewFile)
    | DoOpen(manifest: nat, recovered: set<nat>, log: nat)

  ghost predicate Step(c: System, a: Action, c': System) {
    match a
    case DoLogWrite(N) => LogWrite(c, c', N)
    case DoAcknowledge(last) => Acknowledge(c, c', last)
    case DoSwitch(n) => Switch(c, c', n)
    case DoBuildFlush(t) => BuildFlush(c, c', t)
    case DoLogFlush => LogFlush(c, c')
    case DoInstallFlush => InstallFlush(c, c')
    case DoBuildCompact(ins, outputs, snap) => BuildCompact(c, c', ins, outputs, snap)
    case DoLogCompact => LogCompact(c, c')
    case DoInstallCompact => InstallCompact(c, c')
    case DoDelete(f) => Delete(c, c', f)
    case DoCrash => Crash(c, c')
    case DoPrepare(f) => Prepare(c, c', f)
    case DoOpen(k, recovered, log) => Open(c, c', k, recovered, log)
  }

  lemma StepKeeps(c: System, a: Action, c': System)
    requires Inv(c) && Step(c, a, c')
    ensures Inv(c')
  {
    hide Durable, LogsMatch, ManifestMatches, Contentful, LogWrite, Acknowledge, Switch, BuildFlush, LogFlush, InstallFlush,
         BuildCompact, LogCompact, InstallCompact, Delete, Prepare, Open;
    match a
    case DoLogWrite(N) => LogWriteKeeps(c, c', N);
    case DoAcknowledge(last) => AcknowledgeKeeps(c, c', last);
    case DoSwitch(n) => SwitchKeeps(c, c', n);
    case DoBuildFlush(t) => BuildFlushKeeps(c, c', t);
    case DoLogFlush => LogFlushKeeps(c, c');
    case DoInstallFlush => InstallFlushKeeps(c, c');
    case DoBuildCompact(ins, outputs, snap) => BuildCompactKeeps(c, c', ins, outputs, snap);
    case DoLogCompact => LogCompactKeeps(c, c');
    case DoInstallCompact => InstallCompactKeeps(c, c');
    case DoDelete(f) => DeleteKeeps(c, c', f);
    case DoCrash =>
    case DoPrepare(f) => PrepareKeeps(c, c', f);
    case DoOpen(k, recovered, log) => OpenKeeps(c, c', k, recovered, log);
  }

  /** NewDB: one manifest, with nothing in it. */
  const NEW_DB: System := System(Disk(map[], map[], map[1 := Manifest({}, 0, 2, 0)], 1), Down, {}, {}, 0)

  lemma NewDbIsDurable()
    ensures Inv(NEW_DB)
  {
    var d := NEW_DB.disk;
    assert RecoveredEntries(d) == {};
  }

  ghost predicate Run(cs: seq<System>, actions: seq<Action>) {
    && |cs| == |actions| + 1 && cs[0] == NEW_DB
    && forall i | 0 <= i < |actions| :: Step(cs[i], actions[i], cs[i + 1])
  }

  /** At every moment of every run, crashes and reopenings included, what is on
      disk recovers to a database that reads as everything logged. */
  lemma {:induction false} RunIsDurable(cs: seq<System>, actions: seq<Action>, i: nat)
    requires Run(cs, actions) && i < |cs|
    ensures Inv(cs[i])
  {
    hide Durable, LogsMatch, ManifestMatches, Contentful, Step;
    if i == 0 {
      NewDbIsDurable();
    } else {
      RunIsDurable(cs, actions, i - 1);
      StepKeeps(cs[i - 1], actions[i - 1], cs[i]);
    }
  }

  /** In particular a crash at any moment of any run loses no acknowledged write:
      a read at the recovered last sequence finds it, unless something newer was
      logged for its key. */
  lemma CrashLosesNothing(cs: seq<System>, actions: seq<Action>, i: nat, last: nat, a: Entry)
    requires Run(cs, actions) && i < |cs|
    requires a in cs[i].acked && forall e | e in cs[i].logged && e.key.user == a.key.user :: e.key.seqno <= a.key.seqno
    ensures Recoverable(cs[i].disk)
    ensures RecoveredLast(cs[i].disk, last) ==>
      ReadAt(RecoveredEntries(cs[i].disk), a.key.user, last) == DbFormat.Outcome(a) && a.key.seqno <= last
  {
    hide LogsMatch, ManifestMatches, Contentful, Step, SameReads, RecoveredEntries, RecoveredLast;
    RunIsDurable(cs, actions, i);
    var c := cs[i];
    if RecoveredLast(c.disk, last) {
      AcknowledgedSurvives(c.disk, c.logged, c.acked, c.horizon, last, a.key.user);
      assert Newest(c.logged, a.key.user, last, a);
    }
  }
}
