/** Versions on disk: a compaction of the tree is a compaction of the durable
    system. */
module DurableTree {
  import opened DbFormat
  import opened Versions
  import opened Picking
  import opened VersionBuilder
  import opened CompactionWork
  import opened LsmTree
  import opened LsmSteps
  import Database
  import opened Durability

  ghost function FileNumbers(v: Version): set<nat> {
    set l, f | 0 <= l < |v.levels| && f in v.levels[l] :: f.number
  }

  ghost predicate Held(tables: map<nat, set<Entry>>, live: set<nat>, f: File) {
    f.number in live && f.number in tables && tables[f.number] == f.Set()
  }

  /** The live tables are the files of the version. */
  ghost predicate Holds(tables: map<nat, set<Entry>>, live: set<nat>, v: Version) {
    && live <= FileNumbers(v)
    && forall l, f | 0 <= l < |v.levels| && f in v.levels[l] :: Held(tables, live, f)
  }

  lemma FileHeld(tables: map<nat, set<Entry>>, live: set<nat>, v: Version, l: nat, f: File)
    requires Holds(tables, live, v) && l < |v.levels| && f in v.levels[l]
    ensures f.number in live && f.number in tables && tables[f.number] == f.Set()
  {
    assert Held(tables, live, f);
  }

  lemma FileOf(tables: map<nat, set<Entry>>, live: set<nat>, v: Version, n: nat) returns (l: nat, f: File)
    requires Holds(tables, live, v) && n in live
    ensures l < |v.levels| && f in v.levels[l] && f.number == n
  {
    l, f :| 0 <= l < |v.levels| && f in v.levels[l] && f.number == n;
  }

  lemma HeldEntries(tables: map<nat, set<Entry>>, live: set<nat>, v: Version)
    requires Holds(tables, live, v)
    ensures TableEntries(tables, live) == VersionEntries(v)
  {
    hide Holds, VersionEntries, TableEntries;
    forall e ensures e in TableEntries(tables, live) <==> e in VersionEntries(v) {
      if e in TableEntries(tables, live) {
        var n := TableOf(tables, live, e);
        var l, f := FileOf(tables, live, v, n);
        FileHeld(tables, live, v, l, f);
        InVersion(v, l, f, e);
      }
      if e in VersionEntries(v) {
        var l, f := VersionHolder(v, e);
        FileHeld(tables, live, v, l, f);
        InTable(tables, live, f.number, e);
      }
    }
  }

  lemma TableOf(tables: map<nat, set<Entry>>, live: set<nat>, e: Entry) returns (n: nat)
    requires e in TableEntries(tables, live)
    ensures n in live && n in tables && e in tables[n]
  {
    n :| n in live && n in tables && e in tables[n];
  }

  lemma InTable(tables: map<nat, set<Entry>>, live: set<nat>, n: nat, e: Entry)
    requires n in live && n in tables && e in tables[n]
    ensures e in TableEntries(tables, live)
  {
  }

  lemma VersionHolder(v: Version, e: Entry) returns (l: nat, f: File)
    requires e in VersionEntries(v)
    ensures l < |v.levels| && f in v.levels[l] && e in f.entries
  {
    l :| 0 <= l < |v.levels| && e in LevelEntries(v.levels[l]);
    f := HolderOf(v.levels[l], e);
  }

  /** The tables a compaction writes. */
  ghost function OutputTables(outs: seq<File>, first: nat): map<nat, set<Entry>>
    requires Numbered(outs, first)
  {
    map n | n in Numbers(outs) :: outs[n - first].Set()
  }

  lemma OutputHeld(tables: map<nat, set<Entry>>, outs: seq<File>, first: nat, f: File)
    requires Numbered(outs, first) && f in outs
    ensures f.number in OutputTables(outs, first).Keys
    ensures f.number in tables + OutputTables(outs, first) && (tables + OutputTables(outs, first))[f.number] == f.Set()
  {
    var i :| 0 <= i < |outs| && outs[i] == f;
  }

  lemma OldHeld(tables: map<nat, set<Entry>>, outs: seq<File>, first: nat, n: nat)
    requires Numbered(outs, first) && n in tables && n < first
    ensures n in tables + OutputTables(outs, first) && (tables + OutputTables(outs, first))[n] == tables[n]
  {
  }

  lemma OutputNumbers(outs: seq<File>, first: nat)
    requires Numbered(outs, first)
    ensures OutputTables(outs, first).Keys == Numbers(outs)
    ensures forall n | n in Numbers(outs) :: first <= n < first + |outs|
  {
  }

  /** A file that stays has another number than every input. */
  lemma StaysOutside(v: Version, level: nat, in0: seq<File>, in1: seq<File>, l: nat, f: File)
    requires WellFormed(v) && |v.levels| == NUM_LEVELS && level + 1 < NUM_LEVELS && GoodInputs(v, level, in0, in1)
    requires l < NUM_LEVELS && f in v.levels[l]
    ensures f.number in Numbers(in0) + Numbers(in1) <==> Removed(level, in0, in1, l, f)
  {
    hide *;
    NextInputsAreNextFiles(v, level, in0, in1);
    LevelInputsAreFiles(v, level, in0, in1);
    NumberedAlike(v, level, in0, l, f);
    NumberedAlike(v, level + 1, in1, l, f);
    RemovedIs(level, in0, in1, l, f);
  }

  lemma RemovedIs(level: nat, in0: seq<File>, in1: seq<File>, l: nat, f: File)
    ensures Removed(level, in0, in1, l, f) <==> (l == level && f in in0) || (l == level + 1 && f in in1)
  {
  }

  /** A file with the number of one of these files of level `m` is that file. */
  lemma NumberedAlike(v: Version, m: nat, files: seq<File>, l: nat, f: File)
    requires WellFormed(v) && m < NUM_LEVELS && |v.levels| == NUM_LEVELS && forall g | g in files :: g in v.levels[m]
    requires l < NUM_LEVELS && f in v.levels[l]
    ensures f.number in Numbers(files) <==> l == m && f in files
  {
    hide WellFormed;
    forall g | g in files && g.number == f.number ensures l == m && g == f {
      SameNumberSameFile(v, m, g, l, f);
    }
  }

  lemma SameNumberSameFile(v: Version, l: nat, f: File, m: nat, g: File)
    requires WellFormed(v) && l < NUM_LEVELS && m < NUM_LEVELS && f in v.levels[l] && g in v.levels[m] && f.number == g.number
    ensures l == m && f == g
  {
    if l < m {
      CrossPair(v, l, m, f, g);
    } else if m < l {
      CrossPair(v, m, l, g, f);
    } else {
      LevelNumbersDistinct(v, l, f, g);
    }
  }

  lemma ReplacedHeld(tables: map<nat, set<Entry>>, live: set<nat>, v: Version, level: nat, in0: seq<File>, in1: seq<File>,
                     outs: seq<File>, first: nat, r: Version)
    requires WellFormed(v) && level + 1 < NUM_LEVELS && GoodInputs(v, level, in0, in1) && NumbersBelow(v, first)
    requires Holds(tables, live, v) && |v.levels| == NUM_LEVELS && Replaced(v, level, in0, in1, outs, r) && Numbered(outs, first)
    ensures Holds(tables + OutputTables(outs, first), live - (Numbers(in0) + Numbers(in1)) + Numbers(outs), r)
  {
    var ins, tables' := Numbers(in0) + Numbers(in1), tables + OutputTables(outs, first);
    var live' := live - ins + Numbers(outs);
    assert |r.levels| == NUM_LEVELS;
    hide *;
    forall l, f | 0 <= l < |r.levels| && f in r.levels[l] ensures Held(tables', live', f) {
      ReplacedStays(v, level, in0, in1, outs, r, l);
      StayingHeld(tables, live, v, level, in0, in1, outs, first, l, f);
    }
    LiveAreFiles(tables, live, v, level, in0, in1, outs, r);
    MakeHolds(tables', live', r);
  }

  lemma LiveAreFiles(tables: map<nat, set<Entry>>, live: set<nat>, v: Version, level: nat, in0: seq<File>, in1: seq<File>,
                     outs: seq<File>, r: Version)
    requires WellFormed(v) && level + 1 < NUM_LEVELS && GoodInputs(v, level, in0, in1)
    requires Holds(tables, live, v) && |v.levels| == NUM_LEVELS && Replaced(v, level, in0, in1, outs, r)
    ensures live - (Numbers(in0) + Numbers(in1)) + Numbers(outs) <= FileNumbers(r)
  {
    assert |r.levels| == NUM_LEVELS;
    hide *;
    forall n | n in live - (Numbers(in0) + Numbers(in1)) + Numbers(outs) ensures n in FileNumbers(r) {
      var l, f := LiveHolder(tables, live, v, level, in0, in1, outs, n);
      ReplacedStays(v, level, in0, in1, outs, r, l);
      NumberOf(r, l, f);
    }
  }

  lemma NumberOf(v: Version, l: nat, f: File)
    requires l < |v.levels| && f in v.levels[l]
    ensures f.number in FileNumbers(v)
  {
  }

  lemma MakeHolds(tables: map<nat, set<Entry>>, live: set<nat>, v: Version)
    requires forall l, f | 0 <= l < |v.levels| && f in v.levels[l] :: Held(tables, live, f)
    requires live <= FileNumbers(v)
    ensures Holds(tables, live, v)
  {
  }

  lemma StayingHeld(tables: map<nat, set<Entry>>, live: set<nat>, v: Version, level: nat, in0: seq<File>, in1: seq<File>,
                    outs: seq<File>, first: nat, l: nat, f: File)
    requires WellFormed(v) && level + 1 < NUM_LEVELS && GoodInputs(v, level, in0, in1) && NumbersBelow(v, first)
    requires Holds(tables, live, v) && |v.levels| == NUM_LEVELS && Numbered(outs, first)
    requires l < NUM_LEVELS && Stays(v, level, in0, in1, outs, l, f)
    ensures Held(tables + OutputTables(outs, first), live - (Numbers(in0) + Numbers(in1)) + Numbers(outs), f)
  {
    hide WellFormed, GoodInputs, Holds, OutputTables;
    if l == level + 1 && f in outs {
      OutputHeld(tables, outs, first, f);
    } else {
      FileHeld(tables, live, v, l, f);
      StaysOutside(v, level, in0, in1, l, f);
      OldHeld(tables, outs, first, f.number);
    }
  }

  lemma LiveHolder(tables: map<nat, set<Entry>>, live: set<nat>, v: Version, level: nat, in0: seq<File>, in1: seq<File>,
                   outs: seq<File>, n: nat)
    returns (l: nat, f: File)
    requires WellFormed(v) && level + 1 < NUM_LEVELS && GoodInputs(v, level, in0, in1)
    requires Holds(tables, live, v) && |v.levels| == NUM_LEVELS
    requires n in live - (Numbers(in0) + Numbers(in1)) + Numbers(outs)
    ensures l < NUM_LEVELS && Stays(v, level, in0, in1, outs, l, f) && f.number == n
  {
    hide WellFormed, GoodInputs, Holds;
    if n in Numbers(outs) {
      f :| f in outs && f.number == n;
      l := level + 1;
    } else {
      l, f := FileOf(tables, live, v, n);
      StaysOutside(v, level, in0, in1, l, f);
    }
  }

  /** The system after the outputs of a compaction are written. */
  ghost function Built(c: System, ins: set<nat>, outputs: map<nat, set<Entry>>, snap: nat, next: nat): System
    requires c.process.Up?
  {
    var p := c.process;
    c.(disk := c.disk.(tables := c.disk.tables + outputs),
       process := p.(phase := CompactBuilt(ins, outputs.Keys, snap), pending := p.pending + outputs.Keys, next := next))
  }

  /** What the merge, drop and write of a whole compaction leave is what the
      durable system asks of one, when the inputs are closed to tombstones. */
  lemma CompactionIsDurable(c: System, v: Version, level: nat, in0: seq<File>, in1: seq<File>, snap: nat,
                            outs: seq<File>, r: Version)
    requires c.process.Up? && c.process.phase.Idle? && snap <= c.process.last
    requires WellFormed(v) && NumbersBelow(v, c.process.next) && Holds(c.disk.tables, c.process.live, v)
    requires level + 1 < NUM_LEVELS && GoodInputs(v, level, in0, in1) && ClosedToTombstones(v, level, in0, in1, snap)
    requires Replaced(v, level, in0, in1, outs, r) && Numbered(outs, c.process.next)
    requires VersionEntries(r) == Survivors(InputEntries(in0, in1), snap, v, level) + OtherEntries(v, level, in0, in1)
    ensures var p, ins, outputs := c.process, Numbers(in0) + Numbers(in1), OutputTables(outs, c.process.next);
      && BuildCompact(c, Built(c, ins, outputs, snap, p.next + |outs|), ins, outputs, snap)
      && Holds(c.disk.tables + outputs, p.live - ins + outputs.Keys, r)
  {
    var p, ins, outputs := c.process, Numbers(in0) + Numbers(in1), OutputTables(outs, c.process.next);
    var c' := Built(c, ins, outputs, snap, p.next + |outs|);
    WellFormedSize(v);
    hide *;
    CompactsOutputs(c, v, level, in0, in1, snap, outs, r);
    OutputNumbers(outs, p.next);
    ReplacedHeld(c.disk.tables, p.live, v, level, in0, in1, outs, p.next, r);
    BuiltIsStep(c, ins, outputs, snap, p.next + |outs|);
  }

  lemma BuiltIsStep(c: System, ins: set<nat>, outputs: map<nat, set<Entry>>, snap: nat, next: nat)
    requires c.process.Up? && c.process.phase.Idle? && snap <= c.process.last
    requires c.process.next <= next && forall n | n in outputs.Keys :: c.process.next <= n < next
    requires var c' := Built(c, ins, outputs, snap, next);
      c'.process.Up? && Compacts(c'.disk, c'.process, ins, outputs.Keys, snap)
    ensures BuildCompact(c, Built(c, ins, outputs, snap, next), ins, outputs, snap)
  {
    hide Compacts;
  }

  lemma CompactsOutputs(c: System, v: Version, level: nat, in0: seq<File>, in1: seq<File>, snap: nat,
                        outs: seq<File>, r: Version)
    requires c.process.Up? && |v.levels| == NUM_LEVELS
    requires WellFormed(v) && NumbersBelow(v, c.process.next) && Holds(c.disk.tables, c.process.live, v)
    requires level + 1 < NUM_LEVELS && GoodInputs(v, level, in0, in1) && ClosedToTombstones(v, level, in0, in1, snap)
    requires Replaced(v, level, in0, in1, outs, r) && Numbered(outs, c.process.next)
    requires VersionEntries(r) == Survivors(InputEntries(in0, in1), snap, v, level) + OtherEntries(v, level, in0, in1)
    ensures var p, ins, outputs := c.process, Numbers(in0) + Numbers(in1), OutputTables(outs, c.process.next);
      var c' := Built(c, ins, outputs, snap, p.next + |outs|);
      c'.process.Up? && Compacts(c'.disk, c'.process, ins, outputs.Keys, snap)
  {
    var p, ins, outputs := c.process, Numbers(in0) + Numbers(in1), OutputTables(outs, c.process.next);
    var c' := Built(c, ins, outputs, snap, p.next + |outs|);
    hide *;
    BuiltParts(c, ins, outputs, snap, p.next + |outs|);
    OutputNumbers(outs, p.next);
    ReplacedHeld(c.disk.tables, p.live, v, level, in0, in1, outs, p.next, r);
    InputsLive(c.disk.tables, p.live, v, level, in0, in1, p.next);
    WrittenBeside(c.disk.tables, p.live, v, outs, p.next);
    HeldEntries(c'.disk.tables, p.live - ins + outputs.Keys, r);
    HeldEntries(c'.disk.tables, p.live, v);
    Database.CompactedSubset(v, level, in0, in1, snap, r);
    ReadsOfCompacted(v, level, in0, in1, snap, r);
    SameReadsIs(snap, v, r);
    MakeCompacts(c'.disk, c'.process, ins, outputs.Keys, snap);
  }

  lemma BuiltParts(c: System, ins: set<nat>, outputs: map<nat, set<Entry>>, snap: nat, next: nat)
    requires c.process.Up?
    ensures var c' := Built(c, ins, outputs, snap, next);
      && c'.process.Up? && c'.process.live == c.process.live && c'.process.next == next
      && c'.disk.tables == c.disk.tables + outputs
  {
  }

  lemma SameReadsIs(snap: nat, v: Version, r: Version)
    ensures SameReadsFrom(snap, v, r) <==> SameReads(VersionEntries(r), VersionEntries(v), snap)
  {
  }

  lemma MakeCompacts(d: Disk, p: Process, ins: set<nat>, outs: set<nat>, snap: nat)
    requires p.Up? && ins <= p.live && outs !! p.live && outs <= d.tables.Keys && forall n | n in outs :: n < p.next
    requires TableEntries(d.tables, p.live - ins + outs) <= TableEntries(d.tables, p.live)
    requires SameReads(TableEntries(d.tables, p.live - ins + outs), TableEntries(d.tables, p.live), snap)
    ensures Compacts(d, p, ins, outs, snap)
  {
  }

  lemma InputsLive(tables: map<nat, set<Entry>>, live: set<nat>, v: Version, level: nat, in0: seq<File>, in1: seq<File>, next: nat)
    requires |v.levels| == NUM_LEVELS && level + 1 < NUM_LEVELS && GoodInputs(v, level, in0, in1)
    requires Holds(tables, live, v) && NumbersBelow(v, next)
    ensures Numbers(in0) + Numbers(in1) <= live && forall n | n in live :: n < next
  {
    NextInputsAreNextFiles(v, level, in0, in1);
    LevelInputsAreFiles(v, level, in0, in1);
    hide GoodInputs;
    assert forall f | f in in0 || f in in1 :: Held(tables, live, f);
  }

  /** The version that was there is still on disk beside the outputs. */
  lemma WrittenBeside(tables: map<nat, set<Entry>>, live: set<nat>, v: Version, outs: seq<File>, first: nat)
    requires Holds(tables, live, v) && NumbersBelow(v, first) && Numbered(outs, first)
    ensures Holds(tables + OutputTables(outs, first), live, v)
    ensures OutputTables(outs, first).Keys !! live && OutputTables(outs, first).Keys <= (tables + OutputTables(outs, first)).Keys
  {
    hide OutputTables;
    forall l, f | 0 <= l < |v.levels| && f in v.levels[l] ensures Held(tables + OutputTables(outs, first), live, f) {
      FileHeld(tables, live, v, l, f);
      OldHeld(tables, outs, first, f.number);
    }
    OutputNumbers(outs, first);
  }
}
