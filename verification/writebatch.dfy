/** Write batches as bytes (write_batch.cc): a sequence number, a count and the
    records, built by Put, Delete and Append and taken apart by Iterate. */
module WriteBatches {
  import opened DbFormat
  import opened Coding
  import Comparator
  import MemTables

  const HEADER := 12

  datatype BatchOp = Put(key: Bytes, value: Bytes) | Delete(key: Bytes)

  datatype Status = OK | TooSmall | BadPut | BadDelete | UnknownTag | WrongCount

  predicate Sized(op: BatchOp) {
    |op.key| + 8 < LIMIT32 && (op.Put? ==> |op.value| < LIMIT32)
  }

  function RecordOf(op: BatchOp): Bytes {
    match op
    case Put(key, value) => [1] + LengthPrefixed(key) + LengthPrefixed(value)
    case Delete(key) => [0] + LengthPrefixed(key)
  }

  function Records(ops: seq<BatchOp>): Bytes {
    if ops == [] then [] else RecordOf(ops[0]) + Records(ops[1..])
  }

  /** The bytes of a batch. */
  function Rep(sequence: nat, ops: seq<BatchOp>): (r: Bytes)
    requires sequence < LIMIT64 && |ops| < LIMIT32
  {
    Layout(Fixed64(sequence), Fixed32(|ops|), Records(ops))
  }

  function Layout(sequence: Bytes, count: Bytes, records: Bytes): (r: Bytes)
    requires |sequence| == 8 && |count| == 4
    ensures |r| == HEADER + |records|
  {
    sequence + count + records
  }

  lemma LayoutParts(sequence: Bytes, count: Bytes, records: Bytes)
    requires |sequence| == 8 && |count| == 4
    ensures var r := Layout(sequence, count, records);
      r[..8] == sequence && r[8..HEADER] == count && r[HEADER..] == records
  {
  }

  /** A new count in the header, and more records at the end. */
  lemma LayoutExtends(r: Bytes, sequence: Bytes, count: Bytes, records: Bytes, more: Bytes, newCount: Bytes)
    requires |sequence| == 8 && |count| == 4 && |newCount| == 4 && r == Layout(sequence, count, records)
    ensures Layout(sequence, newCount, records + more) == Layout(r[..8], newCount, r[HEADER..]) + more
  {
    LayoutParts(sequence, count, records);
    assert sequence + newCount + (records + more) == sequence + newCount + records + more;
  }

  /** The bytes of a longer batch: a new count and more records. */
  lemma RepExtends(sequence: nat, ops: seq<BatchOp>, more: seq<BatchOp>)
    requires sequence < LIMIT64 && |ops| + |more| < LIMIT32
    ensures Rep(sequence, ops + more)
         == Layout(Rep(sequence, ops)[..8], Fixed32(|ops| + |more|), Rep(sequence, ops)[HEADER..]) + Records(more)
  {
    hide *;
    assert |ops + more| == |ops| + |more|;
    RepIs(sequence, ops);
    RepIs(sequence, ops + more);
    RecordsJoin(ops, more);
    LayoutExtends(Rep(sequence, ops), Fixed64(sequence), Fixed32(|ops|), Records(ops), Records(more), Fixed32(|ops| + |more|));
  }

  lemma RepIs(sequence: nat, ops: seq<BatchOp>)
    requires sequence < LIMIT64 && |ops| < LIMIT32
    ensures Rep(sequence, ops) == Layout(Fixed64(sequence), Fixed32(|ops|), Records(ops))
  {
  }

  lemma {:induction false} RecordsJoin(a: seq<BatchOp>, b: seq<BatchOp>)
    ensures Records(a + b) == Records(a) + Records(b)
  {
    RecordsStep(a);
    RecordsStep(a + b);
    hide Records, RecordOf;
    if a == [] {
      assert [] + b == b && [] + Records(b) == Records(b);
    } else {
      RecordsJoin(a[1..], b);
      assert (a + b)[1..] == a[1..] + b;
      assert RecordOf(a[0]) + (Records(a[1..]) + Records(b)) == RecordOf(a[0]) + Records(a[1..]) + Records(b);
    }
  }

  lemma RecordsStep(ops: seq<BatchOp>)
    ensures Records(ops) == if ops == [] then [] else RecordOf(ops[0]) + Records(ops[1..])
  {
  }

  /** A put and a deletion with sequence number 100. */
  lemma BatchBytes()
    ensures Rep(100, [Put([0x61], [0x62]), Delete([0x63])])
         == [100, 0, 0, 0, 0, 0, 0, 0, 2, 0, 0, 0, 1, 1, 0x61, 1, 0x62, 0, 1, 0x63]
  {
    ShortPrefix([0x61]);
    ShortPrefix([0x62]);
    ShortPrefix([0x63]);
    var ops := [Put([0x61], [0x62]), Delete([0x63])];
    assert ops[1..] == [Delete([0x63])] && ops[1..][1..] == [];
    assert Fixed64(100) == [100, 0, 0, 0, 0, 0, 0, 0] && Fixed32(2) == [2, 0, 0, 0];
    hide LengthPrefixed, Fixed64, Fixed32;
    assert Records(ops[1..]) == [0, 1, 0x63] + [];
    assert Records(ops) == [1, 1, 0x61, 1, 0x62] + [0, 1, 0x63];
  }

  datatype Parsed = Bad(status: Status) | One(op: BatchOp, rest: Bytes)

  /** The first record. */
  function ParseOne(s: Bytes): (r: Parsed)
    requires s != []
    ensures r.One? ==> |r.rest| < |s|
  {
    var key := GetLengthPrefixed(s[1..]);
    if s[0] == 1 then
      if key.None? then Bad(BadPut)
      else
        var value := GetLengthPrefixed(s[1..][key.value.1..]);
        if value.None? then Bad(BadPut) else One(Put(key.value.0, value.value.0), s[1..][key.value.1..][value.value.1..])
    else if s[0] == 0 then
      if key.None? then Bad(BadDelete) else One(Delete(key.value.0), s[1..][key.value.1..])
    else Bad(UnknownTag)
  }

  /** The operations up to the first malformed record, and what is wrong there. */
  function Parse(s: Bytes): (r: (seq<BatchOp>, Status))
    decreases |s|
  {
    if s == [] then ([], OK)
    else
      match ParseOne(s)
      case Bad(status) => ([], status)
      case One(op, rest) => ([op] + Parse(rest).0, Parse(rest).1)
  }

  /** One record in front of others. */
  lemma ParseFirst(op: BatchOp, rest: Bytes)
    requires Sized(op)
    ensures RecordOf(op) + rest != [] && ParseOne(RecordOf(op) + rest) == One(op, rest)
  {
    var s := RecordOf(op) + rest;
    var k := LengthPrefixed(op.key);
    hide GetLengthPrefixed, LengthPrefixed;
    match op {
      case Put(key, value) =>
        var v := LengthPrefixed(value);
        LengthPrefixedRoundTrip(key, v + rest);
        LengthPrefixedRoundTrip(value, rest);
        assert s[1..] == k + (v + rest);
      case Delete(key) =>
        LengthPrefixedRoundTrip(key, rest);
        assert s[1..] == k + rest;
    }
  }

  lemma {:induction false} ParseRoundTrip(ops: seq<BatchOp>)
    requires forall op | op in ops :: Sized(op)
    ensures Parse(Records(ops)) == (ops, OK)
  {
    if ops != [] {
      hide ParseOne, RecordOf, Sized;
      ParseRoundTrip(ops[1..]);
      ParseFirst(ops[0], Records(ops[1..]));
      assert ops == [ops[0]] + ops[1..];
    }
  }

  // ----- Batches cut short -----

  /** How many of the records are whole within the first n bytes. */
  function Whole(ops: seq<BatchOp>, n: nat): (k: nat)
    ensures k <= |ops|
  {
    if ops == [] || n < |RecordOf(ops[0])| then 0 else 1 + Whole(ops[1..], n - |RecordOf(ops[0])|)
  }

  lemma DeleteCut(key: Bytes, n: nat)
    requires |key| < LIMIT32 && 0 < n <= |LengthPrefixed(key)|
    ensures ParseOne(([0] + LengthPrefixed(key))[..n]) == Bad(BadDelete)
    ensures ParseOne(([1] + LengthPrefixed(key))[..n]) == Bad(BadPut)
  {
    hide GetLengthPrefixed, LengthPrefixed;
    var k := LengthPrefixed(key);
    assert ([0] + k)[..n][1..] == k[..n - 1] && ([1] + k)[..n][1..] == k[..n - 1];
    LengthPrefixedCut(key, n - 1);
  }

  lemma PutCut(key: Bytes, value: Bytes, m: nat)
    requires |key| < LIMIT32 && |value| < LIMIT32 && m < |LengthPrefixed(value)|
    ensures ParseOne([1] + (LengthPrefixed(key) + LengthPrefixed(value)[..m])) == Bad(BadPut)
  {
    hide GetLengthPrefixed, LengthPrefixed;
    var k, v := LengthPrefixed(key), LengthPrefixed(value)[..m];
    assert ([1] + (k + v))[1..] == k + v;
    LengthPrefixedRoundTrip(key, v);
    assert (k + v)[|k|..] == v;
    LengthPrefixedCut(value, m);
  }

  /** A record that was cut off is refused as what it was going to be. */
  lemma RecordCut(op: BatchOp, n: nat)
    requires Sized(op) && 0 < n < |RecordOf(op)|
    ensures ParseOne(RecordOf(op)[..n]) == Bad(if op.Put? then BadPut else BadDelete)
  {
    var k := LengthPrefixed(op.key);
    hide ParseOne, GetLengthPrefixed, LengthPrefixed;
    if n <= |k| {
      DeleteCut(op.key, n);
      assert RecordOf(op)[..n] == ([RecordOf(op)[0]] + k)[..n];
    } else if op.Put? {
      var m := n - 1 - |k|;
      PutCut(op.key, op.value, m);
      assert RecordOf(op)[..n] == [1] + (k + LengthPrefixed(op.value)[..m]);
    }
  }

  /** What is wrong after k whole records, n bytes into them. */
  function CutStatus(ops: seq<BatchOp>, k: nat, n: nat): Status
    requires k <= |ops|
  {
    if k == |ops| || n == |Records(ops[..k])| then OK else if ops[k].Put? then BadPut else BadDelete
  }

  lemma CutStatusNext(ops: seq<BatchOp>, k: nat, n: nat)
    requires ops != [] && k < |ops| && n >= |RecordOf(ops[0])|
    ensures CutStatus(ops, k + 1, n) == CutStatus(ops[1..], k, n - |RecordOf(ops[0])|)
    ensures ops[..k + 1] == [ops[0]] + ops[1..][..k]
  {
    assert ops[..k + 1][1..] == ops[1..][..k];
    RecordsStep(ops[..k + 1]);
    hide Records, RecordOf;
  }

  /** Records cut off anywhere: the whole ones are handed over, and the rest of
      one that is not whole is refused. */
  lemma {:induction false} RecordsCut(ops: seq<BatchOp>, n: nat)
    requires (forall op | op in ops :: Sized(op)) && n <= |Records(ops)|
    ensures Parse(Records(ops)[..n]) == (ops[..Whole(ops, n)], CutStatus(ops, Whole(ops, n), n))
  {
    RecordsStep(ops);
    hide ParseOne, RecordOf, Sized, CutStatus, Records;
    if ops == [] {
      assert Records(ops)[..n] == [];
      CutStatusEnds(ops, n);
    } else {
      var r, more := RecordOf(ops[0]), Records(ops[1..]);
      RecordIsLong(ops[0]);
      if n < |r| {
        assert Records(ops)[..n] == r[..n];
        CutStatusFirst(ops, n);
        if n > 0 {
          RecordCut(ops[0], n);
        }
      } else {
        var rest := more[..n - |r|];
        assert Records(ops)[..n] == r + rest;
        ParseFirst(ops[0], rest);
        RecordsCut(ops[1..], n - |r|);
        CutStatusNext(ops, Whole(ops[1..], n - |r|), n);
      }
    }
  }

  /** Whole records, and then one that is neither a put nor a deletion. */
  lemma {:induction false} OtherTagStops(ops: seq<BatchOp>, tag: byte, rest: Bytes)
    requires (forall op | op in ops :: Sized(op)) && tag > 1
    ensures Parse(Records(ops) + ([tag] + rest)) == (ops, UnknownTag)
  {
    var bad := [tag] + rest;
    RecordsStep(ops);
    hide *;
    if ops == [] {
      assert Records(ops) + bad == bad;
      BadTag(tag, rest);
    } else {
      var more := Records(ops[1..]) + bad;
      assert Records(ops) + bad == RecordOf(ops[0]) + more;
      ParseFirst(ops[0], more);
      OtherTagStops(ops[1..], tag, rest);
      FirstParsed(ops[0], more);
      assert ops == [ops[0]] + ops[1..];
    }
  }

  lemma BadTag(tag: byte, rest: Bytes)
    requires tag > 1
    ensures Parse([tag] + rest) == ([], UnknownTag)
  {
  }

  lemma FirstParsed(op: BatchOp, rest: Bytes)
    requires ParseOne(RecordOf(op) + rest) == One(op, rest) && RecordOf(op) + rest != []
    ensures Parse(RecordOf(op) + rest) == ([op] + Parse(rest).0, Parse(rest).1)
  {
    hide ParseOne, RecordOf;
  }

  lemma CutStatusEnds(ops: seq<BatchOp>, n: nat)
    ensures CutStatus(ops, |ops|, n) == OK
  {
  }

  lemma CutStatusFirst(ops: seq<BatchOp>, n: nat)
    requires ops != []
    ensures CutStatus(ops, 0, n) == if n == 0 then OK else if ops[0].Put? then BadPut else BadDelete
  {
    assert Records(ops[..0]) == [];
  }

  lemma RecordIsLong(op: BatchOp)
    ensures |RecordOf(op)| > 0
  {
  }

  /** What has been handled and what is still to come, together. */
  function Joined(handled: seq<BatchOp>, rest: (seq<BatchOp>, Status)): (seq<BatchOp>, Status) {
    (handled + rest.0, rest.1)
  }

  lemma ParseStep(handled: seq<BatchOp>, input: Bytes)
    requires input != []
    ensures match ParseOne(input)
      case Bad(problem) => Joined(handled, Parse(input)) == (handled, problem)
      case One(op, rest) => Joined(handled, Parse(input)) == Joined(handled + [op], Parse(rest))
  {
    hide ParseOne;
    match ParseOne(input) {
      case Bad(problem) =>
        assert handled + [] == handled;
      case One(op, rest) =>
        assert handled + ([op] + Parse(rest).0) == handled + [op] + Parse(rest).0;
    }
  }

  lemma ParseEnds(handled: seq<BatchOp>, input: Bytes)
    ensures Joined([], Parse(input)) == Parse(input)
    ensures Joined(handled, Parse([])) == (handled, OK)
  {
    assert [] + Parse(input).0 == Parse(input).0 && handled + [] == handled;
  }

  class WriteBatch {
    var rep: Bytes
    ghost var sequence: nat
    ghost var ops: seq<BatchOp>

    /** A count is an int. */
    ghost predicate Valid()
      reads this
    {
      && sequence < LIMIT64 && |ops| < 0x8000_0000
      && (forall op | op in ops :: Sized(op))
      && rep == Rep(sequence, ops)
    }

    /** Clear() */
    constructor ()
      ensures Valid() && sequence == 0 && ops == []
    {
      rep := Layout(Fixed64(0), Fixed32(0), []);
      sequence, ops := 0, [];
    }

    function Count(): nat
      requires |rep| >= HEADER
      reads this
    {
      DecodeFixed32(rep[8..HEADER])
    }

    function Sequence(): nat
      requires |rep| >= HEADER
      reads this
    {
      DecodeFixed64(rep[..8])
    }

    lemma HeaderReads()
      requires Valid()
      ensures Count() == |ops| && Sequence() == sequence
    {
      LayoutParts(Fixed64(sequence), Fixed32(|ops|), Records(ops));
      hide Fixed32, Fixed64, DecodeFixed32, DecodeFixed64, Records, Layout;
      Fixed64RoundTrip(sequence);
      Fixed32RoundTrip(|ops|);
    }

    method SetCount(n: nat)
      requires |rep| >= HEADER && n < LIMIT32
      modifies this`rep
      ensures rep == Layout(old(rep)[..8], Fixed32(n), old(rep)[HEADER..])
    {
      rep := Layout(rep[..8], Fixed32(n), rep[HEADER..]);
    }

    method SetSequence(s: nat)
      requires Valid() && s < LIMIT64
      modifies this
      ensures Valid() && sequence == s && ops == old(ops)
    {
      hide Fixed32, Fixed64, Records;
      rep := Layout(Fixed64(s), rep[8..HEADER], rep[HEADER..]);
      sequence := s;
    }

    /** WriteBatchInternal::SetContents, with the bytes of a batch. */
    method SetContents(contents: Bytes, ghost s: nat, ghost writes: seq<BatchOp>)
      requires s < LIMIT64 && |writes| < 0x8000_0000 && (forall op | op in writes :: Sized(op))
      requires contents == Rep(s, writes)
      modifies this
      ensures Valid() && sequence == s && ops == writes && rep == contents
    {
      rep := contents;
      sequence, ops := s, writes;
    }

    /** Put and Delete: the count first, then the record. */
    method Add(op: BatchOp)
      requires Valid() && Sized(op) && |ops| + 1 < 0x8000_0000
      modifies this
      ensures Valid() && sequence == old(sequence) && ops == old(ops) + [op]
    {
      HeaderReads();
      RepExtends(sequence, ops, [op]);
      assert Records([op]) == RecordOf(op) by {
        assert RecordOf(op) + [] == RecordOf(op);
      }
      hide Fixed32, Fixed64, DecodeFixed32, LengthPrefixed, Layout, Rep, Records;
      SetCount(Count() + 1);
      PushRecord(op);
      ops := ops + [op];
    }

    method PushRecord(op: BatchOp)
      modifies this`rep
      ensures rep == old(rep) + RecordOf(op)
    {
      hide LengthPrefixed;
      match op {
        case Put(key, value) =>
          rep := rep + [1] + LengthPrefixed(key) + LengthPrefixed(value);
        case Delete(key) =>
          rep := rep + [0] + LengthPrefixed(key);
      }
    }

    /** WriteBatchInternal::Append: this is what a group commit concatenates. */
    method Append(source: WriteBatch)
      requires Valid() && source.Valid() && |ops| + |source.ops| < 0x8000_0000
      modifies this
      ensures Valid() && sequence == old(sequence) && ops == old(ops) + old(source.ops)
    {
      HeaderReads();
      source.HeaderReads();
      RepExtends(sequence, ops, source.ops);
      ghost var more := source.ops;
      assert source.rep[HEADER..] == Records(more);
      hide Fixed32, Fixed64, DecodeFixed32, Layout, Rep, Records, Sized;
      var tail := source.rep[HEADER..];
      SetCount(Count() + source.Count());
      rep := rep + tail;
      ops := ops + more;
    }

    /** Iterate, on any contents: the operations handed to the handler, and the
        status. */
    method Iterate() returns (status: Status, handled: seq<BatchOp>)
      ensures |rep| < HEADER ==> status == TooSmall && handled == []
      ensures |rep| >= HEADER ==> handled == Parse(rep[HEADER..]).0
      ensures |rep| >= HEADER ==>
        status == if Parse(rep[HEADER..]).1 == OK && |handled| != Count() then WrongCount else Parse(rep[HEADER..]).1
      ensures Valid() ==> status == OK && handled == ops
    {
      handled := [];
      if |rep| < HEADER {
        return TooSmall, [];
      }
      ghost var whole := Parse(rep[HEADER..]);
      if Valid() {
        ParseRoundTrip(ops);
        HeaderReads();
      }
      var input := rep[HEADER..];
      var found := 0;
      hide Valid, Count, Parse, ParseOne, Joined;
      ParseEnds([], input);
      while input != []
        invariant found == |handled|
        invariant whole == Joined(handled, Parse(input))
        decreases |input|
      {
        found := found + 1;
        ParseStep(handled, input);
        match ParseOne(input) {
          case Bad(problem) =>
            return problem, handled;
          case One(op, rest) =>
            input := rest;
            handled := handled + [op];
        }
      }
      ParseEnds(handled, input);
      status := if found != Count() then WrongCount else OK;
    }
  }

  // ----- Into the memtable -----

  /** The operation on the user keys of the LSM modules. */
  ghost function OpOf(op: BatchOp): Op {
    match op
    case Put(key, value) => PutOp(Comparator.Embed(key), value)
    case Delete(key) => DeleteOp(Comparator.Embed(key))
  }

  lemma EntryNumber(op: BatchOp, seqno: nat)
    ensures OpEntry(OpOf(op), seqno).key.seqno == seqno
  {
  }

  /** The entries of a batch: consecutive sequence numbers from the first. */
  ghost function BatchEntries(ops: seq<BatchOp>, sequence: nat): set<Entry> {
    set i | 0 <= i < |ops| :: OpEntry(OpOf(ops[i]), sequence + i)
  }

  lemma NoEntries(sequence: nat)
    ensures BatchEntries([], sequence) == {}
  {
  }

  lemma OneMoreEntry(ops: seq<BatchOp>, sequence: nat, i: nat)
    requires i < |ops|
    ensures BatchEntries(ops[..i + 1], sequence) == BatchEntries(ops[..i], sequence) + {OpEntry(OpOf(ops[i]), sequence + i)}
  {
    hide OpOf;
    var shorter, longer := ops[..i], ops[..i + 1];
    assert forall k | 0 <= k < i :: shorter[k] == longer[k];
    assert longer[i] == ops[i];
  }

  lemma UnionAssociates(A: set<Entry>, B: set<Entry>, C: set<Entry>)
    ensures A + B + C == A + (B + C)
  {
  }

  /** None of the set has the internal key that an operation of the batch will get. */
  ghost predicate Free(E: set<Entry>, ops: seq<BatchOp>, sequence: nat) {
    forall e, i | e in E && 0 <= i < |ops| :: e.key != OpEntry(OpOf(ops[i]), sequence + i).key
  }

  /** Each operation of a batch gets a key of its own. */
  lemma FreeNext(E: set<Entry>, ops: seq<BatchOp>, sequence: nat, i: nat)
    requires Free(E, ops, sequence) && i < |ops|
    ensures forall e | e in E + BatchEntries(ops[..i], sequence) :: e.key != OpEntry(OpOf(ops[i]), sequence + i).key
  {
    EntryNumber(ops[i], sequence + i);
    forall e | e in BatchEntries(ops[..i], sequence) ensures e.key.seqno < sequence + i {
      var k :| 0 <= k < i && OpEntry(OpOf(ops[..i][k]), sequence + k) == e;
      EntryNumber(ops[..i][k], sequence + k);
    }
  }

  lemma SizedOps(b: WriteBatch)
    requires b.Valid()
    ensures |b.rep| >= HEADER && forall op | op in b.ops :: Sized(op)
  {
    hide Sized, Records;
  }

  /** MemTableInserter's Put and Delete. */
  method InsertOne(mem: MemTables.MemTable, op: BatchOp, sequence: nat)
    requires mem.Valid() && Sized(op) && sequence <= MAX_SEQUENCE
    requires forall e | e in mem.Contents() :: e.key != OpEntry(OpOf(op), sequence).key
    modifies mem
    ensures mem.Valid() && mem.Contents() == old(mem.Contents()) + {OpEntry(OpOf(op), sequence)}
  {
    hide Comparator.Embed;
    match op {
      case Put(key, value) =>
        mem.Add(sequence, TypeValue, key, value);
      case Delete(key) =>
        mem.Add(sequence, TypeDeletion, key, []);
    }
  }

  /** The next operation of those that were handed over. */
  method InsertNext(mem: MemTables.MemTable, handled: seq<BatchOp>, i: nat, sequence: nat, ghost before: set<Entry>)
    requires mem.Valid() && i < |handled| && sequence + i <= MAX_SEQUENCE && forall op | op in handled :: Sized(op)
    requires mem.Contents() == before + BatchEntries(handled[..i], sequence) && Free(before, handled, sequence)
    modifies mem
    ensures mem.Valid() && mem.Contents() == before + BatchEntries(handled[..i + 1], sequence)
  {
    hide *;
    ghost var e := OpEntry(OpOf(handled[i]), sequence + i);
    OneMoreEntry(handled, sequence, i);
    FreeNext(before, handled, sequence, i);
    UnionAssociates(before, BatchEntries(handled[..i], sequence), {e});
    InsertOne(mem, handled[i], sequence + i);
  }

  method InsertAll(mem: MemTables.MemTable, handled: seq<BatchOp>, sequence: nat)
    requires mem.Valid() && sequence + |handled| <= MAX_SEQUENCE && forall op | op in handled :: Sized(op)
    requires Free(mem.Contents(), handled, sequence)
    modifies mem
    ensures mem.Valid() && mem.Contents() == old(mem.Contents()) + BatchEntries(handled, sequence)
  {
    hide *;
    ghost var before := mem.Contents();
    NoEntries(sequence);
    assert handled[..0] == [] && handled[..|handled|] == handled;
    for i := 0 to |handled|
      modifies mem
      invariant mem.Valid() && mem.Contents() == before + BatchEntries(handled[..i], sequence)
    {
      InsertNext(mem, handled, i, sequence, before);
    }
  }

  // ----- What a client sees of it -----

  /** What the last operation on a user key leaves. */
  function LastWrite(ops: seq<BatchOp>, user: Bytes): MemTables.GetResult {
    if ops == [] then MemTables.Missing
    else
      var op := ops[|ops| - 1];
      if op.key == user then WriteOf(op) else LastWrite(ops[..|ops| - 1], user)
  }

  function WriteOf(op: BatchOp): MemTables.GetResult {
    if op.Put? then MemTables.Found(op.value) else MemTables.Deleted
  }

  /** What a later write, if there is one, makes of what was seen before. */
  function Over(before: MemTables.GetResult, write: MemTables.GetResult): MemTables.GetResult {
    if write.Missing? then before else write
  }

  ghost predicate Below(E: set<Entry>, sequence: nat) {
    forall e | e in E :: e.key.seqno < sequence
  }

  lemma OneMoreSeen(E: set<Entry>, op: BatchOp, next: nat, user: Bytes, s: nat)
    requires Unique(E) && Below(E, next)
    ensures var F := E + {OpEntry(OpOf(op), next)};
      && Unique(F) && Below(F, next + 1)
      && (next <= s && op.key == user ==> MemTables.Seen(F, user, s) == WriteOf(op))
      && (next <= s && op.key != user ==> MemTables.Seen(F, user, s) == MemTables.Seen(E, user, s))
      && (s < next ==> MemTables.Seen(F, user, s) == MemTables.Seen(E, user, s))
  {
    var e := OpEntry(OpOf(op), next);
    var F, k := E + {e}, Comparator.Embed(user);
    Comparator.EmbedInOrder(op.key, user);
    hide Comparator.Embed, MemTables.Seen;
    if op.key == user && next <= s {
      assert Newest(F, k, s, e);
      MemTables.SeenNewest(F, user, s, e);
    } else {
      assert !Visible(e, k, s);
      assert forall o :: Newest(F, k, s, o) <==> Newest(E, k, s, o);
      MemTables.SeenAlike(F, E, user, s, s);
    }
  }

  /** After a batch, at or above its last sequence number, every user key is as
      the last operation on it left it, or as it was; below its first one,
      nothing has changed. */
  lemma {:induction false} BatchSeen(E: set<Entry>, ops: seq<BatchOp>, sequence: nat, user: Bytes, s: nat)
    requires Unique(E) && Below(E, sequence)
    ensures var F := E + BatchEntries(ops, sequence);
      && Unique(F) && Below(F, sequence + |ops|)
      && (sequence + |ops| <= s + 1 ==> MemTables.Seen(F, user, s) == Over(MemTables.Seen(E, user, s), LastWrite(ops, user)))
      && (s < sequence ==> MemTables.Seen(F, user, s) == MemTables.Seen(E, user, s))
  {
    hide *;
    if ops == [] {
      NoEntries(sequence);
      NoWrite(MemTables.Seen(E, user, s), user);
      assert E + {} == E;
    } else {
      var n := |ops| - 1;
      var before, e := BatchEntries(ops[..n], sequence), OpEntry(OpOf(ops[n]), sequence + n);
      BatchSeen(E, ops[..n], sequence, user, s);
      OneMoreEntry(ops, sequence, n);
      assert ops[..n + 1] == ops;
      assert (E + before) + {e} == E + BatchEntries(ops, sequence);
      OneMoreSeen(E + before, ops[n], sequence + n, user, s);
      LastWriteNext(ops, user);
      OverIs(MemTables.Seen(E, user, s), ops[n]);
    }
  }

  lemma NoWrite(before: MemTables.GetResult, user: Bytes)
    ensures Over(before, LastWrite([], user)) == before
  {
  }

  lemma LastWriteNext(ops: seq<BatchOp>, user: Bytes)
    requires ops != []
    ensures var op := ops[|ops| - 1];
      LastWrite(ops, user) == if op.key == user then WriteOf(op) else LastWrite(ops[..|ops| - 1], user)
  {
  }

  lemma OverIs(before: MemTables.GetResult, op: BatchOp)
    ensures Over(before, WriteOf(op)) == WriteOf(op)
  {
  }

  /** InsertInto, then Get: what a client of the memtable sees of a batch that is
      newer than everything in it. */
  method InsertAndGet(b: WriteBatch, mem: MemTables.MemTable, user: Bytes) returns (before: MemTables.GetResult, result: MemTables.GetResult)
    requires b.Valid() && mem.Valid() && 0 < b.sequence && b.sequence + |b.ops| <= MAX_SEQUENCE && |user| + 8 < LIMIT32
    requires Unique(mem.Contents()) && Below(mem.Contents(), b.sequence)
    modifies mem
    ensures result == Over(before, LastWrite(b.ops, user))
  {
    hide *;
    SizedOps(b);
    b.HeaderReads();
    var last := b.Sequence() + b.Count() - 1;
    ghost var old_ := mem.Contents();
    before := mem.Get(user, last);
    BelowIsFree(old_, b.ops, b.sequence);
    var status := InsertInto(b, mem);
    BatchSeen(old_, b.ops, b.sequence, user, last);
    result := mem.Get(user, last);
  }

  lemma BelowIsFree(E: set<Entry>, ops: seq<BatchOp>, sequence: nat)
    requires Below(E, sequence)
    ensures Free(E, ops, sequence)
  {
    forall i | 0 <= i < |ops| ensures OpEntry(OpOf(ops[i]), sequence + i).key.seqno == sequence + i {
      EntryNumber(ops[i], sequence + i);
    }
    hide OpOf;
  }

  /** WriteBatchInternal::InsertInto: all of the batch is inserted, each
      operation once and in order.  As for the memtable's Add, nothing equal to
      one of its keys may be there yet. */
  method InsertInto(b: WriteBatch, mem: MemTables.MemTable) returns (status: Status)
    requires b.Valid() && mem.Valid() && b.sequence + |b.ops| <= MAX_SEQUENCE
    requires Free(mem.Contents(), b.ops, b.sequence)
    modifies mem
    ensures status == OK && mem.Valid()
    ensures mem.Contents() == old(mem.Contents()) + BatchEntries(b.ops, b.sequence)
    ensures Unique(old(mem.Contents())) && Below(old(mem.Contents()), b.sequence) ==>
      forall user, s: nat | b.sequence + |b.ops| <= s + 1 ::
        MemTables.Seen(mem.Contents(), user, s) == Over(MemTables.Seen(old(mem.Contents()), user, s), LastWrite(b.ops, user))
  {
    hide *;
    ghost var old_ := mem.Contents();
    if Unique(old_) && Below(old_, b.sequence) {
      forall user, s: nat | b.sequence + |b.ops| <= s + 1
        ensures MemTables.Seen(old_ + BatchEntries(b.ops, b.sequence), user, s) == Over(MemTables.Seen(old_, user, s), LastWrite(b.ops, user))
      {
        BatchSeen(old_, b.ops, b.sequence, user, s);
      }
    }
    SizedOps(b);
    var handled;
    status, handled := b.Iterate();
    b.HeaderReads();
    var sequence := b.Sequence();
    InsertAll(mem, handled, sequence);
  }
}
