/** The skip list: one writer, any number of readers without locks.  A step is a
    single load or a single store of a pointer.

    Keys are distinct, so a node is named by its key. */
module SkipList {

  type Key = real

  const MAX_HEIGHT := 12

  datatype Ref = Head | Null | At(key: Key)

  /** The memory: the next pointers of every node by level, and max_height_.
      `levels` says which nodes have been linked in at each level. */
  datatype List = List(next: map<Ref, seq<Ref>>, maxHeight: nat, levels: seq<set<Key>>)

  /** A search bound: FindLast searches for the end. */
  datatype Bound = Key(key: Key) | End

  predicate Below(k: Key, b: Bound) {
    b.End? || k < b.key
  }

  /** r lies before a node of key k. */
  predicate Precedes(r: Ref, k: Key) {
    r.Head? || (r.At? && r.key < k)
  }

  /** n is the first node of S after r. */
  ghost predicate IsNext(S: set<Key>, r: Ref, n: Ref) {
    && !n.Head?
    && (n.At? ==> n.key in S && Precedes(r, n.key))
    && forall k | k in S && Precedes(r, k) :: n.At? && n.key <= k
  }

  /** p is the last node of S before key. */
  ghost predicate IsPrev(S: set<Key>, key: Key, p: Ref) {
    && Precedes(p, key)
    && (p.At? ==> p.key in S)
    && forall k | k in S && Precedes(p, k) :: key <= k
  }

  ghost predicate OnLevel(s: List, l: nat, r: Ref)
    requires l < |s.levels|
  {
    r.Head? || (r.At? && r.key in s.levels[l])
  }

  /** Level l is the list of its nodes in order. */
  ghost predicate Linked(s: List, l: nat)
    requires l < |s.levels|
  {
    forall r | OnLevel(s, l, r) :: r in s.next && l < |s.next[r]| && IsNext(s.levels[l], r, s.next[r][l])
  }

  /** Each level is a sorted sublist of the one below. */
  ghost predicate ListInv(s: List) {
    && |s.levels| == MAX_HEIGHT
    && 1 <= s.maxHeight <= MAX_HEIGHT
    && Head in s.next && |s.next[Head]| == MAX_HEIGHT
    && (forall l | 0 <= l < MAX_HEIGHT :: Linked(s, l))
    && (forall l | 0 <= l < MAX_HEIGHT - 1 :: s.levels[l + 1] <= s.levels[l])
    && forall l | s.maxHeight <= l < MAX_HEIGHT :: s.levels[l] == {}
  }

  function Load(s: List, r: Ref, l: nat): Ref {
    if r in s.next && l < |s.next[r]| then s.next[r][l] else Null
  }

  function Store(s: List, r: Ref, l: nat, n: Ref): List {
    if r in s.next && l < |s.next[r]| then s.(next := s.next[r := s.next[r][l := n]]) else s
  }

  // ----- Readers: FindGreaterOrEqual, FindLessThan, FindLast -----

  /** `start` is what was in the list when the search began.  The search ends
      between two nodes: FindGreaterOrEqual returns `result`, FindLessThan and
      FindLast return `before`. */
  datatype Reader =
    | Reading(target: Bound, x: Ref, level: nat, start: set<Key>)
    | Done(target: Bound, before: Ref, result: Ref, start: set<Key>)

  function BeginRead(s: List, target: Bound): Reader
    requires ListInv(s)
  {
    Reading(target, Head, s.maxHeight - 1, s.levels[0])
  }

  /** One load, and what the search makes of it. */
  function ReadStep(s: List, r: Reader): Reader
    requires r.Reading?
  {
    var next := Load(s, r.x, r.level);
    if next.At? && Below(next.key, r.target) then r.(x := next)
    else if r.level == 0 then Done(r.target, r.x, next, r.start)
    else r.(level := r.level - 1)
  }

  ghost predicate ReaderInv(s: List, r: Reader)
    requires ListInv(s)
  {
    r.start <= s.levels[0] &&
    match r
    case Reading(target, x, level, _) =>
      level < MAX_HEIGHT && OnLevel(s, level, x) && (x.At? ==> Below(x.key, target))
    case Done(_, _, _, _) => Found(s, r)
  }

  /** What a finished search guarantees, whatever was inserted meanwhile: it
      skipped no key that was there when it started, and what it returns is in
      the list, on the right side of the target. */
  ghost predicate Found(s: List, r: Reader)
    requires ListInv(s) && r.Done?
  {
    && !r.before.Null? && !r.result.Head?
    && (r.before.At? ==> r.before.key in s.levels[0] && Below(r.before.key, r.target))
    && (r.result.At? ==> r.result.key in s.levels[0] && !Below(r.result.key, r.target))
    && (forall k | k in r.start && !Below(k, r.target) :: r.result.At? && r.result.key <= k)
    && forall k | k in r.start && Below(k, r.target) :: r.before.At? && k <= r.before.key
  }

  lemma ReadStepKeeps(s: List, r: Reader)
    requires ListInv(s) && r.Reading? && ReaderInv(s, r)
    ensures ReaderInv(s, ReadStep(s, r))
  {
    assert Linked(s, r.level);
    var next := Load(s, r.x, r.level);
    assert IsNext(s.levels[r.level], r.x, next);
    if next.At? && Below(next.key, r.target) {
    } else if r.level > 0 {
      assert s.levels[r.level - 1 + 1] <= s.levels[r.level - 1];
    } else {
      forall k | k in r.start && !Below(k, r.target) ensures next.At? && next.key <= k {
        assert Precedes(r.x, k);
      }
    }
  }

  // ----- The writer: Insert -----

  /** `before` is what was in the list when Insert began. */
  datatype Writer =
    | Idle
    | Searching(key: Key, x: Ref, level: nat, prev: seq<Ref>, before: set<Key>)
    | Located(key: Key, prev: seq<Ref>, before: set<Key>)
    | Linking(key: Key, height: nat, i: nat, self: bool, prev: seq<Ref>, before: set<Key>)

  function BeginInsert(s: List, key: Key): Writer
    requires ListInv(s)
  {
    Searching(key, Head, s.maxHeight - 1, seq(MAX_HEIGHT, _ => Null), s.levels[0])
  }

  /** One load of the search for the predecessors. */
  function SearchStep(s: List, w: Writer): Writer
    requires w.Searching?
  {
    var next := Load(s, w.x, w.level);
    if next.At? && next.key < w.key then w.(x := next)
    else
      var prev := if w.level < |w.prev| then w.prev[w.level := w.x] else w.prev;
      if w.level == 0 then Located(w.key, prev, w.before)
      else w.(level := w.level - 1, prev := prev)
  }

  /** The new node gets a random height; max_height_ is raised if need be, and
      readers see that at once. */
  function Grow(s: List, w: Writer, height: nat): (List, Writer)
    requires w.Located? && |w.prev| == MAX_HEIGHT && height <= MAX_HEIGHT
  {
    var prev := seq(MAX_HEIGHT, i requires 0 <= i < MAX_HEIGHT => if s.maxHeight <= i < height then Head else w.prev[i]);
    var max := if height > s.maxHeight then height else s.maxHeight;
    (s.(maxHeight := max, next := s.next[At(w.key) := seq(height, _ => Null)]),
     Linking(w.key, height, 0, false, prev, w.before))
  }

  /** x->NoBarrier_SetNext(i, prev[i]->NoBarrier_Next(i)) */
  function LinkSelf(s: List, w: Writer): (List, Writer)
    requires w.Linking? && w.i < |w.prev|
  {
    (Store(s, At(w.key), w.i, Load(s, w.prev[w.i], w.i)), w.(self := true))
  }

  /** prev[i]->SetNext(i, x) */
  function Publish(s: List, w: Writer): (List, Writer)
    requires w.Linking? && w.i < |w.prev| && w.i < |s.levels|
  {
    var stored := Store(s, w.prev[w.i], w.i, At(w.key));
    (stored.(levels := stored.levels[w.i := stored.levels[w.i] + {w.key}]),
     if w.i + 1 == w.height then Idle else w.(i := w.i + 1, self := false))
  }

  ghost predicate WriterInv(s: List, w: Writer)
    requires ListInv(s)
  {
    match w
    case Idle => true
    case Searching(key, x, level, prev, before) =>
      && key !in s.levels[0] && before == s.levels[0]
      && level < s.maxHeight && |prev| == MAX_HEIGHT
      && OnLevel(s, level, x) && Precedes(x, key)
      && forall l | level < l < s.maxHeight :: IsPrev(s.levels[l], key, prev[l])
    case Located(key, prev, before) =>
      && key !in s.levels[0] && before == s.levels[0]
      && |prev| == MAX_HEIGHT
      && forall l | 0 <= l < s.maxHeight :: IsPrev(s.levels[l], key, prev[l])
    case Linking(key, height, i, self, prev, before) =>
      && i < height <= s.maxHeight && |prev| == MAX_HEIGHT
      && At(key) in s.next && |s.next[At(key)]| == height
      && key !in before && s.levels[0] == before + (if i > 0 then {key} else {})
      && (forall l | 0 <= l < i :: key in s.levels[l])
      && (forall l | i <= l < MAX_HEIGHT :: key !in s.levels[l])
      && (forall l | i <= l < height :: IsPrev(s.levels[l], key, prev[l]))
      && (self ==> s.next[At(key)][i] == Load(s, prev[i], i))
  }

  lemma SearchStepKeeps(s: List, w: Writer)
    requires ListInv(s) && w.Searching? && WriterInv(s, w)
    ensures WriterInv(s, SearchStep(s, w))
  {
    assert Linked(s, w.level);
    var next := Load(s, w.x, w.level);
    assert IsNext(s.levels[w.level], w.x, next);
    if next.At? && next.key < w.key {
    } else {
      assert w.key !in s.levels[w.level] by {
        LowestHasAll(s, w.level);
      }
      assert IsPrev(s.levels[w.level], w.key, w.x);
      if w.level > 0 {
        assert s.levels[w.level - 1 + 1] <= s.levels[w.level - 1];
      }
    }
  }

  lemma {:induction false} LowestHasAll(s: List, l: nat)
    requires ListInv(s) && l < MAX_HEIGHT
    ensures s.levels[l] <= s.levels[0]
  {
    if l > 0 {
      assert s.levels[l - 1 + 1] <= s.levels[l - 1];
      LowestHasAll(s, l - 1);
    }
  }

  predicate SameLink(s: List, s': List, l: nat, r: Ref) {
    && r in s.next && l < |s.next[r]| && r in s'.next && l < |s'.next[r]|
    && s'.next[r][l] == s.next[r][l]
  }

  /** Stores into the new node's own links, or of max_height_, change no level. */
  lemma UnseenStore(s: List, s': List)
    requires ListInv(s) && s'.levels == s.levels
    requires s.maxHeight <= s'.maxHeight <= MAX_HEIGHT
    requires Head in s'.next && |s'.next[Head]| == MAX_HEIGHT
    requires forall l, r | 0 <= l < MAX_HEIGHT && OnLevel(s, l, r) :: SameLink(s, s', l, r)
    ensures ListInv(s')
  {
    forall l | 0 <= l < MAX_HEIGHT ensures Linked(s', l) {
      assert Linked(s, l);
      forall r | OnLevel(s', l, r) ensures r in s'.next && l < |s'.next[r]| && IsNext(s'.levels[l], r, s'.next[r][l]) {
        assert OnLevel(s, l, r) && SameLink(s, s', l, r);
      }
    }
    forall l | s'.maxHeight <= l < MAX_HEIGHT ensures s'.levels[l] == {} {
      assert s.levels[l] == {};
    }
  }

  lemma GrowKeeps(s: List, w: Writer, height: nat)
    requires ListInv(s) && w.Located? && WriterInv(s, w) && 1 <= height <= MAX_HEIGHT
    ensures var (s', w') := Grow(s, w, height); ListInv(s') && WriterInv(s', w') && s'.levels == s.levels
  {
    var (s', w') := Grow(s, w, height);
    forall l | 0 <= l < MAX_HEIGHT ensures w.key !in s.levels[l] {
      LowestHasAll(s, l);
    }
    forall l, r | 0 <= l < MAX_HEIGHT && OnLevel(s, l, r) ensures SameLink(s, s', l, r) {
      assert Linked(s, l);
    }
    UnseenStore(s, s');
    forall l | 0 <= l < height ensures IsPrev(s.levels[l], w.key, w'.prev[l]) {
      if s.maxHeight <= l {
        assert s.levels[l] == {};
      }
    }
  }

  lemma LinkSelfKeeps(s: List, w: Writer)
    requires ListInv(s) && w.Linking? && WriterInv(s, w)
    ensures var (s', w') := LinkSelf(s, w); ListInv(s') && WriterInv(s', w') && s'.levels == s.levels
  {
    var (s', w') := LinkSelf(s, w);
    var key, i := w.key, w.i;
    assert IsPrev(s.levels[i], key, w.prev[i]);
    forall l, r | 0 <= l < MAX_HEIGHT && OnLevel(s, l, r) ensures SameLink(s, s', l, r) {
      assert Linked(s, l);
    }
    UnseenStore(s, s');
  }

  /** The store that links the new node into level i. */
  lemma PublishKeeps(s: List, w: Writer)
    requires ListInv(s) && w.Linking? && w.self && WriterInv(s, w)
    ensures var (s', w') := Publish(s, w);
      && ListInv(s') && WriterInv(s', w')
      && s'.levels[0] == s.levels[0] + {w.key}
      && forall l | 0 <= l < MAX_HEIGHT :: s.levels[l] <= s'.levels[l]
  {
    var (s', w') := Publish(s, w);
    var key, i, p := w.key, w.i, w.prev[w.i];
    assert IsPrev(s.levels[i], key, p);
    assert Linked(s, i) && OnLevel(s, i, p);
    PublishedElsewhere(s, w);
    assert Linked(s', i) by {
      forall r | OnLevel(s', i, r) ensures r in s'.next && i < |s'.next[r]| && IsNext(s'.levels[i], r, s'.next[r][i]) {
        if r == At(key) {
          NewNodeNext(s.levels[i], key, p, s.next[p][i]);
        } else {
          assert OnLevel(s, i, r);
          OldNodeNext(s.levels[i], key, p, r, s.next[r][i]);
        }
      }
    }
    forall l | 0 <= l < MAX_HEIGHT - 1 ensures s'.levels[l + 1] <= s'.levels[l] {
      assert s.levels[l + 1] <= s.levels[l];
    }
  }

  lemma PublishedElsewhere(s: List, w: Writer)
    requires ListInv(s) && w.Linking? && WriterInv(s, w)
    ensures forall l | 0 <= l < MAX_HEIGHT && l != w.i :: Linked(Publish(s, w).0, l)
  {
    var s' := Publish(s, w).0;
    forall l | 0 <= l < MAX_HEIGHT && l != w.i ensures Linked(s', l) {
      assert Linked(s, l);
      forall r | OnLevel(s', l, r) ensures r in s'.next && l < |s'.next[r]| && IsNext(s'.levels[l], r, s'.next[r][l]) {
        assert OnLevel(s, l, r);
      }
    }
  }

  lemma NewNodeNext(S: set<Key>, key: Key, p: Ref, n: Ref)
    requires IsPrev(S, key, p) && IsNext(S, p, n) && key !in S
    ensures IsNext(S + {key}, At(key), n)
  {
  }

  lemma OldNodeNext(S: set<Key>, key: Key, p: Ref, r: Ref, n: Ref)
    requires IsPrev(S, key, p) && IsNext(S, r, n) && key !in S
    requires r.Head? || (r.At? && r.key in S)
    ensures IsNext(S + {key}, r, if r == p then At(key) else n)
  {
  }

  // ----- The whole system -----

  datatype System = System(list: List, writer: Writer, readers: map<nat, Reader>)

  ghost predicate Inv(c: System) {
    && ListInv(c.list)
    && WriterInv(c.list, c.writer)
    && forall id | id in c.readers :: ReaderInv(c.list, c.readers[id])
  }

  ghost predicate Init(c: System) {
    c == System(List(map[Head := seq(MAX_HEIGHT, _ => Null)], 1, seq(MAX_HEIGHT, _ => {})), Idle, map[])
  }

  ghost predicate WriterStep(s: List, w: Writer, s': List, w': Writer)
    requires ListInv(s) && WriterInv(s, w)
  {
    match w
    case Idle => exists key | key !in s.levels[0] :: s' == s && w' == BeginInsert(s, key)
    case Searching(_, _, _, _, _) => s' == s && w' == SearchStep(s, w)
    case Located(_, _, _) => exists height | 1 <= height <= MAX_HEIGHT :: (s', w') == Grow(s, w, height)
    case Linking(_, _, _, false, _, _) => (s', w') == LinkSelf(s, w)
    case Linking(_, _, _, true, _, _) => (s', w') == Publish(s, w)
  }

  /** One step: the writer's, a reader's, or a reader starting a search. */
  ghost predicate Step(c: System, c': System)
    requires Inv(c)
  {
    || (WriterStep(c.list, c.writer, c'.list, c'.writer) && c'.readers == c.readers)
    || (c'.list == c.list && c'.writer == c.writer &&
        exists id, r | ReaderStep(c, id, r) :: c'.readers == c.readers[id := r])
  }

  ghost predicate ReaderStep(c: System, id: nat, r: Reader)
    requires Inv(c)
  {
    || (exists target :: r == BeginRead(c.list, target))
    || (id in c.readers && c.readers[id].Reading? && r == ReadStep(c.list, c.readers[id]))
  }

  lemma WriterStepKeeps(s: List, w: Writer, s': List, w': Writer)
    requires ListInv(s) && WriterInv(s, w) && WriterStep(s, w, s', w')
    ensures ListInv(s') && WriterInv(s', w')
    ensures forall l | 0 <= l < MAX_HEIGHT :: s.levels[l] <= s'.levels[l]
    ensures s'.levels[0] == s.levels[0] || (w.Linking? && s'.levels[0] == w.before + {w.key})
    ensures w'.Idle? && !w.Idle? ==> w.Linking? && s'.levels[0] == w.before + {w.key}
  {
    hide Linked, IsPrev, IsNext;
    match w
    case Idle => BeginKeeps(s, w'.key);
    case Searching(_, _, _, _, _) => SearchStepKeeps(s, w);
    case Located(_, _, _) =>
      var height :| 1 <= height <= MAX_HEIGHT && (s', w') == Grow(s, w, height);
      GrowKeeps(s, w, height);
    case Linking(_, _, _, false, _, _) => LinkSelfKeeps(s, w);
    case Linking(_, _, _, true, _, _) => PublishKeeps(s, w);
  }

  lemma BeginKeeps(s: List, key: Key)
    requires ListInv(s) && key !in s.levels[0]
    ensures WriterInv(s, BeginInsert(s, key))
  {
  }

  lemma BeginReadKeeps(s: List, target: Bound)
    requires ListInv(s)
    ensures ReaderInv(s, BeginRead(s, target))
  {
  }

  /** What the writer does never hurts a reader. */
  lemma ReaderUndisturbed(s: List, s': List, r: Reader)
    requires ListInv(s) && ListInv(s') && ReaderInv(s, r)
    requires forall l | 0 <= l < MAX_HEIGHT :: s.levels[l] <= s'.levels[l]
    ensures ReaderInv(s', r)
  {
  }

  lemma StepKeeps(c: System, c': System)
    requires Inv(c) && Step(c, c')
    ensures Inv(c')
  {
    hide ListInv, WriterInv, ReaderInv, WriterStep, ReaderStep;
    if WriterStep(c.list, c.writer, c'.list, c'.writer) && c'.readers == c.readers {
      WriterStepKeeps(c.list, c.writer, c'.list, c'.writer);
      ListSize(c.list);
      ListSize(c'.list);
      forall id | id in c'.readers ensures ReaderInv(c'.list, c'.readers[id]) {
        ReaderUndisturbed(c.list, c'.list, c.readers[id]);
      }
    } else {
      var id, r :| ReaderStep(c, id, r) && c'.readers == c.readers[id := r];
      ReaderStepKeeps(c, id, r);
    }
  }

  lemma ListSize(s: List)
    requires ListInv(s)
    ensures |s.levels| == MAX_HEIGHT
  {
  }

  lemma ReaderStepKeeps(c: System, id: nat, r: Reader)
    requires Inv(c) && ReaderStep(c, id, r)
    ensures ReaderInv(c.list, r)
  {
    if target :| r == BeginRead(c.list, target) {
      BeginReadKeeps(c.list, target);
    } else {
      ReadStepKeeps(c.list, c.readers[id]);
    }
  }

  ghost predicate Run(cs: seq<System>) {
    && 0 < |cs| && Init(cs[0])
    && forall i | 0 <= i < |cs| - 1 :: Inv(cs[i]) ==> Step(cs[i], cs[i + 1])
  }

  /** In every interleaving of pointer stores and loads, at every moment: each
      level is a sorted sublist of the one below, and every finished search
      skipped no key that was there when it started. */
  lemma {:induction false} RunKeeps(cs: seq<System>, i: nat)
    requires Run(cs) && i < |cs|
    ensures Inv(cs[i])
  {
    if i == 0 {
      InitIsInv(cs[0]);
    } else {
      RunKeeps(cs, i - 1);
      assert Step(cs[i - 1], cs[i - 1 + 1]);
      StepKeeps(cs[i - 1], cs[i]);
    }
  }

  lemma InitIsInv(c: System)
    requires Init(c)
    ensures Inv(c)
  {
  }

  lemma FinishedSearch(cs: seq<System>, i: nat, id: nat)
    requires Run(cs) && i < |cs| && id in cs[i].readers && cs[i].readers[id].Done?
    ensures ListInv(cs[i].list) && Found(cs[i].list, cs[i].readers[id])
  {
    RunKeeps(cs, i);
  }

  // ----- Following the pointers of a level -----

  ghost function Beyond(S: set<Key>, r: Ref): set<Key> {
    set k | k in S && Precedes(r, k)
  }

  /** The keys met by following next at level l from r. */
  ghost function Walk(s: List, l: nat, r: Ref): (keys: seq<Key>)
    requires ListInv(s) && l < MAX_HEIGHT && OnLevel(s, l, r)
    decreases |Beyond(s.levels[l], r)|
  {
    assert Linked(s, l);
    var n := s.next[r][l];
    if n.Null? then []
    else
      WalkAdvances(s.levels[l], r, n);
      [n.key] + Walk(s, l, n)
  }

  lemma WalkAdvances(S: set<Key>, r: Ref, n: Ref)
    requires IsNext(S, r, n) && n.At?
    ensures |Beyond(S, n)| < |Beyond(S, r)|
  {
    assert n.key in Beyond(S, r) && n.key !in Beyond(S, n);
    SubsetSmaller(Beyond(S, n), Beyond(S, r), n.key);
  }

  lemma SubsetSmaller(A: set<Key>, B: set<Key>, k: Key)
    requires A <= B && k in B && k !in A
    ensures |A| < |B|
  {
    assert B == A + (B - A) && k in B - A;
  }

  ghost predicate Ascending(keys: seq<Key>) {
    forall i, j | 0 <= i < j < |keys| :: keys[i] < keys[j]
  }

  /** The walk meets exactly the nodes of the level, in order. */
  lemma {:induction false} WalkIsLevel(s: List, l: nat, r: Ref)
    requires ListInv(s) && l < MAX_HEIGHT && OnLevel(s, l, r)
    ensures Ascending(Walk(s, l, r))
    ensures forall k :: k in Walk(s, l, r) <==> k in Beyond(s.levels[l], r)
    decreases |Beyond(s.levels[l], r)|
  {
    assert Linked(s, l);
    var n := s.next[r][l];
    if n.At? {
      WalkAdvances(s.levels[l], r, n);
      WalkIsLevel(s, l, n);
      var rest := Walk(s, l, n);
      forall j | 0 <= j < |rest| ensures n.key < rest[j] {
        assert rest[j] in rest;
      }
      forall k ensures k in Walk(s, l, r) <==> k in Beyond(s.levels[l], r) {
        assert k in [n.key] + rest <==> k == n.key || k in rest;
      }
    }
  }

  /** A key put where it belongs. */
  function InOrder(keys: seq<Key>, key: Key): seq<Key> {
    if keys == [] || key < keys[0] then [key] + keys else [keys[0]] + InOrder(keys[1..], key)
  }

  lemma {:induction false} InOrderFacts(keys: seq<Key>, key: Key)
    requires Ascending(keys) && key !in keys
    ensures Ascending(InOrder(keys, key))
    ensures forall k :: k in InOrder(keys, key) <==> k == key || k in keys
  {
    if keys == [] || key < keys[0] {
    } else {
      var rest := InOrder(keys[1..], key);
      InOrderFacts(keys[1..], key);
      assert keys == [keys[0]] + keys[1..];
      forall j | 0 <= j < |rest| ensures keys[0] < rest[j] {
        assert rest[j] in rest;
      }
    }
  }

  lemma AscendingTail(a: seq<Key>)
    requires Ascending(a) && a != []
    ensures forall k :: k in a[1..] <==> k in a && k != a[0]
  {
    forall k ensures k in a[1..] <==> k in a && k != a[0] {
      assert a == [a[0]] + a[1..];
      if k in a[1..] {
        var j :| 0 <= j < |a[1..]| && a[1..][j] == k;
        assert a[0] < a[1 + j];
      }
    }
  }

  lemma FirstIsIn(a: seq<Key>)
    requires a != []
    ensures a[0] in a
  {
  }

  lemma {:induction false} AscendingIsUnique(a: seq<Key>, b: seq<Key>)
    requires Ascending(a) && Ascending(b) && forall k :: k in a <==> k in b
    ensures a == b
  {
    if a == [] {
      if b != [] {
        FirstIsIn(b);
      }
    } else {
      assert a[0] in b && b != [] && b[0] in a;
      var i :| 0 <= i < |b| && b[i] == a[0];
      var j :| 0 <= j < |a| && a[j] == b[0];
      assert i == 0;
      AscendingTail(a);
      AscendingTail(b);
      AscendingIsUnique(a[1..], b[1..]);
    }
  }

  /** When Insert is done, the bottom list is the list it began with, the key
      put in order. */
  lemma InsertInsertsInOrder(s0: List, s: List, w: Writer, s': List, w': Writer)
    requires ListInv(s0) && ListInv(s) && WriterInv(s, w) && WriterStep(s, w, s', w')
    requires w.Linking? && w.before == s0.levels[0] && w'.Idle?
    ensures ListInv(s')
    ensures Walk(s', 0, Head) == InOrder(Walk(s0, 0, Head), w.key)
  {
    hide Linked, IsPrev, IsNext, Walk, InOrder, WriterStep;
    WriterStepKeeps(s, w, s', w');
    WalkIsLevel(s0, 0, Head);
    WalkIsLevel(s', 0, Head);
    var old_, new_ := Walk(s0, 0, Head), Walk(s', 0, Head);
    assert w.key !in old_;
    InOrderFacts(old_, w.key);
    AscendingIsUnique(new_, InOrder(old_, w.key));
  }
}
