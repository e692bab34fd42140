/** HandleTable: the cache's hash table of handles, chained through the handles
    themselves. */
module HandleTables {
  import opened DbFormat

  /** An LRUHandle.  A handle is in at most one hash chain, through nextHash, and
      in at most one of the cache's two rings, through next and prev. */
  class Handle {
    const key: Bytes
    const hash: nat
    const value: nat
    const charge: nat
    var nextHash: Handle?
    var next: Handle?
    var prev: Handle?
    var refs: nat
    var inCache: bool

    constructor (k: Bytes, h: nat, v: nat, c: nat)
      ensures key == k && hash == h && value == v && charge == c
      ensures nextHash == null && next == null && prev == null && refs == 1 && !inCache
    {
      key, hash, value, charge := k, h, v, c;
      nextHash, next, prev, refs, inCache := null, null, null, 1, false;
    }
  }

  predicate Matches(h: Handle, key: Bytes, hash: nat) {
    h.hash == hash && h.key == key
  }

  ghost function Following(s: seq<Handle>, j: nat): Handle?
    requires j < |s|
  {
    if j + 1 < |s| then s[j + 1] else null
  }

  /** Following nextHash from `first` runs through exactly the handles of s. */
  ghost predicate Chain(first: Handle?, s: seq<Handle>)
    reads s`nextHash
  {
    && first == (if s == [] then null else s[0])
    && forall j | 0 <= j < |s| :: s[j].nextHash == Following(s, j)
  }

  /** The chains hold exactly `nodes`: each handle once, in the bucket of its
      hash, and no two with the same key. */
  ghost predicate Holds(chains: seq<seq<Handle>>, nodes: set<Handle>) {
    && 0 < |chains|
    && (forall b, j | 0 <= b < |chains| && 0 <= j < |chains[b]| ::
          chains[b][j] in nodes && chains[b][j].hash % |chains| == b)
    && (forall h | h in nodes :: h in chains[h.hash % |chains|])
    && forall b, i, j | 0 <= b < |chains| && 0 <= i < j < |chains[b]| ::
         !Matches(chains[b][i], chains[b][j].key, chains[b][j].hash)
  }

  class HandleTable {
    var length: nat
    var elems: nat
    var list: array<Handle?>
    ghost var chains: seq<seq<Handle>>
    ghost var nodes: set<Handle>

    ghost predicate Valid()
      reads this, list, nodes`nextHash
    {
      && length == list.Length == |chains|
      && Holds(chains, nodes)
      && (forall b | 0 <= b < length :: Chain(list[b], chains[b]))
      && elems == |nodes|
    }

    /** An empty table, as the first Resize leaves it. */
    constructor ()
      ensures Valid() && fresh(list) && nodes == {}
    {
      length, elems := 4, 0;
      list := new Handle?[4](_ => null);
      chains, nodes := [[], [], [], []], {};
    }

    /** `hash & (length - 1)`, for a length that is a power of two. */
    function Bucket(hash: nat): nat
      requires length > 0
      reads this
    {
      hash % length
    }

    /** FindPointer: the handle that matches, or null, and the handle before it
        in its chain, or null when the slot is the bucket's. */
    method FindPointer(key: Bytes, hash: nat) returns (before: Handle?, found: Handle?, ghost k: nat)
      requires Valid()
      ensures 0 < |chains|
      ensures var chain := chains[hash % |chains|];
        && k <= |chain|
        && before == (if k == 0 then null else chain[k - 1])
        && found == (if k == |chain| then null else chain[k])
        && (forall j | 0 <= j < k :: !Matches(chain[j], key, hash))
        && (found != null ==> Matches(found, key, hash))
    {
      hide Holds, Matches;
      HasBuckets(chains, nodes);
      k := 0;
      before := null;
      found := list[Bucket(hash)];
      ghost var chain := chains[hash % |chains|];
      assert Chain(list[hash % length], chain);
      while found != null && !Matches(found, key, hash)
        invariant k <= |chain|
        invariant before == (if k == 0 then null else chain[k - 1])
        invariant found == (if k == |chain| then null else chain[k])
        invariant forall j | 0 <= j < k :: !Matches(chain[j], key, hash)
        decreases |chain| - k
      {
        before := found;
        found := found.nextHash;
        k := k + 1;
      }
    }

    method Lookup(key: Bytes, hash: nat) returns (h: Handle?)
      requires Valid()
      ensures h != null ==> h in nodes && Matches(h, key, hash)
      ensures h == null ==> forall n | n in nodes :: !Matches(n, key, hash)
    {
      var before, found, k := FindPointer(key, hash);
      h := found;
      Found(chains, nodes, key, hash, k);
    }

    /** Makes *ptr = h, where ptr is the slot FindPointer found and h already
        points to what follows. */
    method SetSlot(before: Handle?, bucket: nat, h: Handle?, ghost s: seq<Handle>, ghost t: seq<Handle>, ghost k: nat)
      requires bucket < list.Length && Chain(list[bucket], s)
      requires k <= |s| && before == (if k == 0 then null else s[k - 1])
      requires forall i, j | 0 <= i < j < |s| :: s[i] != s[j]
      requires k <= |t| && t[..k] == s[..k] && h == (if k == |t| then null else t[k])
      requires forall j | k <= j < |t| :: t[j].nextHash == Following(t, j) && (k == 0 || t[j] != s[k - 1])
      modifies list, NonNull(before)`nextHash
      ensures forall c | 0 <= c < list.Length && c != bucket :: list[c] == old(list[c])
      ensures Chain(list[bucket], t)
    {
      if before == null {
        list[bucket] := h;
      } else {
        before.nextHash := h;
        SamePrefix(s, t, k);
      }
    }

    /** The part of Insert before the table may grow: replaces the handle with
        the same key, or appends to its chain. */
    method Link(h: Handle) returns (old_: Handle?)
      requires Valid() && h !in nodes
      modifies this`chains, this`nodes, this`elems, list, nodes`nextHash, h`nextHash
      ensures Valid()
      ensures old_ != null ==> old_ in old(nodes) && Matches(old_, h.key, h.hash)
      ensures old_ == null ==> forall n | n in old(nodes) :: !Matches(n, h.key, h.hash)
      ensures nodes == Without(old(nodes), old_) + {h}
      ensures length == old(length) && list == old(list)
    {
      hide Holds, Put, Following, Matches, Chain, Without;
      var before, found, k := FindPointer(h.key, h.hash);
      ghost var b := h.hash % |chains|;
      ghost var s, t := chains[b], Put(chains[b], k, h);
      Found(chains, nodes, h.key, h.hash, k);
      Apart(chains, nodes, b);
      HoldsPut(chains, nodes, h, k);
      PutFacts(s, k, h);
      PutCount(nodes, found, h);
      old_ := found;
      h.nextHash := if found == null then null else found.nextHash;
      PutReady(list[b], s, h, k);
      assert forall c | 0 <= c < length && c != b :: Chain(list[c], chains[c]);
      SetSlot(before, Bucket(h.hash), h, s, t, k);
      assert forall c | 0 <= c < length && c != b :: Chain(list[c], chains[c]);
      if old_ == null {
        elems := elems + 1;
      }
      chains := chains[b := t];
      nodes := Without(nodes, old_) + {h};
    }

    /** Puts h in the table; returns the handle it replaces, if any. */
    method Insert(h: Handle) returns (old_: Handle?)
      requires Valid() && h !in nodes
      modifies this, list, nodes`nextHash, h`nextHash
      ensures Valid() && (list == old(list) || fresh(list))
      ensures old_ != null ==> old_ in old(nodes) && Matches(old_, h.key, h.hash)
      ensures old_ == null ==> forall n | n in old(nodes) :: !Matches(n, h.key, h.hash)
      ensures nodes == Without(old(nodes), old_) + {h}
    {
      hide Holds, Chain, Matches, Following;
      old_ := Link(h);
      if old_ == null && elems > length {
        // Each entry is fairly large: aim for a small average chain length.
        Resize();
      }
    }

    method Remove(key: Bytes, hash: nat) returns (result: Handle?)
      requires Valid()
      modifies this`chains, this`nodes, this`elems, list, nodes`nextHash
      ensures Valid()
      ensures result != null ==> result in old(nodes) && Matches(result, key, hash)
      ensures result == null ==> forall n | n in old(nodes) :: !Matches(n, key, hash)
      ensures nodes == Without(old(nodes), result)
    {
      hide Holds, Cut, Following, Matches, Chain;
      var before, found, k := FindPointer(key, hash);
      ghost var b := hash % |chains|;
      Found(chains, nodes, key, hash, k);
      result := found;
      if result != null {
        ghost var s, t := chains[b], Cut(chains[b], k);
        Apart(chains, nodes, b);
        HoldsCut(chains, nodes, b, k);
        CutFacts(s, k);
        CutReady(list[b], s, k);
        assert forall c | 0 <= c < length && c != b :: Chain(list[c], chains[c]);
        SetSlot(before, Bucket(hash), result.nextHash, s, t, k);
        assert forall c | 0 <= c < length && c != b :: Chain(list[c], chains[c]);
        elems := elems - 1;
        chains := chains[b := t];
        nodes := nodes - {result};
      }
    }

    /** Moves every handle to a table of at least as many buckets as there are
        handles.  The handles stay the same ones. */
    method Resize()
      requires Valid()
      modifies this`length, this`list, this`chains, nodes`nextHash
      ensures Valid() && fresh(list) && elems <= length
    {
      hide Holds, Chain, Following, Matches;
      var newLength := 4;
      while newLength < elems
        invariant newLength >= 4
      {
        newLength := newLength * 2;
      }
      var newList := new Handle?[newLength](_ => null);
      ghost var cs: seq<seq<Handle>> := seq(newLength, _ => []);
      ghost var done: set<Handle> := {};
      NoChains(cs);
      var count := 0;
      for i := 0 to length
        invariant |cs| == newLength && Holds(cs, done) && done <= nodes && count == |done|
        invariant forall b | 0 <= b < newLength :: Chain(newList[b], cs[b])
        invariant forall c | i <= c < length :: Chain(list[c], chains[c])
        invariant forall c, x | i <= c < length && x in chains[c] :: x !in done
        invariant forall c, x | 0 <= c < i && x in chains[c] :: x in done
        modifies newList, nodes`nextHash
      {
        Apart(chains, nodes, i);
        var n;
        n, cs, done := MoveChain(list[i], chains[i], newList, cs, done);
        count := count + n;
      }
      assert elems == count by {
        AllMoved(chains, nodes, done);
      }
      AllMoved(chains, nodes, done);
      list := newList;
      length := newLength;
      chains := cs;
    }

    /** The inner loop of Resize: one old chain, handle by handle. */
    method MoveChain(first: Handle?, ghost chain: seq<Handle>, newList: array<Handle?>, ghost cs0: seq<seq<Handle>>, ghost done0: set<Handle>)
      returns (count: nat, ghost cs: seq<seq<Handle>>, ghost done: set<Handle>)
      requires Holds(chains, nodes)
      requires Chain(first, chain) && forall x | x in chain :: x in nodes && x !in done0
      requires forall i, j | 0 <= i < j < |chain| :: chain[i] != chain[j]
      requires |cs0| == newList.Length && Holds(cs0, done0) && done0 <= nodes
      requires forall b | 0 <= b < |cs0| :: Chain(newList[b], cs0[b])
      modifies newList, chain`nextHash
      ensures |cs| == |cs0| && Holds(cs, done)
      ensures forall b | 0 <= b < |cs| :: Chain(newList[b], cs[b])
      ensures forall x :: x in done <==> x in done0 || x in chain
      ensures |done| == |done0| + count
    {
      hide Holds, Chain, Following, Matches;
      cs, done, count := cs0, done0, 0;
      var h := first;
      ChainFacts(first, chain);
      while h != null
        invariant count <= |chain| && h == (if count == |chain| then null else chain[count])
        invariant |cs| == newList.Length && Holds(cs, done)
        invariant forall b | 0 <= b < |cs| :: Chain(newList[b], cs[b])
        invariant forall x :: x in done <==> x in done0 || x in chain[..count]
        invariant |done| == |done0| + count
        invariant forall j | count <= j < |chain| :: chain[j].nextHash == Following(chain, j)
        decreases |chain| - count
      {
        var next := h.nextHash;
        NotYet(chain, count, done0, done);
        HoldsPrepend(old(chains), nodes, cs, done, h);
        InChains(cs, done);
        HasBuckets(cs, done);
        var b := h.hash % newList.Length;
        Prepend(newList, b, h, cs[b]);
        cs := cs[b := [h] + cs[b]];
        done := done + {h};
        FollowingIs(chain, count);
        h := next;
        count := count + 1;
      }
      assert chain[..count] == chain;
    }

    method Prepend(newList: array<Handle?>, b: nat, h: Handle, ghost s: seq<Handle>)
      requires b < newList.Length && Chain(newList[b], s) && h !in s
      modifies newList, h`nextHash
      ensures forall c | 0 <= c < newList.Length && c != b :: newList[c] == old(newList[c])
      ensures Chain(newList[b], [h] + s)
    {
      h.nextHash := newList[b];
      newList[b] := h;
    }
  }

  lemma NotYet(chain: seq<Handle>, k: nat, done0: set<Handle>, done: set<Handle>)
    requires k < |chain| && chain[k] !in done0
    requires forall i, j | 0 <= i < j < |chain| :: chain[i] != chain[j]
    requires forall x :: x in done <==> x in done0 || x in chain[..k]
    ensures chain[k] !in done
    ensures forall x :: x in done + {chain[k]} <==> x in done0 || x in chain[..k + 1]
  {
    assert chain[..k + 1] == chain[..k] + [chain[k]];
  }

  lemma NoChains(cs: seq<seq<Handle>>)
    requires 0 < |cs| && forall b | 0 <= b < |cs| :: cs[b] == []
    ensures Holds(cs, {})
    ensures forall b | 0 <= b < |cs| :: Chain(null, cs[b])
  {
  }

  lemma ChainFacts(first: Handle?, s: seq<Handle>)
    requires Chain(first, s)
    ensures first == if s == [] then null else s[0]
    ensures forall j | 0 <= j < |s| :: s[j].nextHash == Following(s, j)
  {
  }

  lemma FollowingIs(s: seq<Handle>, j: nat)
    requires j < |s|
    ensures Following(s, j) == if j + 1 < |s| then s[j + 1] else null
  {
  }

  lemma InChains(cs: seq<seq<Handle>>, done: set<Handle>)
    requires Holds(cs, done)
    ensures forall b, x | 0 <= b < |cs| && x in cs[b] :: x in done
  {
  }

  lemma AllMoved(chains: seq<seq<Handle>>, nodes: set<Handle>, done: set<Handle>)
    requires Holds(chains, nodes) && done <= nodes
    requires forall c, x | 0 <= c < |chains| && x in chains[c] :: x in done
    ensures done == nodes
  {
  }

  lemma HoldsPrepend(chains: seq<seq<Handle>>, nodes: set<Handle>, cs: seq<seq<Handle>>, done: set<Handle>, h: Handle)
    requires Holds(chains, nodes) && Holds(cs, done) && done <= nodes && h in nodes && h !in done
    ensures var b := h.hash % |cs|; Holds(cs[b := [h] + cs[b]], done + {h})
  {
    var b := h.hash % |cs|;
    var s, t := cs[b], [h] + cs[b];
    assert forall j | 0 <= j < |t| :: t[j] == if j == 0 then h else s[j - 1];
    forall j | 0 <= j < |s| ensures !Matches(h, s[j].key, s[j].hash) {
      KeysDiffer(chains, nodes, h, s[j]);
    }
  }

  lemma KeysDiffer(chains: seq<seq<Handle>>, nodes: set<Handle>, x: Handle, y: Handle)
    requires Holds(chains, nodes) && x in nodes && y in nodes && x != y
    ensures !Matches(x, y.key, y.hash)
  {
    if x.hash == y.hash {
      var chain := chains[x.hash % |chains|];
      var i :| 0 <= i < |chain| && chain[i] == x;
      var j :| 0 <= j < |chain| && chain[j] == y;
      assert i < j || j < i;
    }
  }

  ghost function NonNull(h: Handle?): set<Handle> {
    if h == null then {} else {h}
  }

  lemma SamePrefix(s: seq<Handle>, t: seq<Handle>, k: nat)
    requires k <= |s| && k <= |t| && t[..k] == s[..k]
    ensures forall j | 0 <= j < k :: t[j] == s[j]
  {
    forall j | 0 <= j < k ensures t[j] == s[j] {
      assert t[j] == t[..k][j] && s[j] == s[..k][j];
    }
  }

  ghost function Without(nodes: set<Handle>, h: Handle?): set<Handle> {
    if h == null then nodes else nodes - {h}
  }

  /** Position k of a chain taken by h: a replacement, or at the end an append. */
  ghost function Put(s: seq<Handle>, k: nat, h: Handle): seq<Handle>
    requires k <= |s|
  {
    if k < |s| then s[k := h] else s + [h]
  }

  ghost function Cut(s: seq<Handle>, k: nat): seq<Handle>
    requires k < |s|
  {
    s[..k] + s[k + 1..]
  }

  lemma PutFacts(s: seq<Handle>, k: nat, h: Handle)
    requires k <= |s|
    ensures var t := Put(s, k, h); k < |t| && t[..k] == s[..k] && t[k] == h
    ensures forall j | k < j < |Put(s, k, h)| :: j < |s| && Put(s, k, h)[j] == s[j] && Following(Put(s, k, h), j) == Following(s, j)
    ensures Following(Put(s, k, h), k) == if k < |s| then Following(s, k) else null
  {
  }

  lemma CutFacts(s: seq<Handle>, k: nat)
    requires k < |s|
    ensures var t := Cut(s, k); |t| == |s| - 1 && t[..k] == s[..k] && Following(s, k) == if k == |t| then null else t[k]
    ensures forall j | k <= j < |Cut(s, k)| :: Cut(s, k)[j] == s[j + 1] && Following(Cut(s, k), j) == Following(s, j + 1)
  {
  }

  lemma PutReady(first: Handle?, s: seq<Handle>, h: Handle, k: nat)
    requires Chain(first, s) && k <= |s| && h !in s
    requires forall i, j | 0 <= i < j < |s| :: s[i] != s[j]
    requires h.nextHash == if k == |s| then null else s[k].nextHash
    ensures forall j | k <= j < |Put(s, k, h)| ::
              Put(s, k, h)[j].nextHash == Following(Put(s, k, h), j) && (k == 0 || Put(s, k, h)[j] != s[k - 1])
  {
    PutFacts(s, k, h);
  }

  lemma CutReady(first: Handle?, s: seq<Handle>, k: nat)
    requires Chain(first, s) && k < |s|
    requires forall i, j | 0 <= i < j < |s| :: s[i] != s[j]
    ensures s[k].nextHash == if k == |Cut(s, k)| then null else Cut(s, k)[k]
    ensures forall j | k <= j < |Cut(s, k)| ::
              Cut(s, k)[j].nextHash == Following(Cut(s, k), j) && (k == 0 || Cut(s, k)[j] != s[k - 1])
  {
    CutFacts(s, k);
  }

  /** Chains share no handle, and a chain has none twice. */
  lemma Apart(chains: seq<seq<Handle>>, nodes: set<Handle>, b: nat)
    requires Holds(chains, nodes) && b < |chains|
    ensures forall c, i | 0 <= c < |chains| && c != b && 0 <= i < |chains[c]| :: chains[c][i] in nodes && chains[c][i] !in chains[b]
    ensures forall h | h in chains[b] :: h in nodes
    ensures forall i, j | 0 <= i < j < |chains[b]| :: chains[b][i] != chains[b][j]
  {
  }

  lemma HoldsCut(chains: seq<seq<Handle>>, nodes: set<Handle>, b: nat, k: nat)
    requires Holds(chains, nodes) && b < |chains| && k < |chains[b]|
    ensures chains[b][k] in nodes
    ensures Holds(chains[b := Cut(chains[b], k)], nodes - {chains[b][k]})
  {
    var s, t := chains[b], Cut(chains[b], k);
    Apart(chains, nodes, b);
    assert forall j | 0 <= j < |t| :: t[j] == s[if j < k then j else j + 1];
    forall h | h in nodes - {s[k]} && h in s ensures h in t {
      var j :| 0 <= j < |s| && s[j] == h;
      assert t[if j < k then j else j - 1] == h;
    }
  }

  lemma HoldsPut(chains: seq<seq<Handle>>, nodes: set<Handle>, h: Handle, k: nat)
    requires Holds(chains, nodes) && h !in nodes
    requires var chain := chains[h.hash % |chains|];
      && k <= |chain|
      && (forall j | 0 <= j < k :: !Matches(chain[j], h.key, h.hash))
      && (k < |chain| ==> Matches(chain[k], h.key, h.hash))
    ensures var b := h.hash % |chains|;
      && b < |chains|
      && Holds(chains[b := Put(chains[b], k, h)], Without(nodes, if k < |chains[b]| then chains[b][k] else null) + {h})
  {
    var b := h.hash % |chains|;
    var s, t := chains[b], Put(chains[b], k, h);
    Apart(chains, nodes, b);
    assert forall j | 0 <= j < |s| && j != k :: t[j] == s[j];
    assert t[k] == h;
  }

  lemma HasBuckets(chains: seq<seq<Handle>>, nodes: set<Handle>)
    requires Holds(chains, nodes)
    ensures 0 < |chains|
  {
  }

  lemma PutCount(nodes: set<Handle>, found: Handle?, h: Handle)
    requires h !in nodes && (found != null ==> found in nodes)
    ensures |Without(nodes, found) + {h}| == if found == null then |nodes| + 1 else |nodes|
  {
  }

  /** The walk along one chain decides for the whole table. */
  lemma Found(chains: seq<seq<Handle>>, nodes: set<Handle>, key: Bytes, hash: nat, k: nat)
    requires Holds(chains, nodes)
    requires k <= |chains[hash % |chains|]|
    requires forall j | 0 <= j < k :: !Matches(chains[hash % |chains|][j], key, hash)
    ensures k < |chains[hash % |chains|]| ==> chains[hash % |chains|][k] in nodes
    ensures k == |chains[hash % |chains|]| ==> forall n | n in nodes :: !Matches(n, key, hash)
  {
  }
}
