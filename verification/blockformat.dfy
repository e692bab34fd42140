/** The bytes of a block: prefix-compressed entries, restart points and their
    count.  Sizes and offsets fit in 32 bits. */
module BlockFormat {
  import opened DbFormat
  import opened Coding

  datatype Pair = Pair(key: Bytes, value: Bytes)

  /** One entry that shares the first `shared` bytes of its key with the key
      before it. */
  function EntryBytes(shared: nat, e: Pair): Bytes
    requires shared <= |e.key|
  {
    Varint(shared) + (Varint(|e.key| - shared) + (Varint(|e.value|) + (e.key[shared..] + e.value)))
  }

  datatype Header = Header(shared: nat, nonShared: nat, valueLength: nat, at: nat)

  /** DecodeEntry: the three lengths at p and where the key delta starts. */
  function DecodeEntry(data: Bytes, p: nat, limit: nat): Option<Header>
    requires p <= limit <= |data|
  {
    if limit - p < 3 then None
    else
      var h :=
        if data[p] < 128 && data[p + 1] < 128 && data[p + 2] < 128 then
          // Fast path: all three values are encoded in one byte each.
          Some(Header(data[p] as nat, data[p + 1] as nat, data[p + 2] as nat, p + 3))
        else ThreeVarints(data, p, limit);
      if h.Some? && (limit - h.value.at) % LIMIT32 < (h.value.nonShared + h.value.valueLength) % LIMIT32 then None
      else h
  }

  /** GetVarint32Ptr: the value, and what is left. */
  function TakeVarint32(s: Bytes): (r: Option<(nat, Bytes)>)
    ensures r.Some? ==> |r.value.1| < |s|
  {
    var v := GetVarint(s, 5);
    if v.None? then None else Some((v.value.0 % LIMIT32, s[v.value.1..]))
  }

  function ThreeVarints(data: Bytes, p: nat, limit: nat): (h: Option<Header>)
    requires p <= limit <= |data|
    ensures h.Some? ==> h.value.at <= limit
  {
    var a := TakeVarint32(data[p..limit]);
    if a.None? then None
    else
      var b := TakeVarint32(a.value.1);
      if b.None? then None
      else
        var c := TakeVarint32(b.value.1);
        if c.None? then None
        else Some(Header(a.value.0, b.value.0, c.value.0, limit - |c.value.1|))
  }

  /** An entry decodes to its lengths. */
  lemma EntryDecodes(data: Bytes, p: nat, limit: nat, shared: nat, e: Pair)
    requires shared <= |e.key| < LIMIT32
    requires limit < LIMIT32
    requires p + |EntryBytes(shared, e)| <= limit <= |data|
    requires data[p..p + |EntryBytes(shared, e)|] == EntryBytes(shared, e)
    ensures var at := p + |EntryBytes(shared, e)| - (|e.key| - shared) - |e.value|;
      && p <= at <= limit
      && DecodeEntry(data, p, limit) == Some(Header(shared, |e.key| - shared, |e.value|, at))
      && data[at..at + |e.key| - shared] == e.key[shared..]
      && data[at + |e.key| - shared..p + |EntryBytes(shared, e)|] == e.value
  {
    hide Varint, GetVarint, ThreeVarints;
    var bytes := EntryBytes(shared, e);
    var end := p + |bytes|;
    var x, y, z := shared, |e.key| - shared, |e.value|;
    EntryDecodesSlowly(data, p, limit, shared, e);
    var at := p + |Varint(x)| + |Varint(y)| + |Varint(z)|;
    Tail(data, p, shared, e);
    FirstThree(data, p, Varint(x), Varint(y), Varint(z), e.key[shared..] + e.value);
    OneByte(x);
    OneByte(y);
    OneByte(z);
  }

  lemma FirstThree(data: Bytes, p: nat, a: Bytes, b: Bytes, c: Bytes, tail: Bytes)
    requires a != [] && b != [] && c != []
    requires var n := |a| + |b| + |c| + |tail|; p + n <= |data| && data[p..p + n] == a + (b + (c + tail))
    ensures data[p] == a[0]
    ensures |a| == 1 ==> data[p + 1] == b[0]
    ensures |a| == 1 && |b| == 1 ==> data[p + 2] == c[0]
  {
    var n := |a| + |b| + |c| + |tail|;
    var s := data[p..p + n];
    assert data[p] == s[0] && data[p + 1] == s[1] && data[p + 2] == s[2];
  }

  lemma EntryDecodesSlowly(data: Bytes, p: nat, limit: nat, shared: nat, e: Pair)
    requires shared <= |e.key| < LIMIT32
    requires limit < LIMIT32
    requires p + |EntryBytes(shared, e)| <= limit <= |data|
    requires data[p..p + |EntryBytes(shared, e)|] == EntryBytes(shared, e)
    ensures var x, y, z := shared, |e.key| - shared, |e.value|;
      ThreeVarints(data, p, limit) == Some(Header(x, y, z, p + |Varint(x)| + |Varint(y)| + |Varint(z)|))
  {
    hide Varint, GetVarint, ThreeVarints;
    var bytes := EntryBytes(shared, e);
    var a, b, c := Varint(shared), Varint(|e.key| - shared), Varint(|e.value|);
    var tail, rest := e.key[shared..] + e.value, data[p + |bytes|..limit];
    assert data[p..limit] == bytes + rest;
    Reassociate(a, b, c, tail, rest);
    ThreeDecode(data, p, limit, shared, |e.key| - shared, |e.value|, tail + rest);
  }

  lemma Reassociate(a: Bytes, b: Bytes, c: Bytes, tail: Bytes, rest: Bytes)
    ensures (a + (b + (c + tail))) + rest == a + (b + (c + (tail + rest)))
  {
    assert (c + tail) + rest == c + (tail + rest);
    assert (b + (c + tail)) + rest == b + ((c + tail) + rest);
  }

  /** The key delta and the value stand at the end of the entry. */
  lemma Tail(data: Bytes, p: nat, shared: nat, e: Pair)
    requires shared <= |e.key|
    requires p + |EntryBytes(shared, e)| <= |data|
    requires data[p..p + |EntryBytes(shared, e)|] == EntryBytes(shared, e)
    ensures var end := p + |EntryBytes(shared, e)|;
      var at := end - (|e.key| - shared) - |e.value|;
      && at == p + |Varint(shared)| + |Varint(|e.key| - shared)| + |Varint(|e.value|)|
      && data[at..at + |e.key| - shared] == e.key[shared..]
      && data[at + |e.key| - shared..end] == e.value
  {
    hide Varint;
    var a, b, c := Varint(shared), Varint(|e.key| - shared), Varint(|e.value|);
    var tail := e.key[shared..] + e.value;
    var bytes := EntryBytes(shared, e);
    var n := |a| + |b| + |c|;
    assert bytes[n..] == tail;
    assert data[p + n..p + |bytes|] == data[p..p + |bytes|][n..];
    var m := |e.key| - shared;
    assert data[p + n..p + n + m] == tail[..m];
    assert data[p + n + m..p + |bytes|] == tail[m..];
  }

  lemma OneByte(v: nat)
    ensures |Varint(v)| >= 1
    ensures v < 128 ==> Varint(v) == [v as byte]
    ensures v >= 128 ==> Varint(v)[0] >= 128
  {
  }

  lemma ThreeDecode(data: Bytes, p: nat, limit: nat, x: nat, y: nat, z: nat, rest: Bytes)
    requires p <= limit <= |data| && x < LIMIT32 && y < LIMIT32 && z < LIMIT32
    requires data[p..limit] == Varint(x) + (Varint(y) + (Varint(z) + rest))
    ensures ThreeVarints(data, p, limit) == Some(Header(x, y, z, p + |Varint(x)| + |Varint(y)| + |Varint(z)|))
  {
    hide Varint, TakeVarint32;
    TakesVarint(x, Varint(y) + (Varint(z) + rest));
    TakesVarint(y, Varint(z) + rest);
    TakesVarint(z, rest);
  }

  lemma TakesVarint(v: nat, rest: Bytes)
    requires v < LIMIT32
    ensures TakeVarint32(Varint(v) + rest) == Some((v, rest))
  {
    hide Varint, GetVarint;
    Sizes();
    VarintLength(v, 5);
    VarintRoundTrip(v, rest, 5);
  }

  // ----- The restart array -----

  function RestartArray(restarts: seq<nat>): (r: Bytes)
    requires forall i | 0 <= i < |restarts| :: restarts[i] < LIMIT32
    ensures |r| == 4 * |restarts|
  {
    if restarts == [] then []
    else RestartArray(restarts[..|restarts| - 1]) + Fixed32(restarts[|restarts| - 1])
  }

  lemma {:induction false} RestartAt(restarts: seq<nat>, i: nat)
    requires forall i | 0 <= i < |restarts| :: restarts[i] < LIMIT32
    requires i < |restarts|
    ensures RestartArray(restarts)[4 * i..4 * i + 4] == Fixed32(restarts[i])
  {
    hide Fixed32;
    var n := |restarts| - 1;
    var front := RestartArray(restarts[..n]);
    if i < n {
      RestartAt(restarts[..n], i);
      assert RestartArray(restarts)[4 * i..4 * i + 4] == front[4 * i..4 * i + 4];
    }
  }

  /** A finished block. */
  function BlockBytes(buffer: Bytes, restarts: seq<nat>): Bytes
    requires |restarts| < LIMIT32 && forall i | 0 <= i < |restarts| :: restarts[i] < LIMIT32
  {
    buffer + RestartArray(restarts) + Fixed32(|restarts|)
  }

  // ----- What a buffer of entries looks like -----

  /** The entries, where each starts, how much of its key each shares, and which
      entries the restart points are. */
  datatype Layout = Layout(entries: seq<Pair>, offsets: seq<nat>, shares: seq<nat>, points: seq<nat>)

  ghost function Off(g: Layout, size: nat, i: nat): nat {
    if i < |g.offsets| then g.offsets[i] else size
  }

  ghost predicate EntryLaid(buffer: Bytes, g: Layout, i: nat)
    requires i < |g.entries| == |g.offsets| == |g.shares|
  {
    var e, shared := g.entries[i], g.shares[i];
    && shared <= |e.key| < LIMIT32
    && (if i == 0 then shared == 0 else shared <= |g.entries[i - 1].key| && e.key[..shared] == g.entries[i - 1].key[..shared])
    && g.offsets[i] + |EntryBytes(shared, e)| == Off(g, |buffer|, i + 1) <= |buffer|
    && buffer[g.offsets[i]..g.offsets[i] + |EntryBytes(shared, e)|] == EntryBytes(shared, e)
  }

  ghost predicate Laid(buffer: Bytes, restarts: seq<nat>, g: Layout) {
    && |buffer| < LIMIT32
    && |g.offsets| == |g.shares| == |g.entries|
    && Off(g, |buffer|, 0) == 0
    && (forall i | 0 <= i < |g.entries| :: EntryLaid(buffer, g, i))
    && 0 < |restarts| == |g.points|
    && g.points[0] == 0
    && (forall r | 0 <= r < |restarts| :: g.points[r] <= |g.entries| && restarts[r] == Off(g, |buffer|, g.points[r]))
    && (forall r | 0 <= r < |restarts| && g.entries != [] :: g.points[r] < |g.entries| && g.shares[g.points[r]] == 0)
    && forall q, r | 0 <= q < r < |restarts| :: g.points[q] < g.points[r]
  }

  /** Entries take at least three bytes each, so offsets ascend. */
  lemma {:induction false} OffsetsAscend(buffer: Bytes, restarts: seq<nat>, g: Layout, i: nat, j: nat)
    requires Laid(buffer, restarts, g) && i < j <= |g.entries|
    ensures Off(g, |buffer|, i) < Off(g, |buffer|, j)
  {
    hide EntryBytes;
    if i + 1 < j {
      OffsetsAscend(buffer, restarts, g, i, j - 1);
    }
    assert EntryLaid(buffer, g, j - 1);
    EntryIsLong(g.shares[j - 1], g.entries[j - 1]);
  }

  lemma EntryIsLong(shared: nat, e: Pair)
    requires shared <= |e.key|
    ensures |EntryBytes(shared, e)| >= 3
  {
    OneByte(shared);
    OneByte(|e.key| - shared);
    OneByte(|e.value|);
  }
}
