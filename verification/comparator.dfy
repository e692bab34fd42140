/** The bytewise order, the order of internal keys, and the short keys that
    separate the blocks of a table. */
module Comparator {
  import opened DbFormat
  import opened Coding

  type Order = (Bytes, Bytes) -> bool

  /** What a comparator's "less" must be. */
  ghost predicate StrictWeakOrder(before: Order) {
    && (forall a :: !before(a, a))
    && (forall a, b, c :: before(a, b) && before(b, c) ==> before(a, c))
    && forall a, b, c :: !before(a, b) && !before(b, c) ==> !before(a, c)
  }

  // ----- The bytewise comparator -----

  predicate Before(a: Bytes, b: Bytes) {
    b != [] && (a == [] || a[0] < b[0] || (a[0] == b[0] && Before(a[1..], b[1..])))
  }

  /** Every byte string as a real number, in order.  This is what lets a user
      key be a `real` in the modules about the LSM tree. */
  function Embed(s: Bytes): (r: real)
    ensures 0.0 <= r < 1.0
  {
    if s == [] then 0.0 else ((s[0] as int + 1) as real + Embed(s[1..])) / 257.0
  }

  lemma {:induction false} EmbedInOrder(a: Bytes, b: Bytes)
    ensures Before(a, b) <==> Embed(a) < Embed(b)
    ensures Embed(a) == Embed(b) ==> a == b
  {
    if a != [] && b != [] {
      EmbedInOrder(a[1..], b[1..]);
      assert a == [a[0]] + a[1..] && b == [b[0]] + b[1..];
    }
  }

  lemma BytewiseOrder()
    ensures StrictWeakOrder(Before)
  {
    forall a ensures !Before(a, a) {
      EmbedInOrder(a, a);
    }
    forall a, b, c ensures Before(a, b) && Before(b, c) ==> Before(a, c) {
      EmbedInOrder(a, b);
      EmbedInOrder(b, c);
      EmbedInOrder(a, c);
    }
    forall a, b, c ensures !Before(a, b) && !Before(b, c) ==> !Before(a, c) {
      EmbedInOrder(a, b);
      EmbedInOrder(b, c);
      EmbedInOrder(a, c);
    }
  }

  lemma {:induction false} DiffDecides(a: Bytes, b: Bytes, d: nat)
    requires d <= |a| && d <= |b| && a[..d] == b[..d]
    requires d < |b| && (d < |a| ==> a[d] != b[d])
    ensures Before(a, b) <==> d == |a| || a[d] < b[d]
  {
    if d > 0 {
      assert a[0] == a[..d][0] == b[..d][0] == b[0];
      assert a[1..][..d - 1] == a[..d][1..] == b[..d][1..] == b[1..][..d - 1];
      DiffDecides(a[1..], b[1..], d - 1);
    }
  }

  /** The strings first differ at d, by more than one. */
  predicate PartAt(start: Bytes, limit: Bytes, d: nat) {
    d < |start| && d < |limit| && start[..d] == limit[..d] && start[d] as int + 1 < limit[d] as int
  }

  /** A string no longer than what they share is not from `start` on and below
      `limit`. */
  lemma ShorterIsOutside(start: Bytes, limit: Bytes, d: nat, s: Bytes)
    requires PartAt(start, limit, d) && |s| <= d
    ensures Before(s, start) || !Before(s, limit)
  {
    var e := CommonLength(s, start);
    assert start[..e] == start[..d][..e] && limit[..e] == limit[..d][..e];
    hide Before;
    DiffDecides(s, start, e);
    if e < |s| {
      assert start[..d][e] == limit[..d][e];
      DiffDecides(s, limit, e);
    }
  }

  /** Where two strings part. */
  lemma {:induction false} CommonLength(a: Bytes, b: Bytes) returns (e: nat)
    ensures e <= |a| && e <= |b| && a[..e] == b[..e] && (e < |a| && e < |b| ==> a[e] != b[e])
  {
    if a == [] || b == [] || a[0] != b[0] {
      e := 0;
    } else {
      var n := CommonLength(a[1..], b[1..]);
      e := n + 1;
      assert a[..e] == [a[0]] + a[1..][..n] && b[..e] == [b[0]] + b[1..][..n];
    }
  }

  /** Unchanged unless the strings part by more than one, and then a shortest
      string from `start` on and below `limit`. */
  method FindShortestSeparator(start: Bytes, limit: Bytes) returns (r: Bytes)
    ensures r == start || (Before(start, r) && Before(r, limit) && |r| <= |start|)
    ensures r == start <==> forall d: nat :: !PartAt(start, limit, d)
    ensures r != start ==> forall s | !Before(s, start) && Before(s, limit) :: |s| >= |r|
    ensures forall d: nat | PartAt(start, limit, d) :: |r| == d + 1
  {
    r := start;
    var minLength := if |start| < |limit| then |start| else |limit|;
    var diffIndex := 0;
    while diffIndex < minLength && start[diffIndex] == limit[diffIndex]
      invariant diffIndex <= minLength
      invariant start[..diffIndex] == limit[..diffIndex]
    {
      diffIndex := diffIndex + 1;
    }
    if diffIndex >= minLength {
      // Do not shorten if one string is a prefix of the other.
    } else {
      var diffByte := start[diffIndex] as int;
      if diffByte < 0xff && diffByte + 1 < limit[diffIndex] as int {
        r := start[..diffIndex] + [(diffByte + 1) as byte];
        assert r[..diffIndex] == start[..diffIndex];
        DiffDecides(start, r, diffIndex);
        DiffDecides(r, limit, diffIndex);
        assert PartAt(start, limit, diffIndex);
        forall s | !Before(s, start) && Before(s, limit) ensures |s| >= |r| {
          if |s| <= diffIndex {
            ShorterIsOutside(start, limit, diffIndex, s);
          }
        }
      }
    }
    forall d: nat | PartAt(start, limit, d) ensures d == diffIndex {
      PartsOnce(start, limit, d, diffIndex);
    }
  }

  lemma PartsOnce(start: Bytes, limit: Bytes, d: nat, e: nat)
    requires PartAt(start, limit, d) && e <= |start| && e <= |limit| && start[..e] == limit[..e]
    requires e < |start| && e < |limit| ==> start[e] != limit[e]
    ensures d == e
  {
    assert forall k | 0 <= k < e :: start[..e][k] == limit[..e][k];
    assert forall k | 0 <= k < d :: start[..d][k] == limit[..d][k];
  }

  /** A short string at or above `key`. */
  method FindShortSuccessor(key: Bytes) returns (r: Bytes)
    ensures r == key || (Before(key, r) && |r| <= |key|)
    ensures r == key <==> forall i | 0 <= i < |key| :: key[i] == 0xff
    ensures r != key ==> forall s | !Before(s, key) :: |s| >= |r|
  {
    r := key;
    var n := |key|;
    for i := 0 to n
      invariant forall j | 0 <= j < i :: key[j] == 0xff
    {
      var b := key[i] as int;
      if b != 0xff {
        r := key[..i] + [(b + 1) as byte];
        assert r[..i] == key[..i];
        DiffDecides(key, r, i);
        forall s | !Before(s, key) ensures |s| >= |r| {
          AboveIsLonger(key, i, s);
        }
        return;
      }
    }
  }

  /** Nothing shorter is above a row of 0xff bytes that goes on. */
  lemma AboveIsLonger(key: Bytes, i: nat, s: Bytes)
    requires i < |key| && (forall j | 0 <= j < i :: key[j] == 0xff) && !Before(s, key)
    ensures |s| >= i + 1
  {
    if |s| <= i {
      var e := CommonLength(s, key);
      DiffDecides(s, key, e);
    }
  }

  // ----- Internal keys as bytes -----

  /** The user key followed by the packed sequence number and type. */
  function EncodeKey(user: Bytes, packed: nat): Bytes
    requires packed < LIMIT64
  {
    user + Fixed64(packed)
  }

  function ExtractUserKey(k: Bytes): Bytes
    requires |k| >= 8
  {
    k[..|k| - 8]
  }

  /** The user key, for any string. */
  function UserPart(k: Bytes): Bytes {
    if |k| >= 8 then ExtractUserKey(k) else []
  }

  function ExtractPacked(k: Bytes): nat
    requires |k| >= 8
  {
    DecodeFixed64(k[|k| - 8..])
  }

  /** InternalKeyComparator::Compare(a, b) < 0.  Its arguments are at least eight
      bytes long; a shorter string counts as an empty user key. */
  predicate InternalBefore(a: Bytes, b: Bytes) {
    if |a| < 8 || |b| < 8 then |a| < 8 <= |b|
    else
      var x, y := ExtractUserKey(a), ExtractUserKey(b);
      Before(x, y) || (x == y && ExtractPacked(a) > ExtractPacked(b))
  }

  /** The byte form of an internal key is ordered like the key it stands for. */
  lemma InternalBeforeIsLess(u: Bytes, v: Bytes, s: nat, t: nat, kind: ValueType, kind': ValueType)
    requires s <= MAX_SEQUENCE && t <= MAX_SEQUENCE
    ensures var a, b := InternalKey(Embed(u), s, kind), InternalKey(Embed(v), t, kind');
      && Pack(a) < LIMIT64 && Pack(b) < LIMIT64
      && (InternalBefore(EncodeKey(u, Pack(a)), EncodeKey(v, Pack(b))) <==> Less(a, b))
  {
    var a, b := InternalKey(Embed(u), s, kind), InternalKey(Embed(v), t, kind');
    KeyParts(u, Pack(a));
    KeyParts(v, Pack(b));
    EmbedInOrder(u, v);
  }

  lemma KeyParts(u: Bytes, packed: nat)
    requires packed < LIMIT64
    ensures var k := EncodeKey(u, packed); |k| == |u| + 8 && ExtractUserKey(k) == u && ExtractPacked(k) == packed
  {
    hide Fixed64, DecodeFixed64;
    var k := EncodeKey(u, packed);
    assert k[|k| - 8..] == Fixed64(packed);
    Fixed64RoundTrip(packed);
  }

  lemma InternalOrder()
    ensures StrictWeakOrder(InternalBefore)
  {
    hide Before, DecodeFixed64;
    BytewiseOrder();
    forall a, b, c ensures InternalBefore(a, b) && InternalBefore(b, c) ==> InternalBefore(a, c) {
      InternalTransitive(a, b, c);
    }
    forall a, b, c ensures !InternalBefore(a, b) && !InternalBefore(b, c) ==> !InternalBefore(a, c) {
      InternalTransitive(a, b, c);
    }
  }

  lemma InternalTransitive(a: Bytes, b: Bytes, c: Bytes)
    ensures InternalBefore(a, b) && InternalBefore(b, c) ==> InternalBefore(a, c)
    ensures !InternalBefore(a, b) && !InternalBefore(b, c) ==> !InternalBefore(a, c)
  {
    hide Before, DecodeFixed64;
    if |a| >= 8 && |b| >= 8 && |c| >= 8 {
      EmbedInOrder(ExtractUserKey(a), ExtractUserKey(b));
      EmbedInOrder(ExtractUserKey(b), ExtractUserKey(c));
      EmbedInOrder(ExtractUserKey(a), ExtractUserKey(c));
    }
  }

  const SEEK_PACKED := MAX_SEQUENCE * 256 + 1

  /** InternalKeyComparator::FindShortestSeparator: at or above `start`, below
      `limit`. */
  method FindShortestInternalSeparator(start: Bytes, limit: Bytes) returns (r: Bytes)
    requires |start| >= 8 && |limit| >= 8
    ensures 8 <= |r| <= |start| && !InternalBefore(r, start)
    ensures InternalBefore(start, limit) ==> InternalBefore(r, limit)
    ensures r == start || (Before(ExtractUserKey(start), ExtractUserKey(r)) && Before(ExtractUserKey(r), ExtractUserKey(limit)))
    ensures forall d: nat | PartAt(ExtractUserKey(start), ExtractUserKey(limit), d) && d + 9 < |start| :: |r| == d + 9
  {
    hide DecodeFixed64, Fixed64, Before, PartAt;
    var userStart, userLimit := ExtractUserKey(start), ExtractUserKey(limit);
    var tmp := FindShortestSeparator(userStart, userLimit);
    BytewiseOrder();
    r := start;
    if |tmp| < |userStart| && Before(userStart, tmp) {
      // Physically shorter, logically larger: add the earliest possible number.
      r := EncodeKey(tmp, SEEK_PACKED);
      KeyParts(tmp, SEEK_PACKED);
    }
  }

  method FindShortInternalSuccessor(key: Bytes) returns (r: Bytes)
    requires |key| >= 8
    ensures 8 <= |r| <= |key| && !InternalBefore(r, key)
  {
    hide DecodeFixed64, Fixed64, Before;
    var userKey := ExtractUserKey(key);
    var tmp := FindShortSuccessor(userKey);
    BytewiseOrder();
    r := key;
    if |tmp| < |userKey| && Before(userKey, tmp) {
      r := EncodeKey(tmp, SEEK_PACKED);
      KeyParts(tmp, SEEK_PACKED);
    }
  }
}
