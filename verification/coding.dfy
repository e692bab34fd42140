/** Fixed-width and variable-length integers and length-prefixed strings.

    A varint is the "Base 128 Varints" of the Protocol Buffers encoding
    specification: seven bits to a byte, least significant group first, the top
    bit set on every byte but the last. */
module Coding {
  import opened DbFormat

  const LIMIT32 := 0x1_0000_0000
  const LIMIT64 := 0x1_0000_0000_0000_0000

  // ----- Fixed32, little-endian -----

  function Fixed32(v: nat): (r: Bytes)
    requires v < LIMIT32
    ensures |r| == 4
  {
    [(v % 256) as byte, (v / 256 % 256) as byte, (v / 256 / 256 % 256) as byte, (v / 256 / 256 / 256) as byte]
  }

  function DecodeFixed32(s: Bytes): (v: nat)
    requires |s| == 4
    ensures v < LIMIT32
  {
    s[0] as nat + 256 * (s[1] as nat + 256 * (s[2] as nat + 256 * s[3] as nat))
  }

  lemma Fixed32RoundTrip(v: nat)
    requires v < LIMIT32
    ensures DecodeFixed32(Fixed32(v)) == v
  {
  }

  // ----- Fixed64 -----

  function Fixed64(v: nat): (r: Bytes)
    requires v < LIMIT64
    ensures |r| == 8
  {
    Fixed32(v % LIMIT32) + Fixed32(v / LIMIT32)
  }

  function DecodeFixed64(s: Bytes): (v: nat)
    requires |s| == 8
    ensures v < LIMIT64
  {
    DecodeFixed32(s[..4]) + LIMIT32 * DecodeFixed32(s[4..])
  }

  lemma Fixed64RoundTrip(v: nat)
    requires v < LIMIT64
    ensures DecodeFixed64(Fixed64(v)) == v
  {
    hide Fixed32, DecodeFixed32;
    Fixed32RoundTrip(v % LIMIT32);
    Fixed32RoundTrip(v / LIMIT32);
    assert Fixed64(v)[..4] == Fixed32(v % LIMIT32) && Fixed64(v)[4..] == Fixed32(v / LIMIT32);
  }

  // ----- Varints -----

  function Varint(v: nat): (r: Bytes)
    ensures 0 < |r|
  {
    if v < 128 then [v as byte] else [(v % 128 + 128) as byte] + Varint(v / 128)
  }

  /** At most `n` bytes of a varint: its value and how many bytes it takes. */
  function GetVarint(s: Bytes, n: nat): (r: Option<(nat, nat)>)
    ensures r.Some? ==> 0 < r.value.1 <= n && r.value.1 <= |s|
  {
    if n == 0 || s == [] then None
    else if s[0] < 128 then Some((s[0] as nat, 1))
    else
      var rest := GetVarint(s[1..], n - 1);
      if rest.None? then None else Some((s[0] as nat - 128 + 128 * rest.value.0, 1 + rest.value.1))
  }

  lemma VarintOfByte(v: nat)
    requires v < 128
    ensures Varint(v) == [v as byte]
  {
  }

  lemma ShortPrefix(s: Bytes)
    requires |s| < 128
    ensures LengthPrefixed(s) == [|s| as byte] + s
  {
    VarintOfByte(|s|);
  }

  /** The low byte, or the low group of seven bits, comes first. */
  lemma SomeBytes()
    ensures Fixed32(0x0403_0201) == [1, 2, 3, 4]
    ensures Fixed64(0x0807_0605_0403_0201) == [1, 2, 3, 4, 5, 6, 7, 8]
    ensures Varint(150) == [0x96, 0x01] && Varint(300) == [0xAC, 0x02]
    ensures LengthPrefixed([0x68, 0x69]) == [2, 0x68, 0x69]
  {
    VarintOfByte(1);
    VarintOfByte(2);
    assert Varint(150) == [0x96] + Varint(1) && Varint(300) == [0xAC] + Varint(2);
  }

  function Power128(n: nat): (p: nat)
    ensures p > 0
  {
    if n == 0 then 1 else 128 * Power128(n - 1)
  }

  lemma {:induction false} VarintLength(v: nat, n: nat)
    requires v < Power128(n) && n > 0
    ensures |Varint(v)| <= n
  {
    if v >= 128 {
      assert Power128(1) == 128;
      VarintLength(v / 128, n - 1);
    }
  }

  /** A varint reads back, and leaves what follows it. */
  lemma {:induction false} VarintRoundTrip(v: nat, rest: Bytes, n: nat)
    requires |Varint(v)| <= n
    ensures GetVarint(Varint(v) + rest, n) == Some((v, |Varint(v)|))
  {
    if v >= 128 {
      assert (Varint(v) + rest)[1..] == Varint(v / 128) + rest;
      VarintRoundTrip(v / 128, rest, n - 1);
    }
  }

  lemma Sizes()
    ensures Power128(5) >= LIMIT32 && Power128(10) >= LIMIT64
  {
    assert Power128(1) == 128 && Power128(2) == 16384 && Power128(3) == 2097152;
    assert Power128(4) == 268435456 && Power128(5) == 34359738368;
    assert Power128(6) == 4398046511104 && Power128(7) == 562949953421312;
    assert Power128(8) == 72057594037927936 && Power128(9) == 9223372036854775808;
  }

  /** EncodeVarint32: a case for each length. */
  method EncodeVarint32(v: nat) returns (r: Bytes)
    requires v < LIMIT32
    ensures r == Varint(v)
  {
    hide Varint;
    var b := 128;
    VarintStep(v);
    Groups(v);
    if v < 0x80 {
      r := [v as byte];
    } else if v < 0x4000 {
      r := [(v % 128 + b) as byte, (v / 0x80) as byte];
      VarintStep(v / 0x80);
    } else if v < 0x20_0000 {
      r := [(v % 128 + b) as byte, (v / 0x80 % 128 + b) as byte, (v / 0x4000) as byte];
      VarintStep(v / 0x80);
      VarintStep(v / 0x4000);
    } else if v < 0x1000_0000 {
      r := [(v % 128 + b) as byte, (v / 0x80 % 128 + b) as byte, (v / 0x4000 % 128 + b) as byte, (v / 0x20_0000) as byte];
      VarintStep(v / 0x80);
      VarintStep(v / 0x4000);
      VarintStep(v / 0x20_0000);
    } else {
      r := [(v % 128 + b) as byte, (v / 0x80 % 128 + b) as byte, (v / 0x4000 % 128 + b) as byte,
            (v / 0x20_0000 % 128 + b) as byte, (v / 0x1000_0000) as byte];
      VarintStep(v / 0x80);
      VarintStep(v / 0x4000);
      VarintStep(v / 0x20_0000);
      VarintStep(v / 0x1000_0000);
    }
  }

  lemma VarintStep(v: nat)
    ensures Varint(v) == if v < 128 then [v as byte] else [(v % 128 + 128) as byte] + Varint(v / 128)
  {
  }

  lemma Groups(v: nat)
    ensures v / 0x80 / 128 == v / 0x4000 && v / 0x4000 / 128 == v / 0x20_0000 && v / 0x20_0000 / 128 == v / 0x1000_0000
  {
  }

  /** EncodeVarint64: a loop. */
  method EncodeVarint64(v: nat) returns (r: Bytes)
    requires v < LIMIT64
    ensures r == Varint(v)
  {
    var left := v;
    r := [];
    while left >= 128
      invariant r + Varint(left) == Varint(v)
    {
      assert r + Varint(left) == (r + [(left % 128 + 128) as byte]) + Varint(left / 128);
      r := r + [(left % 128 + 128) as byte];
      left := left / 128;
    }
    r := r + [left as byte];
  }

  lemma GetVarintStep(s: Bytes, at: nat, n: nat)
    requires at < |s| && at < n
    ensures s[at] < 128 ==> GetVarint(s[at..], n - at) == Some((s[at] as nat, 1))
    ensures s[at] >= 128 ==>
      var rest := GetVarint(s[at + 1..], n - at - 1);
      GetVarint(s[at..], n - at)
        == if rest.None? then None else Some((s[at] as nat - 128 + 128 * rest.value.0, 1 + rest.value.1))
  {
    assert s[at..][1..] == s[at + 1..];
  }

  /** GetVarint32Ptr and GetVarint64Ptr: `bits` is the width of the result, and
      what is shifted out at the top is lost. */
  method GetVarintPtr(s: Bytes, bits: nat) returns (value: Option<nat>, length: nat)
    requires bits == 32 || bits == 64
    ensures var n := if bits == 32 then 5 else 10;
      var limit := if bits == 32 then LIMIT32 else LIMIT64;
      match GetVarint(s, n)
      case None => value == None
      case Some(p) => value == Some(p.0 % limit) && length == p.1
  {
    var n := if bits == 32 then 5 else 10;
    var limit := if bits == 32 then LIMIT32 else LIMIT64;
    var result: nat, weight: nat := 0, 1;
    length := 0;
    hide GetVarint, ShiftedIn;
    GetVarintEnds(s, n);
    assert s[0..] == s;
    if GetVarint(s, n).Some? {
      ShiftedInFirst(GetVarint(s, n).value.0, limit);
    }
    while length < n && length < |s|
      invariant length <= n && length <= |s|
      invariant match GetVarint(s, n)
        case None => GetVarint(s[length..], n - length) == None
        case Some(p) =>
          var q := GetVarint(s[length..], n - length);
          q.Some? && p.1 == length + q.value.1 && p.0 % limit == ShiftedIn(result, weight, q.value.0, limit)
    {
      var b := s[length] as nat;
      GetVarintStep(s, length, n);
      length := length + 1;
      if b >= 128 {
        // More bytes are present.
        if GetVarint(s[length..], n - length).Some? {
          ShiftedInNext(result, weight, b - 128, GetVarint(s[length..], n - length).value.0, limit);
        }
        result := ShiftedIn(result, weight, b - 128, limit);
        weight := weight * 128;
      } else {
        value := Some(ShiftedIn(result, weight, b, limit));
        return;
      }
    }
    value := None;
    GetVarintEnds(s[length..], n - length);
  }

  /** `result | (group << shift)` in an unsigned type of the given range, where
      weight is 1 << shift and result has only bits below it. */
  function ShiftedIn(result: nat, weight: nat, group: nat, limit: nat): nat
    requires limit > 0
  {
    (result + weight * group) % limit
  }

  lemma ShiftedInFirst(v: nat, limit: nat)
    requires limit > 0
    ensures ShiftedIn(0, 1, v, limit) == v % limit
  {
  }

  lemma ShiftedInNext(result: nat, weight: nat, low: nat, high: nat, limit: nat)
    requires limit > 0
    ensures ShiftedIn(result, weight, low + 128 * high, limit)
         == ShiftedIn(ShiftedIn(result, weight, low, limit), weight * 128, high, limit)
  {
    var x, y := result + weight * low, weight * 128 * high;
    assert result + weight * (low + 128 * high) == x + y;
    ModAdd(x, y, limit);
  }

  lemma GetVarintEnds(s: Bytes, n: nat)
    ensures n == 0 || s == [] ==> GetVarint(s, n) == None
  {
  }

  lemma ModAdd(x: nat, y: nat, m: nat)
    requires m > 0
    ensures (x + y) % m == (x % m + y) % m
  {
    var q := x / m;
    assert x == m * q + x % m;
    ModShift(x % m + y, q, m);
  }

  lemma ModShift(x: nat, q: nat, m: nat)
    requires m > 0
    ensures (x + m * q) % m == x % m
  {
    assert x + m * q == m * (x / m + q) + x % m;
    ModUnique(x + m * q, m, x / m + q, x % m);
  }

  lemma ModUnique(a: nat, m: nat, k: nat, r: nat)
    requires r < m && a == m * k + r
    ensures a % m == r
  {
    var d := k - a / m;
    assert m * d == a % m - r;
    Multiples(m, d);
  }

  lemma Multiples(m: nat, d: int)
    ensures d > 0 ==> m * d >= m
    ensures d < 0 ==> m * d + m <= 0
  {
  }

  // ----- Length-prefixed slices -----

  function LengthPrefixed(s: Bytes): Bytes {
    Varint(|s|) + s
  }

  /** The slice and how many bytes it takes. */
  function GetLengthPrefixed(s: Bytes): Option<(Bytes, nat)> {
    var n := GetVarint(s, 5);
    if n.None? || |s| - n.value.1 < n.value.0 % LIMIT32 then None
    else
      var end := n.value.1 + n.value.0 % LIMIT32;
      Some((s[n.value.1..end], end))
  }

  lemma {:induction false} VarintCut(v: nat, m: nat, n: nat)
    requires m < |Varint(v)|
    ensures GetVarint(Varint(v)[..m], n) == None
    decreases n
  {
    VarintStep(v);
    hide Varint;
    var s := Varint(v)[..m];
    if n > 0 && m > 0 && v >= 128 {
      assert s[1..] == Varint(v / 128)[..m - 1];
      VarintCut(v / 128, m - 1, n - 1);
    }
  }

  /** A length-prefixed slice that was cut off is refused. */
  lemma LengthPrefixedCut(s: Bytes, m: nat)
    requires |s| < LIMIT32 && m < |LengthPrefixed(s)|
    ensures GetLengthPrefixed(LengthPrefixed(s)[..m]) == None
  {
    hide Varint, GetVarint;
    var length := Varint(|s|);
    if m < |length| {
      assert LengthPrefixed(s)[..m] == length[..m];
      VarintCut(|s|, m, 5);
    } else {
      assert LengthPrefixed(s)[..m] == length + s[..m - |length|];
      Sizes();
      VarintLength(|s|, 5);
      VarintRoundTrip(|s|, s[..m - |length|], 5);
    }
  }

  lemma LengthPrefixedRoundTrip(s: Bytes, rest: Bytes)
    requires |s| < LIMIT32
    ensures GetLengthPrefixed(LengthPrefixed(s) + rest) == Some((s, |LengthPrefixed(s)|))
  {
    Sizes();
    VarintLength(|s|, 5);
    VarintRoundTrip(|s|, s + rest, 5);
    assert LengthPrefixed(s) + rest == Varint(|s|) + (s + rest);
  }
}
