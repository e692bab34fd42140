/** The bloom filter policy.  The hash of a key is a parameter; so is the number
    of probes, which the source computes in floating point and clamps. */
module Bloom {
  import opened DbFormat

  const LIMIT := 0x1_0000_0000

  type Hash = Bytes -> nat

  // ----- Bits of a byte -----

  predicate Bit(b: nat, k: nat) {
    if k == 0 then b % 2 == 1 else Bit(b / 2, k - 1)
  }

  /** `b | (1 << k)` */
  function WithBit(b: nat, k: nat): nat {
    if k == 0 then b - b % 2 + 1 else b % 2 + 2 * WithBit(b / 2, k - 1)
  }

  lemma {:induction false} WithBitBits(b: nat, k: nat, j: nat)
    ensures Bit(WithBit(b, k), j) <==> j == k || Bit(b, j)
  {
    if k > 0 {
      assert WithBit(b, k) % 2 == b % 2 && WithBit(b, k) / 2 == WithBit(b / 2, k - 1);
      if j > 0 {
        WithBitBits(b / 2, k - 1, j - 1);
      }
    } else {
      assert WithBit(b, 0) / 2 == b / 2;
    }
  }

  lemma {:induction false} WithBitFits(b: nat, k: nat, size: nat)
    requires k < size && b < Power2(size)
    ensures WithBit(b, k) < Power2(size)
  {
    var half := Power2(size - 1);
    assert Power2(size) == 2 * half;
    if k == 0 {
      HalfBelow(b, half);
    } else {
      HalfBelow(b, half);
      WithBitFits(b / 2, k - 1, size - 1);
    }
  }

  lemma HalfBelow(b: nat, half: nat)
    requires b < 2 * half
    ensures b / 2 < half && b - b % 2 + 1 < 2 * half
  {
  }

  function Power2(n: nat): nat {
    if n == 0 then 1 else 2 * Power2(n - 1)
  }

  lemma {:induction false} NoBits(k: nat)
    ensures !Bit(0, k)
  {
    if k > 0 {
      NoBits(k - 1);
    }
  }

  /** The bit at position p of a byte array. */
  predicate BitAt(bits: Bytes, p: nat)
    requires p < 8 * |bits|
  {
    Bit(bits[p / 8] as nat, p % 8)
  }

  function SetBit(bits: Bytes, p: nat): (r: Bytes)
    requires p < 8 * |bits|
    ensures |r| == |bits|
  {
    ByteFits(bits[p / 8], p % 8);
    bits[p / 8 := WithBit(bits[p / 8] as nat, p % 8) as byte]
  }

  lemma ByteFits(b: byte, k: nat)
    requires k < 8
    ensures WithBit(b as nat, k) < 256
  {
    assert Power2(3) == 8 && Power2(6) == 64 && Power2(8) == 256;
    WithBitFits(b as nat, k, 8);
  }

  lemma SetBitBits(bits: Bytes, p: nat, q: nat)
    requires p < 8 * |bits| && q < 8 * |bits|
    ensures BitAt(SetBit(bits, p), q) <==> q == p || BitAt(bits, q)
  {
    if p / 8 == q / 8 {
      WithBitBits(bits[p / 8] as nat, p % 8, q % 8);
    }
  }

  // ----- Double hashing -----

  /** The hash rotated right by 17 bits. */
  function Delta(h: nat): nat
    requires h < LIMIT
  {
    h / 0x2_0000 + h % 0x2_0000 * 0x8000
  }

  /** The hash that probe j of a key looks at. */
  function ProbeHash(h: nat, j: nat): (r: nat)
    requires h < LIMIT
    ensures r < LIMIT
  {
    if j == 0 then h else (ProbeHash(h, j - 1) + Delta(h)) % LIMIT
  }

  function Probe(hash: Hash, key: Bytes, j: nat, bits: nat): (p: nat)
    requires bits > 0
    ensures p < bits
  {
    ProbeHash(hash(key) % LIMIT, j) % bits
  }

  ghost predicate ProbedBy(hash: Hash, key: Bytes, k: nat, bits: nat, p: nat)
    requires bits > 0
  {
    exists j | 0 <= j < k :: Probe(hash, key, j, bits) == p
  }

  ghost predicate Probed(hash: Hash, keys: seq<Bytes>, k: nat, bits: nat, p: nat)
    requires bits > 0
  {
    exists i, j | 0 <= i < |keys| && 0 <= j < k :: Probe(hash, keys[i], j, bits) == p
  }

  /** The number of bytes of a filter for n keys. */
  function FilterBytes(n: nat, bitsPerKey: nat): (r: nat)
    ensures r >= 8
  {
    var bits := n * bitsPerKey;
    ((if bits < 64 then 64 else bits) + 7) / 8
  }

  /** A filter has the bits asked for and at least 64, rounded up to whole bytes. */
  lemma FilterSize(n: nat, bitsPerKey: nat)
    ensures var bits := if n * bitsPerKey < 64 then 64 else n * bitsPerKey;
      bits <= 8 * FilterBytes(n, bitsPerKey) < bits + 8
  {
  }

  /** The probes of a hash are equally spaced, by the hash rotated right. */
  lemma {:induction false} ProbesAreSpaced(h: nat, j: nat)
    requires h < LIMIT
    ensures exists turns: nat :: ProbeHash(h, j) + turns * LIMIT == h + j * Delta(h)
  {
    hide Delta;
    if j == 0 {
      assert ProbeHash(h, 0) + 0 * LIMIT == h;
    } else {
      ProbesAreSpaced(h, j - 1);
      var turns: nat :| ProbeHash(h, j - 1) + turns * LIMIT == h + (j - 1) * Delta(h);
      var sum := ProbeHash(h, j - 1) + Delta(h);
      assert sum == sum % LIMIT + sum / LIMIT * LIMIT;
      assert ProbeHash(h, j) + (turns + sum / LIMIT) * LIMIT == h + j * Delta(h);
    }
  }

  /** Bit 17 goes to bit 0 and bit 0 to bit 15; bits of a byte count from the
      lowest one. */
  lemma BitPlaces()
    ensures Delta(0x2_0000) == 1 && Delta(1) == 0x8000
    ensures BitAt([1, 0x80], 0) && !BitAt([1, 0x80], 7) && BitAt([1, 0x80], 15) && !BitAt([1, 0x80], 8)
  {
    assert Bit(0x80, 7) by {
      assert Bit(1, 0) && Bit(2, 1) && Bit(4, 2) && Bit(8, 3) && Bit(0x10, 4) && Bit(0x20, 5) && Bit(0x40, 6);
    }
    NoBits(6);
    assert !Bit(1, 7) && !Bit(0x80, 0);
  }

  predicate AllProbesSet(hash: Hash, key: Bytes, bits: Bytes, k: nat)
    requires bits != []
  {
    var size := 8 * |bits|;
    forall j | 0 <= j < k :: BitAt(bits, Probe(hash, key, j, size))
  }

  /** KeyMayMatch, as a property of the filter's bits. */
  predicate MayMatch(hash: Hash, key: Bytes, filter: Bytes) {
    var n := |filter|;
    n >= 2 && (filter[n - 1] > 30 || AllProbesSet(hash, key, filter[..n - 1], filter[n - 1] as nat))
  }

  /** The inner loop of CreateFilter: sets the bits one key probes. */
  method AddKey(hash: Hash, k: nat, key: Bytes, before: Bytes) returns (filter: Bytes)
    requires before != []
    ensures |filter| == |before|
    ensures var bits := 8 * |before|;
      forall p | 0 <= p < bits ::
        BitAt(filter, p) <==> BitAt(before, p) || ProbedBy(hash, key, k, bits, p)
  {
    hide BitAt, SetBit, ProbeHash;
    filter := before;
    var bits := 8 * |before|;
    // Double hashing generates the sequence of hash values.
    var h := hash(key) % LIMIT;
    var delta := Delta(h);
    NextProbe(h, 0);
    for j := 0 to k
      invariant |filter| == |before| && h == ProbeHash(hash(key) % LIMIT, j)
      invariant forall p | 0 <= p < bits ::
                  BitAt(filter, p) <==> BitAt(before, p) || ProbedBy(hash, key, j, bits, p)
    {
      var bitpos := h % bits;
      assert bitpos == Probe(hash, key, j, bits);
      forall p | 0 <= p < bits ensures BitAt(SetBit(filter, bitpos), p) <==> p == bitpos || BitAt(filter, p) {
        SetBitBits(filter, bitpos, p);
      }
      forall p | 0 <= p < bits ensures ProbedBy(hash, key, j + 1, bits, p) <==> ProbedBy(hash, key, j, bits, p) || p == bitpos {
        if p == bitpos {
          assert Probe(hash, key, j, bits) == p;
        }
      }
      filter := SetBit(filter, bitpos);
      NextProbe(hash(key) % LIMIT, j);
      h := (h + delta) % LIMIT;
    }
  }

  lemma NextProbe(h: nat, j: nat)
    requires h < LIMIT
    ensures ProbeHash(h, 0) == h
    ensures ProbeHash(h, j + 1) == (ProbeHash(h, j) + Delta(h)) % LIMIT
  {
  }

  /** Appends a filter for the keys: exactly the probed bits are set. */
  method CreateFilter(hash: Hash, k: nat, bitsPerKey: nat, keys: seq<Bytes>, dst: Bytes) returns (r: Bytes)
    requires 1 <= k <= 30
    ensures dst <= r
    ensures var filter := r[|dst|..];
      var n := FilterBytes(|keys|, bitsPerKey);
      && |filter| == n + 1 && filter[n] == k as byte
      && forall p | 0 <= p < 8 * n :: BitAt(filter[..n], p) <==> Probed(hash, keys, k, 8 * n, p)
  {
    hide BitAt, Probed, ProbedBy, FilterBytes;
    var bytes := FilterBytes(|keys|, bitsPerKey);
    var bits := bytes * 8;
    var filter: Bytes := seq(bytes, _ => 0 as byte);
    forall p | 0 <= p < bits ensures !BitAt(filter, p) {
      NoBitsAt(filter, p);
    }
    forall p | 0 <= p < bits ensures !Probed(hash, keys[..0], k, bits, p) {
      NothingProbed(hash, keys[..0], k, bits, p);
    }
    for i := 0 to |keys|
      invariant |filter| == bytes
      invariant forall p | 0 <= p < bits :: BitAt(filter, p) <==> Probed(hash, keys[..i], k, bits, p)
    {
      ghost var before := filter;
      filter := AddKey(hash, k, keys[i], filter);
      assert 8 * |before| == bits;
      forall p | 0 <= p < bits
        ensures Probed(hash, keys[..i + 1], k, bits, p)
           <==> Probed(hash, keys[..i], k, bits, p) || ProbedBy(hash, keys[i], k, bits, p)
      {
        ProbedOneMore(hash, keys, i, k, bits, p);
      }
    }
    assert keys[..|keys|] == keys;
    r := dst + filter + [k as byte];
    assert r[|dst|..] == filter + [k as byte];
    assert r[|dst|..][..bytes] == filter;
  }

  lemma NoBitsAt(filter: Bytes, p: nat)
    requires p < 8 * |filter| && forall i | 0 <= i < |filter| :: filter[i] == 0
    ensures !BitAt(filter, p)
  {
    NoBits(p % 8);
  }

  lemma NothingProbed(hash: Hash, keys: seq<Bytes>, k: nat, bits: nat, p: nat)
    requires keys == [] && bits > 0
    ensures !Probed(hash, keys, k, bits, p)
  {
  }

  lemma ProbedOneMore(hash: Hash, keys: seq<Bytes>, i: nat, k: nat, bits: nat, p: nat)
    requires i < |keys| && bits > 0
    ensures Probed(hash, keys[..i + 1], k, bits, p)
       <==> Probed(hash, keys[..i], k, bits, p) || ProbedBy(hash, keys[i], k, bits, p)
  {
    var more, fewer := keys[..i + 1], keys[..i];
    if m, j :| 0 <= m < |more| && 0 <= j < k && Probe(hash, more[m], j, bits) == p {
      if m < i {
        assert Probe(hash, fewer[m], j, bits) == p;
      }
    }
    if m, j :| 0 <= m < |fewer| && 0 <= j < k && Probe(hash, fewer[m], j, bits) == p {
      assert Probe(hash, more[m], j, bits) == p;
    }
    if q :| 0 <= q < k && Probe(hash, keys[i], q, bits) == p {
      assert Probe(hash, more[i], q, bits) == p;
    }
  }

  method KeyMayMatch(hash: Hash, key: Bytes, filter: Bytes) returns (r: bool)
    ensures r == MayMatch(hash, key, filter)
  {
    var len := |filter|;
    if len < 2 {
      return false;
    }
    var bits := (len - 1) * 8;
    var k := filter[len - 1] as nat;
    if k > 30 {
      // Reserved for new encodings: consider it a match.
      return true;
    }
    r := ProbesMatch(hash, key, filter[..len - 1], bits, k);
  }

  /** The probing loop of KeyMayMatch. */
  method ProbesMatch(hash: Hash, key: Bytes, data: Bytes, bits: nat, k: nat) returns (r: bool)
    requires data != [] && bits == 8 * |data|
    ensures r == AllProbesSet(hash, key, data, k)
  {
    var h := hash(key) % LIMIT;
    ghost var first := h;
    var delta := Delta(h);
    hide BitAt, ProbeHash, Delta, Probe;
    NextProbe(h, 0);
    for j := 0 to k
      invariant h == ProbeHash(first, j)
      invariant AllProbesSet(hash, key, data, j)
    {
      ProbeIs(hash, key, j, bits);
      if !BitAt(data, h % bits) {
        return false;
      }
      NextProbe(first, j);
      h := (h + delta) % LIMIT;
    }
    return true;
  }

  lemma ProbeIs(hash: Hash, key: Bytes, j: nat, bits: nat)
    requires bits > 0
    ensures Probe(hash, key, j, bits) == ProbeHash(hash(key) % LIMIT, j) % bits
  {
  }

  /** What CreateFilter makes has no false negatives. */
  lemma NoFalseNegatives(hash: Hash, k: nat, keys: seq<Bytes>, filter: Bytes, i: nat)
    requires 1 <= k <= 30 && |filter| >= 2 && i < |keys|
    requires filter[|filter| - 1] == k as byte
    requires var n := |filter| - 1;
      forall p | 0 <= p < 8 * n :: BitAt(filter[..n], p) <==> Probed(hash, keys, k, 8 * n, p)
    ensures MayMatch(hash, keys[i], filter)
  {
    var n := |filter| - 1;
    forall j | 0 <= j < k ensures BitAt(filter[..n], Probe(hash, keys[i], j, n * 8)) {
      assert Probed(hash, keys, k, 8 * n, Probe(hash, keys[i], j, n * 8));
    }
  }
}
