/** What CRC-32C is for: damage confined to 32 consecutive bits is always seen.
    Bits are taken in the order in which they go through the register, the low
    bit of a byte first. */
module CrcBurst {
  import opened Crc32c

  function Bit(b: bv8, j: nat): bool
    requires j < 8
  {
    (b >> j) & 1 == 1
  }

  /** Bit i of the data. */
  function BitAt(data: seq<bv8>, i: nat): bool
    requires i < 8 * |data|
  {
    Bit(data[i / 8], i % 8)
  }

  function BitsOf(data: seq<bv8>): (r: seq<bool>)
    ensures |r| == 8 * |data| && forall i | 0 <= i < |r| :: r[i] == BitAt(data, i)
  {
    seq(8 * |data|, i requires 0 <= i < 8 * |data| => BitAt(data, i))
  }

  function One(b: bool): bv32 {
    if b then 1 else 0
  }

  /** One bit through the register. */
  function BitStep(l: bv32, b: bool): bv32 {
    Shift1(Xor(l, One(b)))
  }

  function BitAtATime(l: bv32, bits: seq<bool>): bv32
    decreases |bits|
  {
    if |bits| == 0 then l else BitAtATime(BitStep(l, bits[0]), bits[1..])
  }

  lemma {:induction false} BitAtATimeConcat(l: bv32, a: seq<bool>, b: seq<bool>)
    ensures BitAtATime(l, a + b) == BitAtATime(BitAtATime(l, a), b)
    decreases |a|
  {
    hide BitStep;
    if a == [] {
      assert a + b == b;
    } else {
      assert (a + b)[1..] == a[1..] + b;
      BitAtATimeConcat(BitStep(l, a[0]), a[1..], b);
    }
  }

  // ----- Up to 32 bits are one word -----

  function Double(x: bv32): bv32 {
    x << 1
  }

  /** The word whose low bits these are. */
  function Pack(bits: seq<bool>): bv32 {
    if |bits| == 0 then 0 else Xor(One(bits[0]), Double(Pack(bits[1..])))
  }

  /** The bits from n on. */
  function Above(n: nat): bv32 {
    if n == 0 then 0xffff_ffff else Double(Above(n - 1))
  }

  predicate Short(x: bv32, n: nat) {
    x & Above(n) == 0
  }

  lemma FourMore(n: nat, x: bv32)
    requires Above(n) == x
    ensures Above(n + 4) == Double(Double(Double(Double(x))))
  {
    hide Double;
    assert Above(n + 1) == Double(x);
    assert Above(n + 2) == Double(Above(n + 1));
    assert Above(n + 3) == Double(Above(n + 2));
  }

  lemma TopOf31()
    ensures Above(31) == 0x8000_0000
  {
    FourMore(0, 0xffff_ffff);
    FourMore(4, 0xffff_fff0);
    FourMore(8, 0xffff_ff00);
    FourMore(12, 0xffff_f000);
    FourMore(16, 0xffff_0000);
    FourMore(20, 0xfff0_0000);
    FourMore(24, 0xff00_0000);
    assert Above(29) == 0xe000_0000 && Above(30) == 0xc000_0000;
  }

  lemma {:induction false} Solid(n: nat)
    ensures Above(n + 1) & Above(n) == Above(n + 1)
  {
    if n > 0 {
      Solid(n - 1);
      SolidUp(Above(n - 1));
    }
  }

  lemma SolidUp(x: bv32)
    requires Double(x) & x == Double(x)
    ensures Double(Double(x)) & Double(x) == Double(Double(x))
  {
  }

  lemma {:induction false} Shrinks(m: nat, n: nat)
    requires m <= n
    ensures Above(n) & Above(m) == Above(n)
    decreases n
  {
    hide Above;
    if m < n {
      Shrinks(m, n - 1);
      Solid(n - 1);
    }
  }

  /** A word of fewer than 32 bits has its top bit clear. */
  lemma TopClear(x: bv32, n: nat)
    requires n <= 31 && Short(x, n)
    ensures x & 0x8000_0000 == 0
  {
    TopOf31();
    Shrinks(n, 31);
    hide Above;
  }

  lemma DoubleWithin(x: bv32, m: bv32)
    requires x & m == 0
    ensures Double(x) & Double(m) == 0 && (1 ^ Double(x)) & Double(m) == 0 && (0 ^ Double(x)) & Double(m) == 0
  {
  }

  lemma DoubleIsEven(x: bv32)
    ensures Odd(Double(x)) == 0 && Odd(Xor(1, Double(x))) == 1
  {
  }

  lemma DoubleHalves(x: bv32)
    requires x & 0x8000_0000 == 0
    ensures Half(Double(x)) == x
  {
  }

  lemma OneHalves(x: bv32)
    requires x & 0x8000_0000 == 0
    ensures Half(Xor(1, Double(x))) == x
  {
  }

  /** The word with bit b in front of x gives both back. */
  lemma DoubleBack(b: bool, x: bv32)
    requires x & 0x8000_0000 == 0
    ensures Odd(Double(x)) == 0 && Half(Double(x)) == x
    ensures Odd(Xor(One(b), Double(x))) == One(b) && Half(Xor(One(b), Double(x))) == x
  {
    hide *;
    DoubleIsEven(x);
    DoubleHalves(x);
    OneHalves(x);
    XorZero(Double(x));
    OneIsBit(b);
  }

  lemma {:induction false} PackIsShort(bits: seq<bool>)
    ensures Short(Pack(bits), |bits|)
  {
    hide Double, Above;
    if |bits| == 0 {
      ZeroIsShort();
    } else {
      PackIsShort(bits[1..]);
      AboveStep(|bits|);
      DoubleWithin(Pack(bits[1..]), Above(|bits| - 1));
    }
  }

  lemma ZeroIsShort()
    ensures Short(0, 0)
  {
  }

  lemma AboveStep(n: nat)
    requires n > 0
    ensures Above(n) == Double(Above(n - 1))
  {
  }

  /** Different bits are different words. */
  lemma {:induction false} PackIsInjective(u: seq<bool>, v: seq<bool>)
    requires |u| == |v| <= 32 && Pack(u) == Pack(v)
    ensures u == v
    decreases |u|
  {
    if |u| > 0 {
      PackUndoes(u);
      PackUndoes(v);
      hide *;
      PackIsInjective(u[1..], v[1..]);
      assert u == [u[0]] + u[1..] && v == [v[0]] + v[1..];
    }
  }

  lemma PackUndoes(bits: seq<bool>)
    requires 0 < |bits| <= 32
    ensures Half(Pack(bits)) == Pack(bits[1..]) && bits[0] == (Odd(Pack(bits)) == 1)
    ensures Pack(bits) == Xor(One(bits[0]), Double(Pack(bits[1..])))
    ensures Odd(Double(Pack(bits[1..]))) == 0 && Half(Double(Pack(bits[1..]))) == Pack(bits[1..])
  {
    hide *;
    PackIsShort(bits[1..]);
    TopClear(Pack(bits[1..]), |bits| - 1);
    DoubleBack(bits[0], Pack(bits[1..]));
    PackStep(bits);
    OneIsBit(bits[0]);
  }

  lemma PackStep(bits: seq<bool>)
    requires 0 < |bits|
    ensures Pack(bits) == Xor(One(bits[0]), Double(Pack(bits[1..])))
  {
  }

  lemma OneIsBit(b: bool)
    ensures One(b) == if b then 1 else 0
  {
  }

  /** Up to 32 bits through the register are one word, pushed by zeros. */
  lemma {:induction false} PackedBits(l: bv32, bits: seq<bool>)
    requires |bits| <= 32
    ensures BitAtATime(l, bits) == Shift(|bits|, Xor(l, Pack(bits)))
    decreases |bits|
  {
    if |bits| == 0 {
      XorZero(l);
      ShiftNone(l);
    } else {
      var b, p := One(bits[0]), Pack(bits[1..]);
      PackUndoes(bits);
      hide *;
      PackedBits(BitStep(l, bits[0]), bits[1..]);
      FirstBit(l, bits);
      ShiftEven(Double(p));
      XorAssociative(l, b, Double(p));
      Shift1Xor(Xor(l, b), Double(p));
      ShiftOnce(Xor(l, Pack(bits)));
      ShiftShift(|bits| - 1, 1, Xor(l, Pack(bits)));
    }
  }

  lemma ShiftOnce(x: bv32)
    ensures Shift(1, x) == Shift1(x)
  {
    hide Shift1;
    assert Shift(0, x) == x;
  }

  lemma FirstBit(l: bv32, bits: seq<bool>)
    requires |bits| > 0
    ensures BitAtATime(l, bits) == BitAtATime(BitStep(l, bits[0]), bits[1..])
    ensures BitStep(l, bits[0]) == Shift1(Xor(l, One(bits[0])))
  {
    hide Shift1;
  }

  // ----- Nothing is lost on the way -----

  /** The polynomial ends in one, so a push loses no information. */
  lemma ShiftOneKernel(x: bv32)
    requires Shift1(x) == 0
    ensures x == 0
  {
  }

  lemma {:induction false} ShiftKernel(n: nat, x: bv32)
    requires Shift(n, x) == 0
    ensures x == 0
  {
    hide Shift1;
    if n > 0 {
      ShiftOneKernel(Shift(n - 1, x));
      ShiftKernel(n - 1, x);
    }
  }

  lemma ShiftIsInjective(n: nat, x: bv32, y: bv32)
    requires Shift(n, x) == Shift(n, y)
    ensures x == y
  {
    hide *;
    ShiftXor(n, x, y);
    XorSelf(Shift(n, x));
    ShiftKernel(n, Xor(x, y));
    XorIsZero(x, y);
  }

  lemma XorIsZero(x: bv32, y: bv32)
    requires Xor(x, y) == 0
    ensures x == y
  {
  }

  lemma XorCancels(x: bv32, y: bv32, z: bv32)
    ensures Xor(x, z) == Xor(y, z) ==> x == y
    ensures Xor(z, x) == Xor(z, y) ==> x == y
  {
  }

  lemma {:induction false} BitsAreInjective(x: bv32, y: bv32, bits: seq<bool>)
    requires BitAtATime(x, bits) == BitAtATime(y, bits)
    ensures x == y
    decreases |bits|
  {
    hide Shift1, Xor, One;
    if |bits| > 0 {
      BitsAreInjective(BitStep(x, bits[0]), BitStep(y, bits[0]), bits[1..]);
      var b := One(bits[0]);
      ShiftOnce(Xor(x, b));
      ShiftOnce(Xor(y, b));
      ShiftIsInjective(1, Xor(x, b), Xor(y, b));
      XorCancels(x, y, b);
    }
  }

  // ----- Bytes as bits -----

  lemma ByteBits(b: bv8)
    ensures Pack(BitsOf([b])) == Wide(b)
  {
    var bits := BitsOf([b]);
    assert |bits| == 8;
    Packs(bits);
    hide Pack, BitsOf;
    ByteSum(b);
  }

  lemma Packs(bits: seq<bool>)
    requires |bits| == 8
    ensures Pack(bits) == Eight(bits[0], bits[1], bits[2], bits[3], bits[4], bits[5], bits[6], bits[7])
  {
    hide Xor, One, Double;
    assert Pack(bits[8..]) == 0;
    assert Pack(bits[7..]) == Next(bits[7], 0) by { assert bits[7..][1..] == bits[8..]; }
    assert Pack(bits[6..]) == Next(bits[6], Pack(bits[7..])) by { assert bits[6..][1..] == bits[7..]; }
    assert Pack(bits[5..]) == Next(bits[5], Pack(bits[6..])) by { assert bits[5..][1..] == bits[6..]; }
    assert Pack(bits[4..]) == Next(bits[4], Pack(bits[5..])) by { assert bits[4..][1..] == bits[5..]; }
    assert Pack(bits[3..]) == Next(bits[3], Pack(bits[4..])) by { assert bits[3..][1..] == bits[4..]; }
    assert Pack(bits[2..]) == Next(bits[2], Pack(bits[3..])) by { assert bits[2..][1..] == bits[3..]; }
    assert Pack(bits[1..]) == Next(bits[1], Pack(bits[2..])) by { assert bits[1..][1..] == bits[2..]; }
  }

  function Eight(a: bool, b: bool, c: bool, d: bool, e: bool, f: bool, g: bool, h: bool): bv32 {
    Next(a, Next(b, Next(c, Next(d, Next(e, Next(f, Next(g, Next(h, 0))))))))
  }

  function Next(b: bool, x: bv32): bv32 {
    Xor(One(b), Double(x))
  }

  lemma ByteSum(b: bv8)
    ensures Eight(Bit(b, 0), Bit(b, 1), Bit(b, 2), Bit(b, 3), Bit(b, 4), Bit(b, 5), Bit(b, 6), Bit(b, 7)) == Wide(b)
  {
  }

  lemma ByteIsBits(l: bv32, b: bv8)
    ensures ByteStep(l, b) == BitAtATime(l, BitsOf([b]))
  {
    assert |BitsOf([b])| == 8;
    hide *;
    ByteStepShifts(l, b);
    ByteBits(b);
    PackedBits(l, BitsOf([b]));
  }

  lemma BitsJoin(a: seq<bv8>, b: seq<bv8>)
    ensures BitsOf(a + b) == BitsOf(a) + BitsOf(b)
  {
    hide Bit;
    var c := a + b;
    forall i | 0 <= i < 8 * |c| ensures BitAt(c, i) == (BitsOf(a) + BitsOf(b))[i] {
      if i >= 8 * |a| {
        var k := i - 8 * |a|;
        assert i / 8 == |a| + k / 8 && i % 8 == k % 8;
      }
    }
  }

  /** Byte by byte through the tables is bit by bit through the register. */
  lemma {:induction false} BytesAreBits(l: bv32, data: seq<bv8>)
    ensures ByteAtATime(l, data) == BitAtATime(l, BitsOf(data))
  {
    hide ByteStep, BitsOf, BitStep;
    if data == [] {
      assert |BitsOf(data)| == 0;
    } else {
      var n := |data| - 1;
      BytesAreBits(l, data[..n]);
      assert data == data[..n] + [data[n]];
      BitsJoin(data[..n], [data[n]]);
      BitAtATimeConcat(l, BitsOf(data[..n]), BitsOf([data[n]]));
      ByteIsBits(ByteAtATime(l, data[..n]), data[n]);
    }
  }

  // ----- The theorem -----

  lemma {:induction false} DifferentBits(a: seq<bv8>, b: seq<bv8>)
    requires |a| == |b| && BitsOf(a) == BitsOf(b)
    ensures a == b
  {
    forall k | 0 <= k < |a| ensures a[k] == b[k] {
      forall j | 0 <= j < 8 ensures Bit(a[k], j) == Bit(b[k], j) {
        assert BitsOf(a)[8 * k + j] == BitAt(a, 8 * k + j) && (8 * k + j) / 8 == k && (8 * k + j) % 8 == j;
        assert BitsOf(b)[8 * k + j] == BitAt(b, 8 * k + j);
      }
      SameByte(a[k], b[k]);
    }
  }

  lemma SameByte(x: bv8, y: bv8)
    requires forall j | 0 <= j < 8 :: Bit(x, j) == Bit(y, j)
    ensures x == y
  {
    assert Bit(x, 0) == Bit(y, 0) && Bit(x, 1) == Bit(y, 1) && Bit(x, 2) == Bit(y, 2) && Bit(x, 3) == Bit(y, 3);
    assert Bit(x, 4) == Bit(y, 4) && Bit(x, 5) == Bit(y, 5) && Bit(x, 6) == Bit(y, 6) && Bit(x, 7) == Bit(y, 7);
    ByteSum(x);
    ByteSum(y);
    hide Bit, Eight;
    WideIsInjective(x, y);
  }

  lemma WideIsInjective(x: bv8, y: bv8)
    requires Wide(x) == Wide(y)
    ensures x == y
  {
  }

  /** a and b agree outside the 32 bits from `at` on. */
  ghost predicate WithinBurst(a: seq<bv8>, b: seq<bv8>, at: nat) {
    |a| == |b| && forall i | 0 <= i < 8 * |a| && !(at <= i < at + 32) :: BitAt(a, i) == BitAt(b, i)
  }

  /** Damage confined to 32 consecutive bits changes the CRC, whatever came
      before. */
  lemma BurstIsDetected(crc: bv32, a: seq<bv8>, b: seq<bv8>, at: nat)
    requires WithinBurst(a, b, at) && a != b
    ensures Crc(crc, a) != Crc(crc, b)
  {
    var l := Xor(crc, ALL_ONES);
    var p, u, v, s := Parts(a, b, at);
    hide BitAtATime, ByteAtATime, BitsOf, Xor;
    if Crc(crc, a) == Crc(crc, b) {
      XorCancels(ByteAtATime(l, a), ByteAtATime(l, b), ALL_ONES);
      BytesAreBits(l, a);
      BytesAreBits(l, b);
      WindowDecides(l, p, u, v, s);
      DifferentBits(a, b);
    }
  }

  lemma WindowDecides(l: bv32, p: seq<bool>, u: seq<bool>, v: seq<bool>, s: seq<bool>)
    requires |u| == |v| <= 32 && BitAtATime(l, p + u + s) == BitAtATime(l, p + v + s)
    ensures u == v
  {
    hide *;
    BitAtATimeConcat(l, p + u, s);
    BitAtATimeConcat(l, p + v, s);
    BitAtATimeConcat(l, p, u);
    BitAtATimeConcat(l, p, v);
    var m := BitAtATime(l, p);
    BitsAreInjective(BitAtATime(m, u), BitAtATime(m, v), s);
    PackedBits(m, u);
    PackedBits(m, v);
    ShiftIsInjective(|u|, Xor(m, Pack(u)), Xor(m, Pack(v)));
    XorCancels(Pack(u), Pack(v), m);
    PackIsInjective(u, v);
  }

  lemma Parts(a: seq<bv8>, b: seq<bv8>, at: nat) returns (p: seq<bool>, u: seq<bool>, v: seq<bool>, s: seq<bool>)
    requires WithinBurst(a, b, at)
    ensures |u| == |v| <= 32 && BitsOf(a) == p + u + s && BitsOf(b) == p + v + s
  {
    hide BitAt;
    var x, y, n := BitsOf(a), BitsOf(b), 8 * |a|;
    var from := if at < n then at else n;
    var to := if from + 32 < n then from + 32 else n;
    p, u, v, s := x[..from], x[from..to], y[from..to], x[to..];
    assert x == p + u + s;
    assert y[..from] == p && y[to..] == s;
    assert y == y[..from] + v + y[to..];
  }

  /** Two entries of the byte table. */
  lemma TableEntries()
    ensures ByteTable(0x01) == 0xf26b_8303 && ByteTable(0x80) == 0x82f6_3b78
  {
    EightShifts(0x01);
    EightShifts(0x80);
    assert Shift1(Shift1(Shift1(Shift1(0x01)))) == 0x105e_c76f;
    assert Shift1(Shift1(Shift1(Shift1(0x80)))) == 8;
  }
}
