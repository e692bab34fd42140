/** CRC-32C (section 12.1 of RFC 3720), the portable branch of `Extend`.

    `Shift(n, x)` pushes n zero bits through the division register.  The five
    lookup tables are taken as what generates them: entry c of
    kByteExtensionTable is c pushed by one byte, and entry c of
    kStrideExtensionTable0..3 is the byte c, standing at position 3..0 of a
    word, pushed by a whole 16-byte stride.

    The bit operations have names so that the lemmas below can use their
    algebra without looking at bits. */
module Crc32c {

  const POLYNOMIAL: bv32 := 0x82f6_3b78
  const ALL_ONES: bv32 := 0xffff_ffff
  const MASK_DELTA: bv32 := 0xa282_ead8

  function Xor(x: bv32, y: bv32): bv32 {
    x ^ y
  }

  function Odd(x: bv32): bv32 {
    x & 1
  }

  function Half(x: bv32): bv32 {
    x >> 1
  }

  function Low(x: bv32): bv32 {
    x & 0xff
  }

  function Down(x: bv32): bv32 {
    x >> 8
  }

  function Wide(b: bv8): bv32 {
    b as bv32
  }

  function Byte1(x: bv32): bv32 {
    (x >> 8) & 0xff
  }

  function Byte2(x: bv32): bv32 {
    (x >> 16) & 0xff
  }

  function Byte3(x: bv32): bv32 {
    x >> 24
  }

  function Up8(x: bv32): bv32 {
    x << 8
  }

  function Up16(x: bv32): bv32 {
    x << 16
  }

  function Up24(x: bv32): bv32 {
    x << 24
  }

  function Word(a: bv8, b: bv8, c: bv8, d: bv8): bv32 {
    (a as bv32) | ((b as bv32) << 8) | ((c as bv32) << 16) | ((d as bv32) << 24)
  }

  function Shift1(x: bv32): bv32 {
    if Odd(x) == 1 then Xor(Half(x), POLYNOMIAL) else Half(x)
  }

  function Shift(n: nat, x: bv32): bv32 {
    if n == 0 then x else Shift1(Shift(n - 1, x))
  }

  function ByteTable(c: bv32): bv32 {
    Shift(8, c)
  }

  function StrideTable0(c: bv32): bv32 {
    Shift(128, Up24(c))
  }

  function StrideTable1(c: bv32): bv32 {
    Shift(128, Up16(c))
  }

  function StrideTable2(c: bv32): bv32 {
    Shift(128, Up8(c))
  }

  function StrideTable3(c: bv32): bv32 {
    Shift(128, c)
  }

  // ----- One byte at a time: the definition -----

  function ByteStep(l: bv32, b: bv8): bv32 {
    Xor(ByteTable(Xor(Low(l), Wide(b))), Down(l))
  }

  function ByteAtATime(l: bv32, data: seq<bv8>): bv32 {
    if data == [] then l else ByteStep(ByteAtATime(l, data[..|data| - 1]), data[|data| - 1])
  }

  /** What `Extend` promises: the CRC of A followed by `data`, where `crc` is
      the CRC of A. */
  function Crc(crc: bv32, data: seq<bv8>): bv32 {
    Xor(ByteAtATime(Xor(crc, ALL_ONES), data), ALL_ONES)
  }

  // ----- Bits -----

  lemma XorAssociative(x: bv32, y: bv32, z: bv32)
    ensures Xor(Xor(x, y), z) == Xor(x, Xor(y, z))
  {
  }

  lemma XorCommutative(x: bv32, y: bv32)
    ensures Xor(x, y) == Xor(y, x)
  {
  }

  lemma XorZero(x: bv32)
    ensures Xor(x, 0) == x && Xor(0, x) == x
  {
  }

  lemma XorSelf(x: bv32)
    ensures Xor(x, x) == 0
  {
  }

  lemma XorExchange(a: bv32, b: bv32, p: bv32, q: bv32)
    ensures Xor(Xor(a, b), Xor(p, q)) == Xor(Xor(a, p), Xor(b, q))
  {
    hide *;
    XorAssociative(a, b, Xor(p, q));
    XorAssociative(a, p, Xor(b, q));
    XorAssociative(b, p, q);
    XorAssociative(p, b, q);
    XorCommutative(b, p);
  }

  lemma XorTwice(a: bv32, b: bv32, p: bv32)
    ensures Xor(Xor(a, p), Xor(b, p)) == Xor(a, b)
  {
    hide *;
    XorExchange(a, p, b, p);
    XorSelf(p);
    XorZero(Xor(a, b));
  }

  lemma XorSwap(a: bv32, b: bv32, p: bv32)
    ensures Xor(Xor(a, p), b) == Xor(Xor(a, b), p)
  {
    hide *;
    XorAssociative(a, p, b);
    XorAssociative(a, b, p);
    XorCommutative(p, b);
  }

  lemma HalfXor(x: bv32, y: bv32)
    ensures Half(Xor(x, y)) == Xor(Half(x), Half(y))
  {
  }

  lemma OddXor(x: bv32, y: bv32)
    ensures Odd(x) == 0 || Odd(x) == 1
    ensures Odd(y) == 0 || Odd(y) == 1
    ensures Odd(Xor(x, y)) == 1 <==> (Odd(x) == 1) != (Odd(y) == 1)
  {
  }

  function High(x: bv32): bv32 {
    x & 0xffff_ff00
  }

  lemma SplitLow(x: bv32)
    ensures x == Xor(Low(x), High(x))
    ensures Low(High(x)) == 0 && Down(High(x)) == Down(x)
  {
  }

  lemma SplitWord(x: bv32, a: bv8, b: bv8, c: bv8, d: bv8) returns (rest: bv32)
    ensures Xor(x, Word(a, b, c, d)) == Xor(Xor(x, Wide(a)), rest)
    ensures Low(rest) == 0 && Down(rest) == Word(b, c, d, 0)
  {
    rest := Word(0, b, c, d);
    WordParts(a, b, c, d);
    assert Xor(x, Xor(Wide(a), rest)) == Xor(Xor(x, Wide(a)), rest) by {
      XorAssociative(x, Wide(a), rest);
    }
  }

  lemma WordParts(a: bv8, b: bv8, c: bv8, d: bv8)
    ensures Word(a, b, c, d) == Xor(Wide(a), Word(0, b, c, d))
    ensures Low(Word(0, b, c, d)) == 0 && Down(Word(0, b, c, d)) == Word(b, c, d, 0)
  {
  }

  lemma SplitBytes(x: bv32)
    ensures x == Xor(Xor(Xor(Low(x), Up8(Byte1(x))), Up16(Byte2(x))), Up24(Byte3(x)))
  {
  }

  // ----- Pushing zero bits is linear -----

  lemma Shift1Xor(x: bv32, y: bv32)
    ensures Shift1(Xor(x, y)) == Xor(Shift1(x), Shift1(y))
  {
    hide Xor, Half, Odd;
    OddXor(x, y);
    HalfXor(x, y);
    XorTwice(Half(x), Half(y), POLYNOMIAL);
    XorSwap(Half(x), Half(y), POLYNOMIAL);
    XorAssociative(Half(x), Half(y), POLYNOMIAL);
  }

  lemma {:induction false} ShiftXor(n: nat, x: bv32, y: bv32)
    ensures Shift(n, Xor(x, y)) == Xor(Shift(n, x), Shift(n, y))
  {
    hide Shift1, Xor;
    if n > 0 {
      ShiftXor(n - 1, x, y);
      Shift1Xor(Shift(n - 1, x), Shift(n - 1, y));
    }
  }

  lemma {:induction false} ShiftShift(m: nat, n: nat, x: bv32)
    ensures Shift(m + n, x) == Shift(m, Shift(n, x))
  {
    hide Shift1;
    if m > 0 {
      ShiftShift(m - 1, n, x);
      assert (m + n) - 1 == (m - 1) + n;
    }
  }

  lemma ShiftsCommute(m: nat, n: nat, x: bv32)
    ensures Shift(m, Shift(n, x)) == Shift(n, Shift(m, x))
  {
    hide *;
    ShiftShift(m, n, x);
    ShiftShift(n, m, x);
  }

  lemma EightShifts(x: bv32)
    ensures Shift(8, x) == Shift1(Shift1(Shift1(Shift1(Shift1(Shift1(Shift1(Shift1(x))))))))
  {
    hide Shift1;
    assert Shift(0, x) == x;
    assert Shift(1, x) == Shift1(x);
    assert Shift(2, x) == Shift1(Shift(1, x));
    assert Shift(3, x) == Shift1(Shift(2, x));
    assert Shift(4, x) == Shift1(Shift(3, x));
    assert Shift(5, x) == Shift1(Shift(4, x));
    assert Shift(6, x) == Shift1(Shift(5, x));
    assert Shift(7, x) == Shift1(Shift(6, x));
  }

  lemma LowByteBits(x: bv32)
    requires Low(x) == 0
    ensures Odd(x) == 0 && Odd(x >> 1) == 0 && Odd(x >> 2) == 0 && Odd(x >> 3) == 0
    ensures Odd(x >> 4) == 0 && Odd(x >> 5) == 0 && Odd(x >> 6) == 0 && Odd(x >> 7) == 0
  {
  }

  lemma EightHalves(x: bv32)
    ensures Half(x) == x >> 1 && Half(x >> 1) == x >> 2 && Half(x >> 2) == x >> 3 && Half(x >> 3) == x >> 4
    ensures Half(x >> 4) == x >> 5 && Half(x >> 5) == x >> 6 && Half(x >> 6) == x >> 7 && Half(x >> 7) == Down(x)
  {
  }

  lemma ShiftEven(x: bv32)
    requires Odd(x) == 0
    ensures Shift1(x) == Half(x)
  {
    hide Odd, Half, Xor;
  }

  /** With the low byte clear, pushing a byte only moves the word down. */
  lemma LowByteClear(x: bv32)
    requires Low(x) == 0
    ensures Shift(8, x) == Down(x)
  {
    hide *;
    EightShifts(x);
    LowByteBits(x);
    EightHalves(x);
    ShiftEven(x);
    ShiftEven(x >> 1);
    ShiftEven(x >> 2);
    ShiftEven(x >> 3);
    ShiftEven(x >> 4);
    ShiftEven(x >> 5);
    ShiftEven(x >> 6);
    ShiftEven(x >> 7);
  }

  /** The table form of the byte step is the register form. */
  lemma ByteStepShifts(l: bv32, b: bv8)
    ensures ByteStep(l, b) == Shift(8, Xor(l, Wide(b)))
  {
    hide Shift, Xor, Low, Down, Wide, High;
    var high := High(l);
    SplitLow(l);
    XorSwap(Low(l), Wide(b), high);
    ShiftXor(8, Xor(Low(l), Wide(b)), high);
    LowByteClear(high);
  }

  // ----- Words -----

  function DecodeFixed32(d: seq<bv8>): bv32
    requires |d| == 4
  {
    Word(d[0], d[1], d[2], d[3])
  }

  lemma WordNextByte(l: bv32, a: bv8, b: bv8, c: bv8, d: bv8)
    ensures Shift(8, Xor(l, Word(a, b, c, d))) == Xor(ByteStep(l, a), Word(b, c, d, 0))
  {
    hide *;
    var rest := SplitWord(l, a, b, c, d);
    ShiftXor(8, Xor(l, Wide(a)), rest);
    LowByteClear(rest);
    ByteStepShifts(l, a);
  }

  lemma FourBytes(l: bv32, d: seq<bv8>)
    requires |d| == 4
    ensures ByteAtATime(l, d) == ByteStep(ByteStep(ByteStep(ByteStep(l, d[0]), d[1]), d[2]), d[3])
  {
    hide ByteStep;
    assert d[..3][..2] == d[..2] && d[..2][..1] == d[..1] && d[..1][..0] == [];
    assert ByteAtATime(l, d[..1]) == ByteStep(l, d[0]);
    assert ByteAtATime(l, d[..2]) == ByteStep(ByteAtATime(l, d[..1]), d[1]);
    assert ByteAtATime(l, d[..3]) == ByteStep(ByteAtATime(l, d[..2]), d[2]);
  }

  lemma FourShifts(k: nat, x: bv32)
    ensures Shift(4 * k, x) == Shift(k, Shift(k, Shift(k, Shift(k, x))))
  {
    hide *;
    ShiftShift(k, 3 * k, x);
    ShiftShift(k, 2 * k, x);
    ShiftShift(k, k, x);
  }

  /** Four byte steps push a whole word. */
  lemma WordStep(l: bv32, d: seq<bv8>)
    requires |d| == 4
    ensures ByteAtATime(l, d) == Shift(32, Xor(l, DecodeFixed32(d)))
  {
    hide Shift, ByteStep, ByteAtATime, Xor, Word;
    FourBytes(l, d);
    var l1 := ByteStep(l, d[0]);
    var l2 := ByteStep(l1, d[1]);
    var l3 := ByteStep(l2, d[2]);
    var l4 := ByteStep(l3, d[3]);
    WordNextByte(l, d[0], d[1], d[2], d[3]);
    WordNextByte(l1, d[1], d[2], d[3], 0);
    WordNextByte(l2, d[2], d[3], 0, 0);
    WordNextByte(l3, d[3], 0, 0, 0);
    WordOfZeros();
    XorZero(l4);
    FourShifts(8, Xor(l, DecodeFixed32(d)));
  }

  lemma WordOfZeros()
    ensures Word(0, 0, 0, 0) == 0
  {
  }

  /** Reading a concatenation is reading twice. */
  lemma {:induction false} ByteAtATimeConcat(l: bv32, a: seq<bv8>, b: seq<bv8>)
    ensures ByteAtATime(l, a + b) == ByteAtATime(ByteAtATime(l, a), b)
  {
    hide ByteStep;
    if b == [] {
      assert a + b == a;
    } else {
      var n := |b| - 1;
      assert (a + b)[..|a + b| - 1] == a + b[..n];
      ByteAtATimeConcat(l, a, b[..n]);
    }
  }

  // ----- Four strides -----

  /** The register that four partial results stand for. */
  function Combined(c0: bv32, c1: bv32, c2: bv32, c3: bv32): bv32 {
    Shift(32, Xor(c3, Shift(32, Xor(c2, Shift(32, Xor(c1, Shift(32, c0)))))))
  }

  /** STEP4: one stride takes the next word of its lane. */
  function StrideStep(c: bv32, w: bv32): bv32 {
    Xor(Xor(Xor(Xor(w, StrideTable3(Low(c))), StrideTable2(Byte1(c))), StrideTable1(Byte2(c))), StrideTable0(Byte3(c)))
  }

  lemma FourXors(w: bv32, a: bv32, b: bv32, c: bv32, d: bv32)
    ensures Xor(Xor(Xor(Xor(w, a), b), c), d) == Xor(w, Xor(Xor(Xor(a, b), c), d))
  {
    hide *;
    XorAssociative(w, a, b);
    XorAssociative(w, Xor(a, b), c);
    XorAssociative(w, Xor(Xor(a, b), c), d);
  }

  lemma StrideStepShifts(c: bv32, w: bv32)
    ensures StrideStep(c, w) == Xor(w, Shift(128, c))
  {
    hide Shift, Xor, Low, Byte1, Byte2, Byte3, Up8, Up16, Up24;
    var x0, x1, x2, x3 := Low(c), Up8(Byte1(c)), Up16(Byte2(c)), Up24(Byte3(c));
    SplitBytes(c);
    ShiftXor(128, Xor(Xor(x0, x1), x2), x3);
    ShiftXor(128, Xor(x0, x1), x2);
    ShiftXor(128, x0, x1);
    FourXors(w, Shift(128, x0), Shift(128, x1), Shift(128, x2), Shift(128, x3));
  }

  lemma ShiftOfTwo(a: bv32, b: bv32, p: bv32, q: bv32)
    ensures Shift(32, Xor(Xor(a, b), Xor(p, q))) == Xor(Shift(32, Xor(a, p)), Shift(32, Xor(b, q)))
  {
    hide *;
    XorExchange(a, b, p, q);
    ShiftXor(32, Xor(a, p), Xor(b, q));
  }

  lemma CombinedXor(a0: bv32, a1: bv32, a2: bv32, a3: bv32, b0: bv32, b1: bv32, b2: bv32, b3: bv32)
    ensures Combined(Xor(a0, b0), Xor(a1, b1), Xor(a2, b2), Xor(a3, b3))
         == Xor(Combined(a0, a1, a2, a3), Combined(b0, b1, b2, b3))
  {
    hide Shift, Xor;
    ShiftXor(32, a0, b0);
    var p, q := Shift(32, a0), Shift(32, b0);
    ShiftOfTwo(a1, b1, p, q);
    var p', q' := Shift(32, Xor(a1, p)), Shift(32, Xor(b1, q));
    ShiftOfTwo(a2, b2, p', q');
    ShiftOfTwo(a3, b3, Shift(32, Xor(a2, p')), Shift(32, Xor(b2, q')));
  }

  lemma ShiftInward(c: bv32, p: bv32)
    ensures Shift(128, Shift(32, Xor(c, p))) == Shift(32, Xor(Shift(128, c), Shift(128, p)))
  {
    hide *;
    ShiftsCommute(128, 32, Xor(c, p));
    ShiftXor(128, c, p);
  }

  lemma CombinedShift(c0: bv32, c1: bv32, c2: bv32, c3: bv32)
    ensures Combined(Shift(128, c0), Shift(128, c1), Shift(128, c2), Shift(128, c3))
         == Shift(128, Combined(c0, c1, c2, c3))
  {
    hide Shift, Xor;
    var p := Shift(32, c0);
    ShiftsCommute(128, 32, c0);
    ShiftInward(c1, p);
    var q := Shift(32, Xor(c1, p));
    ShiftInward(c2, q);
    ShiftInward(c3, Shift(32, Xor(c2, q)));
  }

  lemma CombinedFirst(l: bv32)
    ensures Combined(l, 0, 0, 0) == Shift(128, l)
  {
    hide Shift, Xor;
    XorZero(Shift(32, l));
    XorZero(Shift(32, Shift(32, l)));
    XorZero(Shift(32, Shift(32, Shift(32, l))));
    FourShifts(32, l);
  }

  /** Taking one word per lane is taking the four words in order. */
  lemma SwathStep(c0: bv32, c1: bv32, c2: bv32, c3: bv32, w0: bv32, w1: bv32, w2: bv32, w3: bv32)
    ensures Combined(StrideStep(c0, w0), StrideStep(c1, w1), StrideStep(c2, w2), StrideStep(c3, w3))
         == Combined(Xor(w0, Combined(c0, c1, c2, c3)), w1, w2, w3)
  {
    hide *;
    StrideStepShifts(c0, w0);
    StrideStepShifts(c1, w1);
    StrideStepShifts(c2, w2);
    StrideStepShifts(c3, w3);
    CombinedXor(w0, w1, w2, w3, Shift(128, c0), Shift(128, c1), Shift(128, c2), Shift(128, c3));
    CombinedShift(c0, c1, c2, c3);
    var l := Combined(c0, c1, c2, c3);
    CombinedXor(w0, w1, w2, w3, l, 0, 0, 0);
    CombinedFirst(l);
    XorZero(w1);
    XorZero(w2);
    XorZero(w3);
  }

  /** Taking one word in the first lane and rotating the lanes is taking it. */
  lemma RotateStep(c0: bv32, c1: bv32, c2: bv32, c3: bv32, w: bv32)
    ensures Combined(c1, c2, c3, StrideStep(c0, w)) == Shift(32, Xor(w, Combined(c0, c1, c2, c3)))
  {
    hide *;
    StrideStepShifts(c0, w);
    var s := Shift(128, c0);
    CombinedLast(c1, c2, c3, w, s);
    CombinedPeel(c0, c1, c2, c3);
  }

  lemma CombinedLast(c1: bv32, c2: bv32, c3: bv32, w: bv32, s: bv32)
    ensures Combined(c1, c2, c3, Xor(w, s)) == Shift(32, Xor(w, Xor(Shift(32, Xor(c3, Shift(32, Xor(c2, Shift(32, c1))))), s)))
  {
    hide Shift, Xor;
    var t := Shift(32, Xor(c3, Shift(32, Xor(c2, Shift(32, c1)))));
    XorAssociative(w, s, t);
    XorCommutative(s, t);
  }

  /** The first lane is a whole stride ahead of the others. */
  lemma CombinedPeel(c0: bv32, c1: bv32, c2: bv32, c3: bv32)
    ensures Combined(c0, c1, c2, c3) == Xor(Shift(32, Xor(c3, Shift(32, Xor(c2, Shift(32, c1))))), Shift(128, c0))
  {
    hide Shift, Xor;
    XorZero(c0);
    XorZero(c1);
    XorZero(c2);
    XorZero(c3);
    CombinedXor(0, c1, c2, c3, c0, 0, 0, 0);
    CombinedFirst(c0);
    ShiftOfZero(32);
    XorZero(c1);
  }

  lemma {:induction false} ShiftOfZero(n: nat)
    ensures Shift(n, 0) == 0
  {
    if n > 0 {
      ShiftOfZero(n - 1);
    }
  }

  // ----- Extend -----

  function WordAt(data: seq<bv8>, at: nat): bv32
    requires at + 4 <= |data|
  {
    DecodeFixed32(data[at..at + 4])
  }

  lemma PrefixByte(l: bv32, data: seq<bv8>, p: nat)
    requires p < |data|
    ensures ByteAtATime(l, data[..p + 1]) == ByteStep(ByteAtATime(l, data[..p]), data[p])
  {
    hide ByteStep;
    assert data[..p + 1][..p] == data[..p];
  }

  lemma PrefixWord(l: bv32, data: seq<bv8>, p: nat)
    requires p + 4 <= |data|
    ensures ByteAtATime(l, data[..p + 4]) == Shift(32, Xor(WordAt(data, p), ByteAtATime(l, data[..p])))
  {
    hide Shift, ByteAtATime, DecodeFixed32, Xor;
    assert data[..p + 4] == data[..p] + data[p..p + 4];
    ByteAtATimeConcat(l, data[..p], data[p..p + 4]);
    WordStep(ByteAtATime(l, data[..p]), data[p..p + 4]);
    XorCommutative(ByteAtATime(l, data[..p]), WordAt(data, p));
  }

  lemma PrefixSwath(l: bv32, data: seq<bv8>, p: nat)
    requires p + 16 <= |data|
    ensures ByteAtATime(l, data[..p + 16])
         == Combined(Xor(WordAt(data, p), ByteAtATime(l, data[..p])), WordAt(data, p + 4), WordAt(data, p + 8), WordAt(data, p + 12))
  {
    hide Shift, ByteAtATime, WordAt, Xor;
    PrefixWord(l, data, p);
    PrefixWord(l, data, p + 4);
    PrefixWord(l, data, p + 8);
    PrefixWord(l, data, p + 12);
  }

  /** STEP4W: pushes a loaded word through four byte-table lookups. */
  method FoldWord(w0: bv32, l: bv32) returns (w: bv32)
    ensures w == Shift(32, Xor(w0, l))
  {
    hide *;
    w := Xor(w0, l);
    var i := 0;
    ShiftNone(w);
    while i < 4
      invariant 0 <= i <= 4
      invariant w == Shift(8 * i, Xor(w0, l))
    {
      FoldByte(w);
      ShiftShift(8, 8 * i, Xor(w0, l));
      w := Xor(Down(w), ByteTable(Low(w)));
      i := i + 1;
    }
  }

  lemma ShiftNone(x: bv32)
    ensures Shift(0, x) == x
  {
  }

  lemma WideZero()
    ensures Wide(0) == 0
  {
  }

  lemma FoldByte(w: bv32)
    ensures Xor(Down(w), ByteTable(Low(w))) == Shift(8, w)
  {
    hide Xor, Down, Low, Shift, Wide;
    ByteStepShifts(w, 0);
    WideZero();
    XorZero(w);
    XorZero(Low(w));
    XorCommutative(Down(w), ByteTable(Low(w)));
  }

  /** Bytes before the first 4-byte boundary at or after `address`. */
  function ToBoundary(address: nat): nat {
    (4 - address % 4) % 4
  }

  lemma NextSwath(l: bv32, data: seq<bv8>, p: nat, c0: bv32, c1: bv32, c2: bv32, c3: bv32)
    requires p + 16 <= |data|
    requires ByteAtATime(l, data[..p]) == Combined(c0, c1, c2, c3)
    ensures ByteAtATime(l, data[..p + 16])
         == Combined(StrideStep(c0, WordAt(data, p)), StrideStep(c1, WordAt(data, p + 4)),
                     StrideStep(c2, WordAt(data, p + 8)), StrideStep(c3, WordAt(data, p + 12)))
  {
    hide *;
    PrefixSwath(l, data, p);
    SwathStep(c0, c1, c2, c3, WordAt(data, p), WordAt(data, p + 4), WordAt(data, p + 8), WordAt(data, p + 12));
  }

  lemma NextWord(l: bv32, data: seq<bv8>, p: nat, c0: bv32, c1: bv32, c2: bv32, c3: bv32)
    requires p + 4 <= |data|
    requires ByteAtATime(l, data[..p]) == Combined(c0, c1, c2, c3)
    ensures ByteAtATime(l, data[..p + 4]) == Combined(c1, c2, c3, StrideStep(c0, WordAt(data, p)))
  {
    hide *;
    PrefixWord(l, data, p);
    RotateStep(c0, c1, c2, c3, WordAt(data, p));
  }

  /** crc32c::Extend for `data` lying at `address`: whatever the length and
      the alignment, the result is the byte-at-a-time CRC. */
  method Extend(crc: bv32, data: seq<bv8>, address: nat) returns (r: bv32)
    ensures r == Crc(crc, data)
  {
    hide *;
    var e := |data|;
    var p := 0;
    var l := Xor(crc, ALL_ONES);
    ghost var start := l;
    NothingRead(start, data);
    var x := ToBoundary(address);
    if x <= e {
      while p != x
        invariant 0 <= p <= x
        invariant l == ByteAtATime(start, data[..p])
        decreases x - p
      {
        PrefixByte(start, data, p);
        l := ByteStep(l, data[p]);
        p := p + 1;
      }
    }
    if e - p >= 16 {
      var crc0 := Xor(WordAt(data, p), l);
      var crc1, crc2, crc3 := WordAt(data, p + 4), WordAt(data, p + 8), WordAt(data, p + 12);
      PrefixSwath(start, data, p);
      p := p + 16;
      while e - p >= 16
        invariant p <= e
        invariant ByteAtATime(start, data[..p]) == Combined(crc0, crc1, crc2, crc3)
      {
        NextSwath(start, data, p, crc0, crc1, crc2, crc3);
        crc0 := StrideStep(crc0, WordAt(data, p));
        crc1 := StrideStep(crc1, WordAt(data, p + 4));
        crc2 := StrideStep(crc2, WordAt(data, p + 8));
        crc3 := StrideStep(crc3, WordAt(data, p + 12));
        p := p + 16;
      }
      while e - p >= 4
        invariant p <= e
        invariant ByteAtATime(start, data[..p]) == Combined(crc0, crc1, crc2, crc3)
      {
        NextWord(start, data, p, crc0, crc1, crc2, crc3);
        crc0 := StrideStep(crc0, WordAt(data, p));
        crc0, crc1, crc2, crc3 := crc1, crc2, crc3, crc0;
        p := p + 4;
      }
      CombinedFolds(crc0, crc1, crc2, crc3);
      l := 0;
      l := FoldWord(crc0, l);
      l := FoldWord(crc1, l);
      l := FoldWord(crc2, l);
      l := FoldWord(crc3, l);
    }
    while p != e
      invariant p <= e
      invariant l == ByteAtATime(start, data[..p])
      decreases e - p
    {
      PrefixByte(start, data, p);
      l := ByteStep(l, data[p]);
      p := p + 1;
    }
    r := Xor(l, ALL_ONES);
    AllRead(crc, data);
  }

  lemma NothingRead(l: bv32, data: seq<bv8>)
    ensures ByteAtATime(l, data[..0]) == l
  {
  }

  lemma AllRead(crc: bv32, data: seq<bv8>)
    ensures Crc(crc, data) == Xor(ByteAtATime(Xor(crc, ALL_ONES), data[..|data|]), ALL_ONES)
  {
    assert data[..|data|] == data;
  }

  lemma CombinedFolds(c0: bv32, c1: bv32, c2: bv32, c3: bv32)
    ensures Combined(c0, c1, c2, c3) == Shift(32, Xor(c3, Shift(32, Xor(c2, Shift(32, Xor(c1, Shift(32, Xor(c0, 0))))))))
  {
    hide Shift, Xor;
    XorZero(c0);
  }

  /** Extending by a concatenation is extending twice: the CRC of A, B and C
      can be taken piece by piece. */
  lemma ExtendTwice(crc: bv32, a: seq<bv8>, b: seq<bv8>)
    ensures Crc(crc, a + b) == Crc(Crc(crc, a), b)
  {
    hide Xor, ByteAtATime;
    var l := ByteAtATime(Xor(crc, ALL_ONES), a);
    ByteAtATimeConcat(Xor(crc, ALL_ONES), a, b);
    XorAssociative(l, ALL_ONES, ALL_ONES);
    XorSelf(ALL_ONES);
    XorZero(l);
  }

  // ----- Masking -----

  function Mask(crc: bv32): bv32 {
    ((crc >> 15) | (crc << 17)) + MASK_DELTA
  }

  function Unmask(masked: bv32): bv32 {
    var rot := masked - MASK_DELTA;
    (rot >> 17) | (rot << 15)
  }

  lemma UnmaskMask(crc: bv32)
    ensures Unmask(Mask(crc)) == crc
  {
    var rot := (crc >> 15) | (crc << 17);
    assert Mask(crc) - MASK_DELTA == rot;
    Rotations(crc);
  }

  /** Mask rotates to the right by 15 bits and adds the constant. */
  lemma MaskValues()
    ensures Mask(0) == 0xa282_ead8 && Mask(0x8000) == 0xa282_ead9 && Mask(1) == 0xa284_ead8
  {
  }

  lemma Rotations(crc: bv32)
    ensures (((crc >> 15) | (crc << 17)) >> 17) | (((crc >> 15) | (crc << 17)) << 15) == crc
  {
  }

  /** ... and Mask undoes Unmask, so distinct CRCs stay distinct. */
  lemma MaskUnmask(masked: bv32)
    ensures Mask(Unmask(masked)) == masked
  {
    var rot := masked - MASK_DELTA;
    assert (((rot >> 17) | (rot << 15)) >> 15) | (((rot >> 17) | (rot << 15)) << 17) == rot;
  }
}
