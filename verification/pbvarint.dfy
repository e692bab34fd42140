/** Exactly which varints pb_decode_varint32 accepts, and what it reads there. */
module PbVarint {
  import opened DbFormat
  import opened PbWire
  import Coding

  /** A group past bit 34 is padding, or one of a sign extension. */
  predicate GroupFits(b: byte, i: nat, negative: bool) {
    b as nat % 128 == 0 || (negative && b as nat == if i < 9 then 0xFF else 0x01)
  }

  /** The varint that ends before byte n fits into 32 bits, as far as bytes from
      i on tell; `low` is its low half.  The upper bits of the fifth byte only
      count where it is the last. */
  ghost predicate FitsFrom(s: Bytes, i: nat, n: nat, low: nat)
    requires i <= n <= |s|
  {
    && (n == 5 ==> s[4] < 16)
    && forall j | i <= j < n && 5 <= j :: GroupFits(s[j], j, low >= 0x8000_0000)
  }

  /** 2 to the power 7 * i, where the result has room for group i. */
  function Weight(i: nat): nat {
    if i == 1 then 0x80 else if i == 2 then 0x4000 else if i == 3 then 0x20_0000 else 0x1000_0000
  }

  /** The low 32 bits of a number whose groups from i on are w, and whose lower
      ones have been taken. */
  function LowBits(i: nat, result: nat, w: nat): nat {
    if i < 5 then (result + w * Weight(i)) % Coding.LIMIT32 else result
  }

  ghost predicate TakenSoFar(i: nat, result: nat) {
    if i < 5 then result < Weight(i) else result < Coding.LIMIT32
  }

  lemma WeightIs(i: nat)
    requires 1 <= i < 5
    ensures Pow2(7 * i) == Weight(i)
  {
    Powers();
    hide Pow2;
  }

  lemma TakenIs(i: nat, result: nat, b: byte)
    requires 1 <= i < 10 && TakenSoFar(i, result)
    ensures var g := b as nat % 128;
      Taken(b, 7 * i, result) == if i < 4 then result + g * Weight(i) else if i == 4 then result + g % 16 * Weight(i) else result
  {
    hide BitOr, Pow2;
    var g := b as nat % 128;
    if i < 5 {
      WeightIs(i);
      if i == 4 {
        FifthGroup(0, g, 0);
        OrAdds(result, g % 16, 28);
      } else {
        OrAdds(result, g, 7 * i);
      }
    }
  }

  lemma FifthGroup(result: nat, g: nat, w: nat)
    requires result < 0x1000_0000 && g < 128
    ensures (result + (g + 128 * w) * 0x1000_0000) % Coding.LIMIT32 == result + g % 16 * 0x1000_0000
  {
    var low, high := result + g % 16 * 0x1000_0000, g / 16 + 8 * w;
    assert result + (g + 128 * w) * 0x1000_0000 == low + high * Coding.LIMIT32;
    assert low < Coding.LIMIT32;
  }

  lemma EarlyGroup(i: nat, result: nat, g: nat, w: nat)
    requires 1 <= i < 4 && result < Weight(i) && g < 128
    ensures Weight(i + 1) == 128 * Weight(i) && result + g * Weight(i) < Weight(i + 1)
    ensures result + (g + 128 * w) * Weight(i) == (result + g * Weight(i)) + w * Weight(i + 1)
  {
  }

  /** One group more, whatever comes after it. */
  lemma LowNext(i: nat, result: nat, b: byte, w: nat)
    requires 1 <= i < 10 && TakenSoFar(i, result)
    ensures TakenSoFar(i + 1, Taken(b, 7 * i, result))
    ensures LowBits(i, result, b as nat % 128 + 128 * w) == LowBits(i + 1, Taken(b, 7 * i, result), w)
  {
    TakenIs(i, result, b);
    var g := b as nat % 128;
    hide Taken;
    if i < 4 {
      EarlyGroup(i, result, g, w);
    } else if i == 4 {
      FifthGroup(result, g, w);
    }
  }

  lemma NothingMore(i: nat, result: nat)
    requires TakenSoFar(i, result)
    ensures LowBits(i, result, 0) == result
  {
  }

  /** The decoder from byte i on, 7 * i bits having been read. */
  ghost predicate RestExact(s: Bytes, i: nat, result: nat)
    requires 1 <= i <= 10 && i <= |s|
  {
    var w, r := Coding.GetVarint(s[i..], 10 - i), Varint32Rest(s[i..], 7 * i, result);
    if r.Some? && r.value.1 <= 10 - i then
      && w.Some? && w.value.1 == r.value.1
      && r.value.0 == LowBits(i, result, w.value.0)
      && FitsFrom(s, i, i + w.value.1, r.value.0)
    else
      w.Some? ==> !FitsFrom(s, i, i + w.value.1, LowBits(i, result, w.value.0))
  }

  lemma OverflowsExactly(b: byte, i: nat, result: nat)
    requires 1 <= i < 10
    ensures Overflows(b, 7 * i, result) <==> i >= 5 && !GroupFits(b, i, result >= 0x8000_0000)
  {
    Powers();
    hide Pow2;
  }

  lemma RestNext(s: Bytes, i: nat, result: nat)
    requires 1 <= i < 10 && i < |s|
    ensures Overflows(s[i], 7 * i, result) ==> Varint32Rest(s[i..], 7 * i, result) == None
    ensures !Overflows(s[i], 7 * i, result) && s[i] < 128 ==>
      Varint32Rest(s[i..], 7 * i, result) == if i == 4 && s[i] >= 16 then None else Some((Taken(s[i], 7 * i, result), 1))
    ensures !Overflows(s[i], 7 * i, result) && s[i] >= 128 ==>
      var rest := Varint32Rest(s[i + 1..], 7 * (i + 1), Taken(s[i], 7 * i, result));
      Varint32Rest(s[i..], 7 * i, result) == if rest.None? then None else Some((rest.value.0, 1 + rest.value.1))
  {
    hide Taken, Overflows;
    assert s[i..][0] == s[i] && s[i..][1..] == s[i + 1..];
    assert (7 * i + 7) % 256 == 7 * (i + 1);
  }

  lemma GroupsNext(s: Bytes, i: nat)
    requires i < 10 && i < |s|
    ensures s[i] < 128 ==> Coding.GetVarint(s[i..], 10 - i) == Some((s[i] as nat, 1))
    ensures s[i] >= 128 ==>
      var rest := Coding.GetVarint(s[i + 1..], 9 - i);
      Coding.GetVarint(s[i..], 10 - i)
        == if rest.None? then None else Some((s[i] as nat - 128 + 128 * rest.value.0, 1 + rest.value.1))
  {
    assert s[i..][0] == s[i] && s[i..][1..] == s[i + 1..];
  }

  lemma FitsNext(s: Bytes, i: nat, n: nat, low: nat)
    requires i < n <= |s|
    ensures FitsFrom(s, i, n, low) <==> FitsFrom(s, i + 1, n, low) && (i >= 5 ==> GroupFits(s[i], i, low >= 0x8000_0000))
  {
    hide GroupFits;
    var negative := low >= 0x8000_0000;
    assert i >= 5 && FitsFrom(s, i, n, low) ==> GroupFits(s[i], i, negative);
    if FitsFrom(s, i + 1, n, low) && (i >= 5 ==> GroupFits(s[i], i, negative)) {
      forall j | i <= j < n && 5 <= j ensures GroupFits(s[j], j, negative) {
        assert j == i || i + 1 <= j;
      }
    }
  }

  lemma {:induction false} RestIsExact(s: Bytes, i: nat, result: nat)
    requires 1 <= i <= 10 && i <= |s| && TakenSoFar(i, result)
    ensures RestExact(s, i, result)
    decreases 10 - i
  {
    if i < 10 && i < |s| {
      hide *;
      LowNext(i, result, s[i], 0);
      if s[i] >= 128 {
        RestIsExact(s, i + 1, Taken(s[i], 7 * i, result));
        GroupBefore(s, i, result);
      } else {
        LastGroup(s, i, result);
      }
    }
  }

  lemma GroupBefore(s: Bytes, i: nat, result: nat)
    requires 1 <= i < 10 && i < |s| && s[i] >= 128 && TakenSoFar(i, result)
    requires RestExact(s, i + 1, Taken(s[i], 7 * i, result))
    ensures RestExact(s, i, result)
  {
    hide LowBits, TakenSoFar, Taken, Overflows, GroupFits, FitsFrom, Varint32Rest, Coding.GetVarint;
    OverflowsExactly(s[i], i, result);
    RestNext(s, i, result);
    GroupsNext(s, i);
    var w := Coding.GetVarint(s[i + 1..], 9 - i);
    if w.Some? {
      var low := LowBits(i, result, s[i] as nat % 128 + 128 * w.value.0);
      LowNext(i, result, s[i], w.value.0);
      FitsNext(s, i, i + 1 + w.value.1, low);
      LateLow(i, result, s[i] as nat % 128 + 128 * w.value.0);
    }
  }

  lemma LateLow(i: nat, result: nat, w: nat)
    ensures i >= 5 ==> LowBits(i, result, w) == result
  {
  }

  lemma LastGroup(s: Bytes, i: nat, result: nat)
    requires 1 <= i < 10 && i < |s| && s[i] < 128 && TakenSoFar(i, result)
    ensures RestExact(s, i, result)
  {
    hide LowBits, TakenSoFar, Taken, Overflows, GroupFits, Varint32Rest, Coding.GetVarint;
    OverflowsExactly(s[i], i, result);
    RestNext(s, i, result);
    GroupsNext(s, i);
    LowNext(i, result, s[i], 0);
    assert s[i] as nat % 128 + 128 * 0 == s[i] as nat;
    NothingMore(i + 1, Taken(s[i], 7 * i, result));
    LateLow(i, result, s[i] as nat);
    FitsNext(s, i, i + 1, LowBits(i, result, s[i] as nat));
  }

  /** Of the first ten bytes pb_decode_varint32 accepts exactly the varints
      that fit, and reads their low 32 bits. */
  lemma Varint32Exactly(s: Bytes)
    ensures var w, r := Coding.GetVarint(s, 10), Varint32(s);
      if r.Some? && r.value.1 <= 10 then
        && w.Some? && r.value == (w.value.0 % Coding.LIMIT32, w.value.1)
        && FitsFrom(s, 1, w.value.1, r.value.0)
      else
        w.Some? ==> !FitsFrom(s, 1, w.value.1, w.value.0 % Coding.LIMIT32)
  {
    hide *;
    VarintOfNone();
    if s != [] {
      FirstByte(s);
      if s[0] >= 128 {
        var b := s[0] as nat - 128;
        LaterBytes(b, 0);
        RestIsExact(s, 1, b);
        RestIs(s, b);
        var w := Coding.GetVarint(s[1..], 9);
        if w.Some? {
          LaterBytes(b, w.value.0);
        }
      }
    }
  }

  lemma VarintOfNone()
    ensures Varint32([]) == None && Coding.GetVarint([], 10) == None
  {
  }

  lemma FirstByte(s: Bytes)
    requires s != []
    ensures s[0] as nat % Coding.LIMIT32 == s[0] as nat
    ensures s[0] < 128 ==>
      Varint32(s) == Some((s[0] as nat, 1)) == Coding.GetVarint(s, 10) && FitsFrom(s, 1, 1, s[0] as nat)
    ensures s[0] >= 128 ==>
      var rest := Varint32Rest(s[1..], 7, s[0] as nat - 128);
      Varint32(s) == if rest.None? then None else Some((rest.value.0, 1 + rest.value.1))
    ensures s[0] >= 128 ==>
      var rest := Coding.GetVarint(s[1..], 9);
      Coding.GetVarint(s, 10) == if rest.None? then None else Some((s[0] as nat - 128 + 128 * rest.value.0, 1 + rest.value.1))
  {
    hide Varint32Rest;
    assert s[0..] == s;
    GroupsNext(s, 0);
  }

  lemma LaterBytes(b: nat, w: nat)
    requires b < 128
    ensures TakenSoFar(1, b) && LowBits(1, b, w) == (b + 128 * w) % Coding.LIMIT32
  {
  }

  lemma RestIs(s: Bytes, b: nat)
    requires s != [] && RestExact(s, 1, b)
    ensures var w, r := Coding.GetVarint(s[1..], 9), Varint32Rest(s[1..], 7, b);
      if r.Some? && r.value.1 <= 9 then
        && w.Some? && r.value == (LowBits(1, b, w.value.0), w.value.1)
        && FitsFrom(s, 1, 1 + w.value.1, r.value.0)
      else
        w.Some? ==> !FitsFrom(s, 1, 1 + w.value.1, LowBits(1, b, w.value.0))
  {
    hide LowBits, FitsFrom, Varint32Rest, Coding.GetVarint;
  }

  lemma Peel(v: nat)
    requires v >= 128
    ensures Coding.Varint(v) == [(v % 128 + 128) as byte] + Coding.Varint(v / 128)
  {
    hide Coding.Varint;
    Coding.VarintStep(v);
  }

  lemma AllOnes()
    ensures Coding.Varint(0x1fff_ffff) == [0xff, 0xff, 0xff, 0xff, 0x01]
  {
    hide Coding.Varint;
    Peel(0x1fff_ffff);
    Peel(0x3f_ffff);
    Peel(0x7fff);
    Peel(0xff);
    Coding.VarintOfByte(1);
  }

  lemma FiveGroups(v: nat)
    requires v / 0x8_0000_0000 == 0x1fff_ffff
    ensures |Coding.Varint(v)| == 10 && Coding.Varint(v)[5..] == [0xff, 0xff, 0xff, 0xff, 0x01]
  {
    hide Coding.Varint;
    AllOnes();
    Peel(v);
    Peel(v / 128);
    Peel(v / 128 / 128);
    Peel(v / 128 / 128 / 128);
    Peel(v / 128 / 128 / 128 / 128);
    assert v / 128 / 128 / 128 / 128 / 128 == 0x1fff_ffff;
  }

  /** A negative number, which the encoder extends to 64 bits, reads as its 32 bits. */
  lemma SignExtends(n: int, after: Bytes)
    requires -0x8000_0000 <= n < 0
    ensures Varint32(Coding.Varint(n + Coding.LIMIT64) + after) == Some((n + Coding.LIMIT32, 10))
  {
    var v := n + Coding.LIMIT64;
    var s := Coding.Varint(v) + after;
    SignBits(n);
    hide *;
    FiveGroups(v);
    Coding.VarintRoundTrip(v, after, 10);
    Varint32Exactly(s);
    assert s[5..10] == Coding.Varint(v)[5..];
    ExtensionFits(s, n + Coding.LIMIT32);
  }

  lemma SignBits(n: int)
    requires -0x8000_0000 <= n < 0
    ensures var v := n + Coding.LIMIT64;
      v > 0 && v / 0x8_0000_0000 == 0x1fff_ffff && v % Coding.LIMIT32 == n + Coding.LIMIT32 >= 0x8000_0000
  {
  }

  lemma ExtensionFits(s: Bytes, low: nat)
    requires |s| >= 10 && s[5..10] == [0xff, 0xff, 0xff, 0xff, 0x01] && low >= 0x8000_0000
    ensures FitsFrom(s, 1, 10, low)
  {
    assert forall j | 5 <= j < 10 :: s[j] == s[5..10][j - 5];
  }

  lemma GroupThen(b: byte, t: Bytes, n: nat)
    requires b >= 128 && n > 0
    ensures var rest := Coding.GetVarint(t, n - 1);
      Coding.GetVarint([b] + t, n) == if rest.None? then None else Some((b as nat - 128 + 128 * rest.value.0, 1 + rest.value.1))
  {
    assert ([b] + t)[1..] == t;
  }

  lemma PaddingFits(i: nat)
    ensures GroupFits(0, i, false) && Coding.GetVarint([0], 5) == Some((0, 1))
  {
  }

  /** What the decoder does not see: bits 32 to 34, where padding follows. */
  lemma OverflowSlips()
    ensures Varint32([0x80, 0x80, 0x80, 0x80, 0x90, 0x00]) == Some((0, 6))
    ensures Coding.GetVarint([0x80, 0x80, 0x80, 0x80, 0x90, 0x00], 10) == Some((0x1_0000_0000, 6))
  {
    hide Varint32, GroupFits, Coding.GetVarint;
    PaddingFits(5);
    GroupThen(0x90, [0], 6);
    GroupThen(0x80, [0x90, 0], 7);
    GroupThen(0x80, [0x80, 0x90, 0], 8);
    GroupThen(0x80, [0x80, 0x80, 0x90, 0], 9);
    GroupThen(0x80, [0x80, 0x80, 0x80, 0x90, 0], 10);
    var s: Bytes := [0x80] + [0x80, 0x80, 0x80, 0x90, 0];
    assert [0x80] + [0x80, 0x80, 0x90, 0] == [0x80, 0x80, 0x80, 0x90, 0];
    assert [0x80] + [0x80, 0x90, 0] == [0x80, 0x80, 0x90, 0];
    assert [0x80] + [0x90, 0] == [0x80, 0x90, 0];
    assert [0x90] + [0] == [0x90, 0];
    assert s == [0x80, 0x80, 0x80, 0x80, 0x90, 0];
    Varint32Exactly(s);
  }

  // ----- When the number read is the one that is there -----

  /** v is the number w, or the 32 bits of a negative number that w extends. */
  predicate SameNumber(w: nat, v: nat) {
    w == v || (w == v + 0xffff_ffff_0000_0000 && 0x8000_0000 <= v < 0x1_0000_0000)
  }

  lemma {:induction false} PaddingIsZero(s: Bytes, i: nat)
    requires 5 <= i <= 10 && i <= |s| && Coding.GetVarint(s[i..], 10 - i).Some?
    ensures var w := Coding.GetVarint(s[i..], 10 - i).value;
      w.0 == 0 <==> forall j | i <= j < i + w.1 :: s[j] as nat % 128 == 0
    decreases 10 - i
  {
    if i < 10 && i < |s| {
      GroupsNext(s, i);
      hide Coding.GetVarint;
      if s[i] >= 128 {
        PaddingIsZero(s, i + 1);
      }
    }
  }

  /** The last five groups of a sign extension. */
  predicate Ones(s: Bytes, n: nat)
    requires n <= |s|
  {
    n == 10 && s[5..10] == [0xff, 0xff, 0xff, 0xff, 0x01]
  }

  lemma Bounded(s: Bytes, i: nat)
    requires 5 <= i <= 10 && i <= |s| && Coding.GetVarint(s[i..], 10 - i).Some?
    ensures var w := Coding.GetVarint(s[i..], 10 - i).value;
      && w.1 <= 10 - i
      && (w.1 <= 1 ==> w.0 < 0x80) && (w.1 <= 2 ==> w.0 < 0x4000) && (w.1 <= 3 ==> w.0 < 0x20_0000)
      && (w.1 <= 4 ==> w.0 < 0x1000_0000)
    decreases 10 - i
  {
    if i < 10 && i < |s| {
      GroupsNext(s, i);
      hide Coding.GetVarint;
      if s[i] >= 128 {
        Bounded(s, i + 1);
      }
    }
  }

  lemma OnesAre(s: Bytes)
    requires 5 <= |s| && Coding.GetVarint(s[5..], 5).Some?
    ensures var w := Coding.GetVarint(s[5..], 5).value;
      w.0 == 0x1fff_ffff <==> Ones(s, 5 + w.1)
  {
    var w := Coding.GetVarint(s[5..], 5).value;
    Bounded(s, 5);
    hide Coding.GetVarint, Ones;
    if w.1 == 5 {
      OnesOfFive(s);
    } else {
      NotTen(s, 5 + w.1);
    }
  }

  lemma NotTen(s: Bytes, n: nat)
    requires n <= |s| && n != 10
    ensures !Ones(s, n)
  {
  }

  lemma OnesOfFive(s: Bytes)
    requires 5 <= |s| && Coding.GetVarint(s[5..], 5).Some? && Coding.GetVarint(s[5..], 5).value.1 == 5
    ensures Coding.GetVarint(s[5..], 5).value.0 == 0x1fff_ffff <==> Ones(s, 10)
  {
    hide Coding.GetVarint;
    GroupsNext(s, 5);
    GroupsNext(s, 6);
    GroupsNext(s, 7);
    GroupsNext(s, 8);
    GroupsNext(s, 9);
  }

  /** 128 to the power n, up to 4. */
  function Scale(n: nat): (p: nat)
    ensures p > 0
  {
    if n == 0 then 1 else 128 * Scale(n - 1)
  }

  /** The groups from i to 3, and what follows them. */
  lemma {:induction false} NumberFrom(s: Bytes, i: nat) returns (low: nat)
    requires i <= 4 && i <= |s| && Coding.GetVarint(s[i..], 10 - i).Some?
    ensures var r := Coding.GetVarint(s[i..], 10 - i).value;
      && low < Scale(4 - i)
      && (r.1 <= 4 - i ==> r.0 == low)
      && (r.1 > 4 - i ==>
            && 4 < |s| && Coding.GetVarint(s[4..], 6).Some?
            && var more := Coding.GetVarint(s[4..], 6).value; r == (low + more.0 * Scale(4 - i), more.1 + (4 - i)))
    decreases 4 - i
  {
    hide Coding.GetVarint;
    low := 0;
    if i < |s| && i < 4 {
      GroupsNext(s, i);
      low := s[i] as nat % 128;
      if s[i] >= 128 {
        var rest := NumberFrom(s, i + 1);
        low := low + 128 * rest;
        var more := if 4 < |s| then Coding.GetVarint(s[4..], 6) else None;
        if more.Some? {
          Shifts(s[i] as nat % 128, rest, more.value.0, Scale(4 - (i + 1)));
        }
      }
    }
  }

  lemma Shifts(g: nat, rest: nat, more: nat, p: nat)
    ensures g + 128 * (rest + more * p) == (g + 128 * rest) + more * (128 * p)
  {
  }

  /** The number that is there: its low 28 bits, the fifth group, and the rest. */
  lemma NumberIs(s: Bytes) returns (low: nat, w: nat)
    requires Coding.GetVarint(s, 10).Some?
    ensures var r := Coding.GetVarint(s, 10).value;
      && low < 0x1000_0000
      && (r.1 <= 4 ==> r.0 == low)
      && (r.1 >= 5 ==> 5 <= |s| && r.0 == low + (s[4] as nat % 128 + 128 * w) * 0x1000_0000)
      && (r.1 == 5 ==> w == 0)
      && (r.1 > 5 ==> Coding.GetVarint(s[5..], 5) == Some((w, r.1 - 5)))
  {
    hide Coding.GetVarint;
    assert s[0..] == s;
    assert Scale(4) == 0x1000_0000;
    low := NumberFrom(s, 0);
    w := 0;
    if 4 < |s| {
      GroupsNext(s, 4);
      if s[4] >= 128 && Coding.GetVarint(s[5..], 5).Some? {
        w := Coding.GetVarint(s[5..], 5).value.0;
      }
    }
  }

  lemma HighPart(low: nat, g: nat, w: nat)
    requires low < 0x1000_0000 && g < 128
    ensures var number := low + (g + 128 * w) * 0x1000_0000;
      SameNumber(number, number % Coding.LIMIT32) <==>
        || (g < 16 && w == 0)
        || (g >= 112 && w == 0x1fff_ffff && number % Coding.LIMIT32 >= 0x8000_0000)
  {
    var v, high := low + g % 16 * 0x1000_0000, g / 16 + 8 * w;
    assert low + (g + 128 * w) * 0x1000_0000 == v + high * Coding.LIMIT32;
    assert v < Coding.LIMIT32;
  }

  /** Where the decoder takes a varint, it reads the number that is there exactly
      if nothing but padding or a sign extension follows bit 31. */
  lemma ReadsTrueExactly(s: Bytes)
    requires Varint32(s).Some? && Varint32(s).value.1 <= 10
    ensures var v, n := Varint32(s).value.0, Varint32(s).value.1;
      && Coding.GetVarint(s, 10).Some?
      && (SameNumber(Coding.GetVarint(s, 10).value.0, v) <==>
            || n <= 5
            || (s[4] as nat % 128 < 16 && forall j | 5 <= j < n :: s[j] as nat % 128 == 0)
            || (s[4] as nat % 128 >= 112 && v >= 0x8000_0000 && Ones(s, n)))
  {
    hide *;
    Varint32Exactly(s);
    var v, n := Varint32(s).value.0, Varint32(s).value.1;
    LastOfFive(s, n, v);
    var low, w := NumberIs(s);
    if n <= 4 {
      LowIsSame(low);
    } else {
      HighPart(low, s[4] as nat % 128, w);
      if n > 5 {
        PaddingIsZero(s, 5);
        OnesAre(s);
      }
    }
  }

  lemma LastOfFive(s: Bytes, n: nat, low: nat)
    requires 1 <= n <= |s| && FitsFrom(s, 1, n, low)
    ensures n == 5 ==> s[4] < 16
  {
  }

  lemma LowIsSame(low: nat)
    requires low < 0x1000_0000
    ensures SameNumber(low, low % Coding.LIMIT32)
  {
  }
}
