/** The input side of nanopb below the level of fields: streams, substreams,
    the two varint decoders and skipping (pb_decode.c). */
module PbWire {
  import opened DbFormat
  import Coding

  function Pow2(n: nat): (p: nat)
    ensures p > 0
  {
    if n == 0 then 1 else 2 * Pow2(n - 1)
  }

  /** Bitwise or. */
  function BitOr(x: nat, y: nat): nat {
    if x == 0 then y
    else if y == 0 then x
    else (if x % 2 == 1 || y % 2 == 1 then 1 else 0) + 2 * BitOr(x / 2, y / 2)
  }

  /** Bits that do not overlap add up. */
  lemma {:induction false} OrAdds(x: nat, g: nat, k: nat)
    requires x < Pow2(k)
    ensures BitOr(x, g * Pow2(k)) == x + g * Pow2(k)
  {
    if k > 0 && x > 0 && g > 0 {
      var y := g * Pow2(k - 1);
      assert g * Pow2(k) == 2 * y;
      OrAdds(x / 2, g, k - 1);
      OrEven(x, y);
    }
  }

  lemma OrEven(x: nat, y: nat)
    ensures BitOr(x, 2 * y) == x % 2 + 2 * BitOr(x / 2, y)
  {
  }

  // ----- What the decoders read -----

  /** Past bit 31 only padding and a sign extension may come. */
  predicate Overflows(b: byte, bitpos: nat, result: nat) {
    bitpos >= 32 && b as nat % 128 != 0 && (result < Pow2(31) || b as nat != (if bitpos < 63 then 0xFF else 0x01))
  }

  /** `result | (uint32_t)(b & 0x7F) << bitpos` */
  function Taken(b: byte, bitpos: nat, result: nat): nat {
    if bitpos >= 32 then result else BitOr(result, b as nat % 128 * Pow2(bitpos) % Coding.LIMIT32)
  }

  /** pb_decode_varint32_eof after its first byte.  `bitpos` is a uint_fast8_t
      of eight bits. */
  function Varint32Rest(s: Bytes, bitpos: nat, result: nat): (r: Option<(nat, nat)>)
    requires bitpos < 256
    ensures r.Some? ==> 0 < r.value.1 <= |s|
  {
    if s == [] then None
    else if Overflows(s[0], bitpos, result) then None
    else
      var shifted := Taken(s[0], bitpos, result);
      var next := (bitpos + 7) % 256;
      if s[0] >= 128 then
        var rest := Varint32Rest(s[1..], next, shifted);
        if rest.None? then None else Some((rest.value.0, 1 + rest.value.1))
      else if next == 35 && s[0] as nat / 16 % 8 != 0 then None // varint overflow
      else Some((shifted, 1))
  }

  function Varint32(s: Bytes): (r: Option<(nat, nat)>)
    ensures r.Some? ==> 0 < r.value.1 <= |s|
  {
    if s == [] then None
    else if s[0] < 128 then Some((s[0] as nat, 1))
    else
      var rest := Varint32Rest(s[1..], 7, s[0] as nat - 128);
      if rest.None? then None else Some((rest.value.0, 1 + rest.value.1))
  }

  /** pb_decode_varint: at most ten bytes, cut to 64 bits. */
  function Varint64(s: Bytes): (r: Option<(nat, nat)>)
    ensures r.Some? ==> 0 < r.value.1 <= |s| && r.value.0 < Coding.LIMIT64
  {
    var v := Coding.GetVarint(s, 10);
    if v.None? then None else Some((v.value.0 % Coding.LIMIT64, v.value.1))
  }

  lemma Varint64RoundTrip(v: nat, after: Bytes)
    requires v < Coding.LIMIT64
    ensures Varint64(Coding.Varint(v) + after) == Some((v, |Coding.Varint(v)|))
  {
    Coding.Sizes();
    Coding.VarintLength(v, 10);
    Coding.VarintRoundTrip(v, after, 10);
  }

  lemma Powers()
    ensures Pow2(7) == 0x80 && Pow2(14) == 0x4000 && Pow2(21) == 0x20_0000 && Pow2(28) == 0x1000_0000
    ensures Pow2(31) == 0x8000_0000 && Pow2(32) == Coding.LIMIT32
  {
    assert Pow2(4) == 16 && Pow2(8) == 256 && Pow2(12) == 4096 && Pow2(16) == 65536;
    assert Pow2(20) == 1048576 && Pow2(24) == 16777216;
  }

  lemma Cons(b: byte, rest: Bytes, after: Bytes)
    ensures ([b] + rest + after)[0] == b && ([b] + rest + after)[1..] == rest + after
  {
  }

  lemma VarintHead(v: nat, after: Bytes)
    ensures (Coding.Varint(v) + after)[0] as nat == if v < 128 then v else v % 128 + 128
    ensures v < 128 ==> |Coding.Varint(v)| == 1
    ensures v >= 128 ==> (Coding.Varint(v) + after)[1..] == Coding.Varint(v / 128) + after
    ensures v >= 128 ==> |Coding.Varint(v)| == 1 + |Coding.Varint(v / 128)|
  {
    hide Coding.Varint;
    Coding.VarintStep(v);
    if v >= 128 {
      Cons((v % 128 + 128) as byte, Coding.Varint(v / 128), after);
    }
  }

  lemma RestStep(s: Bytes, bitpos: nat, result: nat)
    requires bitpos < 32 && s != []
    ensures s[0] >= 128 ==>
      var rest := Varint32Rest(s[1..], bitpos + 7, Taken(s[0], bitpos, result));
      Varint32Rest(s, bitpos, result) == if rest.None? then None else Some((rest.value.0, 1 + rest.value.1))
    ensures s[0] < 128 && !(bitpos == 28 && s[0] >= 16) ==>
      Varint32Rest(s, bitpos, result) == Some((Taken(s[0], bitpos, result), 1))
  {
    assert !Overflows(s[0], bitpos, result);
    hide Taken, Overflows;
    assert bitpos + 7 == (bitpos + 7) % 256;
    if s[0] < 128 && bitpos == 28 && s[0] < 16 {
      assert s[0] as nat / 16 == 0;
    }
  }

  /** Every number below 2^32 that the encoder writes reads back. */
  lemma Varint32RoundTrip(v: nat, after: Bytes)
    requires v < Coding.LIMIT32
    ensures Varint32(Coding.Varint(v) + after) == Some((v, |Coding.Varint(v)|))
  {
    hide Coding.Varint, Varint32Rest;
    VarintHead(v, after);
    if v >= 128 {
      Powers();
      Varint32RestRoundTrip(v / 128, v % 128, 7, after);
    }
  }

  lemma {:induction false} Varint32RestRoundTrip(v: nat, result: nat, bitpos: nat, after: Bytes)
    requires bitpos == 7 || bitpos == 14 || bitpos == 21 || bitpos == 28
    requires result < Pow2(bitpos) && result + v * Pow2(bitpos) < Coding.LIMIT32
    ensures Varint32Rest(Coding.Varint(v) + after, bitpos, result) == Some((result + v * Pow2(bitpos), |Coding.Varint(v)|))
    decreases v
  {
    hide BitOr, Pow2, Coding.Varint, Varint32Rest;
    VarintHead(v, after);
    OrAdds(result, v % 128, bitpos);
    Shifted(v, result, bitpos);
    assert v < 128 || bitpos < 28;
    assert Taken((Coding.Varint(v) + after)[0], bitpos, result) == result + v % 128 * Pow2(bitpos);
    hide Taken;
    RestStep(Coding.Varint(v) + after, bitpos, result);
    if v >= 128 {
      Varint32RestRoundTrip(v / 128, result + v % 128 * Pow2(bitpos), bitpos + 7, after);
    }
  }

  /** One more group, in the four places where one can be. */
  lemma Shifted(v: nat, result: nat, bitpos: nat)
    requires bitpos == 7 || bitpos == 14 || bitpos == 21 || bitpos == 28
    requires result < Pow2(bitpos) && result + v * Pow2(bitpos) < Coding.LIMIT32
    ensures v % 128 * Pow2(bitpos) < Coding.LIMIT32
    ensures bitpos == 28 ==> v < 16
    ensures v >= 128 ==> bitpos < 28
    ensures bitpos < 28 ==> result + v % 128 * Pow2(bitpos) < Pow2(bitpos + 7)
    ensures (result + v % 128 * Pow2(bitpos)) + v / 128 * (128 * Pow2(bitpos)) == result + v * Pow2(bitpos)
    ensures bitpos < 28 ==> Pow2(bitpos + 7) == 128 * Pow2(bitpos)
  {
    hide Pow2;
    Powers();
  }

  /** What a decoder returns that has read b last, after `at` bytes in all. */
  function Pending(b: byte, left: Bytes, bitpos: nat, result: nat, at: nat): Option<(nat, nat)>
    requires bitpos < 256
  {
    if b >= 128 then
      var rest := Varint32Rest(left, bitpos, result);
      if rest.None? then None else Some((rest.value.0, at + rest.value.1))
    else if bitpos == 35 && b as nat / 16 % 8 != 0 then None
    else Some((result, at))
  }

  lemma PendingStep(b: byte, left: Bytes, bitpos: nat, result: nat, at: nat)
    requires bitpos < 256 && b >= 128
    ensures left == [] || Overflows(left[0], bitpos, result) ==> Pending(b, left, bitpos, result, at) == None
    ensures left != [] && !Overflows(left[0], bitpos, result) ==>
      Pending(b, left, bitpos, result, at) == Pending(left[0], left[1..], (bitpos + 7) % 256, Taken(left[0], bitpos, result), at + 1)
  {
    hide BitOr, Pow2;
  }

  /** The same for pb_decode_varint. */
  function Pending64(b: byte, left: Bytes, length: nat, weight: nat, result: nat): Option<(nat, nat)>
    requires length <= 10
  {
    if b >= 128 then
      var rest := Coding.GetVarint(left, 10 - length);
      if rest.None? then None
      else Some((Coding.ShiftedIn(result, weight, rest.value.0, Coding.LIMIT64), length + rest.value.1))
    else Some((result, length))
  }

  lemma Pending64First(s: Bytes)
    ensures Pending64(0x80, s, 0, 1, 0) == Varint64(s)
  {
  }

  lemma Pending64Last(b: byte, left: Bytes, length: nat, weight: nat, result: nat)
    requires length <= 10 && b < 128
    ensures Pending64(b, left, length, weight, result) == Some((result, length))
  {
  }

  lemma Pending64Step(b: byte, left: Bytes, length: nat, weight: nat, result: nat)
    requires length <= 10 && b >= 128
    ensures length == 10 || left == [] ==> Pending64(b, left, length, weight, result) == None
    ensures length < 10 && left != [] ==>
      Pending64(b, left, length, weight, result)
        == Pending64(left[0], left[1..], length + 1, weight * 128,
                     Coding.ShiftedIn(result, weight, left[0] as nat % 128, Coding.LIMIT64))
  {
    hide Coding.ShiftedIn;
    if length < 10 && left != [] {
      var rest := Coding.GetVarint(left[1..], 9 - length);
      if left[0] >= 128 && rest.Some? {
        Coding.ShiftedInNext(result, weight, left[0] as nat % 128, rest.value.0, Coding.LIMIT64);
      }
    }
  }

  // ----- Skipping, and strings -----

  function Plus(n: Option<nat>, k: nat): Option<nat> {
    if n.None? then None else Some(n.value + k)
  }

  /** How many bytes a varint of any length takes. */
  function SkippedVarint(s: Bytes): (r: Option<nat>)
    ensures r.Some? ==> 0 < r.value <= |s|
  {
    if s == [] then None
    else if s[0] < 128 then Some(1)
    else Plus(SkippedVarint(s[1..]), 1)
  }

  function SkippedString(s: Bytes): (r: Option<nat>)
    ensures r.Some? ==> 0 < r.value <= |s|
  {
    var length := Varint32(s);
    if length.None? || |s| - length.value.1 < length.value.0 then None else Some(length.value.1 + length.value.0)
  }

  function SkippedField(wire: nat, s: Bytes): (r: Option<nat>)
    ensures r.Some? ==> 0 < r.value <= |s|
  {
    match wire
    case 0 => SkippedVarint(s)
    case 1 => if |s| < 8 then None else Some(8)
    case 2 => SkippedString(s)
    case 5 => if |s| < 4 then None else Some(4)
    case _ => None
  }

  /** A length and as many bytes: those bytes, and how many there are in all. */
  function Delimited(s: Bytes): (r: Option<(Bytes, nat)>)
    ensures r.Some? ==> |r.value.0| < r.value.1 <= |s|
  {
    var size := SkippedString(s);
    if size.None? then None else Some((s[Varint32(s).value.1..size.value], size.value))
  }

  lemma DelimitedRoundTrip(data: Bytes, after: Bytes)
    requires |data| < Coding.LIMIT32
    ensures Delimited(Coding.LengthPrefixed(data) + after) == Some((data, |Coding.LengthPrefixed(data)|))
  {
    hide Coding.Varint, Varint32;
    var length := Coding.Varint(|data|);
    assert Coding.LengthPrefixed(data) + after == length + (data + after);
    Varint32RoundTrip(|data|, data + after);
  }

  // ----- pb_istream_t over a buffer -----

  class IStream {
    const buffer: Bytes
    var state: nat
    var bytesLeft: nat

    ghost predicate Valid()
      reads this
    {
      state + bytesLeft <= |buffer|
    }

    ghost function Left(): Bytes
      requires Valid()
      reads this
    {
      buffer[state..state + bytesLeft]
    }

    constructor (buffer: Bytes, state: nat, bytesLeft: nat)
      requires state + bytesLeft <= |buffer|
      ensures Valid() && this.buffer == buffer && this.state == state && this.bytesLeft == bytesLeft
    {
      this.buffer, this.state, this.bytesLeft := buffer, state, bytesLeft;
    }

    /** pb_read; it also serves for skipping. */
    method Read(count: nat) returns (ok: bool, data: Bytes)
      requires Valid()
      modifies this
      ensures Valid()
      ensures ok <==> count <= |old(Left())|
      ensures ok ==> data == old(Left())[..count] && Left() == old(Left())[count..]
      ensures if ok then state == old(state) + count && bytesLeft == old(bytesLeft) - count
              else state == old(state) && bytesLeft == old(bytesLeft)
    {
      if bytesLeft < count {
        return false, []; // end-of-stream
      }
      data := buffer[state..state + count];
      state := state + count;
      bytesLeft := bytesLeft - count;
      ok := true;
    }

    /** pb_readbyte */
    method ReadByte() returns (ok: bool, b: byte)
      requires Valid()
      modifies this
      ensures Valid()
      ensures ok <==> old(Left()) != []
      ensures ok ==> b == old(Left())[0] && Left() == old(Left())[1..]
      ensures if ok then state == old(state) + 1 && bytesLeft == old(bytesLeft) - 1
              else state == old(state) && bytesLeft == old(bytesLeft)
    {
      if bytesLeft == 0 {
        return false, 0; // end-of-stream
      }
      b := buffer[state];
      state := state + 1;
      bytesLeft := bytesLeft - 1;
      ok := true;
    }

    /** What a decoder that reads r from the stream leaves behind. */
    ghost predicate Took(r: Option<(nat, nat)>, ok: bool, value: nat, before: Bytes, end: nat)
      reads this
    {
      && Valid() && state + bytesLeft <= end
      && (ok <==> r.Some?)
      && (ok ==> r.value.1 <= |before| && value == r.value.0 && Left() == before[r.value.1..])
      && (ok ==> state + bytesLeft == end)
    }

    /** pb_decode_varint32_eof; `eof` when there was not even a first byte. */
    method DecodeVarint32Eof() returns (ok: bool, value: nat, eof: bool)
      requires Valid()
      modifies this
      ensures Took(Varint32(old(Left())), ok, value, old(Left()), old(state + bytesLeft))
      ensures eof <==> old(Left()) == []
    {
      var b: byte;
      value := 0;
      ok, b := ReadByte();
      eof := !ok && bytesLeft == 0;
      if !ok {
        return;
      }
      if b < 128 {
        value := b as nat;
        return;
      }
      var bitpos: nat, result: nat := 7, b as nat - 128;
      ghost var at := 1;
      while b >= 128
        invariant Valid() && state + bytesLeft == old(state + bytesLeft)
        invariant at <= |old(Left())| && Left() == old(Left())[at..]
        invariant bitpos < 256
        invariant Pending(b, Left(), bitpos, result, at) == Varint32(old(Left()))
        decreases bytesLeft, b >= 128
      {
        hide Pending, Varint32Rest, Varint32, BitOr, Pow2;
        PendingStep(b, Left(), bitpos, result, at);
        assert Left() != [] ==> Left()[1..] == old(Left())[at + 1..];
        ok, b := ReadByte();
        if !ok {
          return;
        }
        if bitpos >= 32 {
          var signExtension := if bitpos < 63 then 0xFF else 0x01;
          if b as nat % 128 != 0 && (result < Pow2(31) || b as nat != signExtension) {
            return false, 0, eof; // varint overflow
          }
        } else {
          result := BitOr(result, b as nat % 128 * Pow2(bitpos) % Coding.LIMIT32);
        }
        bitpos := (bitpos + 7) % 256;
        at := at + 1;
      }
      if bitpos == 35 && b as nat / 16 % 8 != 0 {
        return false, 0, eof; // varint overflow
      }
      value := result;
    }

    /** pb_decode_varint32 */
    method DecodeVarint32() returns (ok: bool, value: nat)
      requires Valid()
      modifies this
      ensures Took(Varint32(old(Left())), ok, value, old(Left()), old(state + bytesLeft))
    {
      var eof;
      ok, value, eof := DecodeVarint32Eof();
    }

    /** pb_decode_varint */
    method DecodeVarint() returns (ok: bool, value: nat)
      requires Valid()
      modifies this
      ensures Took(Varint64(old(Left())), ok, value, old(Left()), old(state + bytesLeft))
    {
      hide Coding.GetVarint, Coding.ShiftedIn, Varint64, Pending64;
      var length := 0;
      var weight: nat, result: nat := 1, 0;
      value := 0;
      ghost var s := Left();
      assert s[0..] == s;
      Pending64First(s);
      var b: byte := 0x80;
      while b >= 128
        invariant Valid() && state + bytesLeft == old(state + bytesLeft)
        invariant length <= 10 && length <= |s| && Left() == s[length..]
        invariant Pending64(b, s[length..], length, weight, result) == Varint64(s)
        decreases bytesLeft, b >= 128
      {
        Pending64Step(b, s[length..], length, weight, result);
        if length >= 10 {
          return false, 0; // varint overflow: bitpos >= 64
        }
        assert Left() != [] ==> Left()[1..] == s[length + 1..];
        ok, b := ReadByte();
        if !ok {
          return;
        }
        result := Coding.ShiftedIn(result, weight, b as nat % 128, Coding.LIMIT64);
        weight := weight * 128;
        length := length + 1;
      }
      ok, value := true, result;
      Pending64Last(b, s[length..], length, weight, result);
    }

    /** pb_skip_varint */
    method SkipVarint() returns (ok: bool)
      requires Valid()
      modifies this
      ensures Skipped(SkippedVarint(old(Left())), ok, old(Left()), old(state + bytesLeft))
    {
      var b: byte := 0x80;
      ghost var at, s := 0, Left();
      assert s[0..] == s;
      ok := true;
      while b >= 128
        invariant ok && Valid() && state + bytesLeft == old(state + bytesLeft)
        invariant at <= |s| && Left() == s[at..]
        invariant b >= 128 ==> SkippedVarint(s) == Plus(SkippedVarint(s[at..]), at)
        invariant b < 128 ==> SkippedVarint(s) == Some(at)
        decreases bytesLeft, b >= 128
      {
        assert at < |s| ==> s[at..][1..] == s[at + 1..];
        ok, b := ReadByte();
        if !ok {
          return;
        }
        at := at + 1;
      }
    }

    /** pb_skip_string */
    method SkipString() returns (ok: bool)
      requires Valid()
      modifies this
      ensures Skipped(SkippedString(old(Left())), ok, old(Left()), old(state + bytesLeft))
    {
      var length, data;
      ok, length := DecodeVarint32();
      if ok {
        ok, data := Read(length);
      }
    }

    /** pb_skip_field */
    method SkipField(wire: nat) returns (ok: bool)
      requires Valid()
      modifies this
      ensures Skipped(SkippedField(wire, old(Left())), ok, old(Left()), old(state + bytesLeft))
    {
      var data;
      ok := false;
      match wire {
        case 0 => ok := SkipVarint();
        case 1 => ok, data := Read(8);
        case 2 => ok := SkipString();
        case 5 => ok, data := Read(4);
        case _ => // invalid wire_type
      }
    }

    ghost predicate Skipped(r: Option<nat>, ok: bool, before: Bytes, end: nat)
      reads this
    {
      && Valid() && state + bytesLeft <= end
      && (ok <==> r.Some?)
      && (ok ==> r.value <= |before| && Left() == before[r.value..] && state + bytesLeft == end)
    }

    /** pb_make_string_substream: the parent keeps its position, which is put
        right when the substream is closed, but gives up the bytes at once. */
    method MakeStringSubstream() returns (ok: bool, substream: IStream?)
      requires Valid()
      modifies this
      ensures Valid() && state + bytesLeft <= old(state + bytesLeft)
      ensures ok <==> Delimited(old(Left())).Some?
      ensures ok ==> substream != null && fresh(substream) && substream.Valid() && substream.buffer == buffer
      ensures ok ==> substream.Left() == Delimited(old(Left())).value.0
      ensures ok ==> substream.state == state && substream.bytesLeft + bytesLeft + state == old(state + bytesLeft)
      ensures ok ==> bytesLeft == |old(Left())| - Delimited(old(Left())).value.1
    {
      var size;
      substream := null;
      ghost var s := Left();
      ok, size := DecodeVarint32();
      if !ok {
        return;
      }
      if bytesLeft < size {
        return false, null; // parent stream too short
      }
      ghost var at := Varint32(s).value.1;
      assert Left()[..size] == s[at..at + size];
      substream := new IStream(buffer, state, size);
      assert substream.Left() == Left()[..size];
      bytesLeft := bytesLeft - size;
    }

    /** pb_close_string_substream: what is left of the substream is skipped. */
    method CloseStringSubstream(substream: IStream) returns (ok: bool)
      requires Valid() && substream.Valid() && substream != this && substream.buffer == buffer
      requires substream.state + substream.bytesLeft + bytesLeft <= |buffer|
      modifies this, substream
      ensures ok && Valid() && bytesLeft == old(bytesLeft)
      ensures state == old(substream.state + substream.bytesLeft)
    {
      if substream.bytesLeft != 0 {
        var data;
        ok, data := substream.Read(substream.bytesLeft);
        if !ok {
          return;
        }
      }
      state := substream.state;
      ok := true;
    }
  }
}
