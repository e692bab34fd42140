/** nanopb's encoder (pb_encode.c): what it writes, the stream it writes to,
    and the sizing pass that goes before every nested message. */
module PbEncode {
  import opened DbFormat
  import opened PbFields
  import Coding

  datatype WireType = WT_VARINT | WT_64BIT | WT_STRING | WT_32BIT

  function WireCode(w: WireType): nat {
    match w
    case WT_VARINT => 0
    case WT_64BIT => 1
    case WT_STRING => 2
    case WT_32BIT => 5
  }

  function WireOf(kind: Kind): WireType {
    match kind
    case VARINT => WT_VARINT
    case UVARINT => WT_VARINT
    case SVARINT => WT_VARINT
    case FIXED32 => WT_32BIT
    case FIXED64 => WT_64BIT
    case _ => WT_STRING
  }

  function TagBytes(tag: nat, w: WireType): Bytes {
    Coding.Varint(tag * 8 + WireCode(w))
  }

  /** The bits of a 64-bit number, read without sign. */
  function Unsigned64(n: int): (r: nat)
    requires SignedFits(n, 8)
    ensures r < Coding.LIMIT64
  {
    if n < 0 then n + Coding.LIMIT64 else n
  }

  /** `~((uint64_t)n << 1)` for a negative number, `n << 1` for any other. */
  function ZigZag(n: int): (r: nat)
    requires SignedFits(n, 8)
    ensures r == if n < 0 then -2 * n - 1 else 2 * n
  {
    var doubled := Unsigned64(n) * 2 % Coding.LIMIT64;
    if n < 0 then Coding.LIMIT64 - 1 - doubled else doubled
  }

  /** A string ends at its first NUL, or with its buffer. */
  function UpToNul(s: Bytes): (r: Bytes)
    ensures r <= s && 0 !in r
    ensures |r| < |s| ==> s[|r|] == 0
  {
    if s == [] || s[0] == 0 then [] else [s[0]] + UpToNul(s[1..])
  }

  lemma NotYetNul(s: Bytes, i: nat)
    requires i < |s| && s[i] != 0
    ensures s[..i] + UpToNul(s[i..]) == s[..i + 1] + UpToNul(s[i + 1..])
  {
    assert s[i..][1..] == s[i + 1..];
    assert s[..i] + ([s[i]] + UpToNul(s[i + 1..])) == s[..i + 1] + UpToNul(s[i + 1..]);
  }

  lemma AtNul(s: Bytes)
    requires s == [] || s[0] == 0
    ensures UpToNul(s) == []
  {
  }

  // ----- What is written -----

  /** One encoder after another: both have to succeed. */
  function Then(a: Option<Bytes>, b: Option<Bytes>): Option<Bytes> {
    if a.Some? && b.Some? then Some(a.value + b.value) else None
  }

  lemma ThenAssociates(a: Option<Bytes>, b: Option<Bytes>, c: Option<Bytes>)
    ensures Then(Then(a, b), c) == Then(a, Then(b, c))
  {
    if a.Some? && b.Some? && c.Some? {
      assert a.value + b.value + c.value == a.value + (b.value + c.value);
    }
  }

  lemma ThenUnit(a: Option<Bytes>)
    ensures Then(Some([]), a) == a == Then(a, Some([]))
  {
    if a.Some? {
      assert [] + a.value == a.value == a.value + [];
    }
  }

  function Prefixed(e: Option<Bytes>): Option<Bytes> {
    if e.Some? then Some(Coding.LengthPrefixed(e.value)) else None
  }

  /** One item without its tag.  None: a data_size no integer type has, or a
      bytes array longer than its buffer. */
  ghost function EncodeItem(f: Field, v: Datum): Option<Bytes>
    requires Fits(f, v)
    decreases f, 0
  {
    match f.kind
    case VARINT => if IntegerSize(f.dataSize) then Some(Coding.Varint(Unsigned64(v.n))) else None
    case UVARINT => if IntegerSize(f.dataSize) then Some(Coding.Varint(v.n)) else None
    case SVARINT => if IntegerSize(f.dataSize) then Some(Coding.Varint(ZigZag(v.n))) else None
    case FIXED32 => Some(Coding.Fixed32(v.n))
    case FIXED64 => Some(Coding.Fixed64(v.n))
    case BYTES => if v.size <= |v.bytes| then Some(Coding.LengthPrefixed(v.bytes[..v.size])) else None
    case STRING => Some(Coding.LengthPrefixed(UpToNul(v.chars)))
    case FIXED_LENGTH_BYTES => Some(Coding.LengthPrefixed(v.chars))
    case SUBMESSAGE => Prefixed(EncodeFrom(f.message, v.slots, 0))
  }

  /** Items one after another: the inside of a packed array. */
  ghost function EncodePacked(f: Field, items: seq<Datum>): Option<Bytes>
    requires forall k | 0 <= k < |items| :: Fits(f, items[k])
    decreases f, 1, |items|
  {
    if items == [] then Some([]) else Then(EncodeItem(f, items[0]), EncodePacked(f, items[1..]))
  }

  /** Items one after another, each with its tag. */
  ghost function EncodeTagged(f: Field, items: seq<Datum>): Option<Bytes>
    requires forall k | 0 <= k < |items| :: Fits(f, items[k])
    decreases f, 1, |items|
  {
    if items == [] then Some([])
    else Then(Some(TagBytes(f.tag, WireOf(f.kind))), Then(EncodeItem(f, items[0]), EncodeTagged(f, items[1..])))
  }

  ghost function EncodeArray(f: Field, items: seq<Datum>, count: nat): Option<Bytes>
    requires |items| == f.arraySize && forall k | 0 <= k < |items| :: Fits(f, items[k])
    decreases f, 2
  {
    if count == 0 then Some([])
    else if count > f.arraySize then None
    else if Packable(f.kind) then
      Then(Some(TagBytes(f.tag, WT_STRING)), Prefixed(EncodePacked(f, items[..count])))
    else EncodeTagged(f, items[..count])
  }

  ghost function EncodeOne(f: Field, v: Datum): Option<Bytes>
    requires Fits(f, v)
    decreases f, 1, 0
  {
    Then(Some(TagBytes(f.tag, WireOf(f.kind))), EncodeItem(f, v))
  }

  ghost function EncodeField(f: Field, s: Slot): Option<Bytes>
    requires FitsSlot(f, s)
    decreases f, 3
  {
    match f.rule
    case REQUIRED => EncodeOne(f, s.items[0])
    case OPTIONAL => if s.size != 0 then EncodeOne(f, s.items[0]) else Some([])
    case SINGULAR => if IsDefault(f, s.items[0]) then Some([]) else EncodeOne(f, s.items[0])
    case REPEATED => EncodeArray(f, s.items, s.size)
    case ONEOF => if s.size == f.tag then EncodeOne(f, s.items[0]) else Some([])
  }

  /** The fields from i on, in the order of the descriptor. */
  ghost function EncodeFrom(m: Message, slots: seq<Slot>, i: nat): Option<Bytes>
    requires FitsMessage(m, slots) && i <= |m.fields|
    decreases m, |m.fields| - i
  {
    if i == |m.fields| then Some([])
    else Then(EncodeField(m.fields[i], slots[SlotOf(m, i)]), EncodeFrom(m, slots, i + 1))
  }

  /** pb_check_proto3_default_value on a field of each rule. */
  predicate IsDefaultSlot(f: Field, s: Slot)
    requires FitsSlot(f, s)
    decreases f, 1
  {
    match f.rule
    case REQUIRED => false
    case SINGULAR => IsDefault(f, s.items[0])
    case _ => s.size == 0
  }

  predicate IsDefault(f: Field, v: Datum)
    requires Fits(f, v)
    decreases f, 0
  {
    match f.kind
    case BYTES => v.size == 0
    case STRING => v.chars == [] || v.chars[0] == 0
    case FIXED_LENGTH_BYTES => f.dataSize == 0
    case SUBMESSAGE => IsDefaultMessage(f.message, v.slots)
    case _ => v.n == 0
  }

  predicate IsDefaultMessage(m: Message, slots: seq<Slot>)
    requires FitsMessage(m, slots)
    decreases m, 0
  {
    forall i | 0 <= i < |m.fields| :: IsDefaultSlot(m.fields[i], slots[SlotOf(m, i)])
  }

  // ----- pb_ostream_t -----

  /** The state of a stream.  `buffer` is what lies before the pointer `state`. */
  datatype Sink = Sink(sizing: bool, maxSize: nat, buffer: Bytes, written: nat)

  ghost predicate Sound(s: Sink) {
    !s.sizing ==> s.written <= s.maxSize
  }

  /** An attempt to write e took the stream from a to b.  It succeeds exactly
      when e exists and fits; when it fails, what was written still fits. */
  ghost predicate Wrote(e: Option<Bytes>, ok: bool, a: Sink, b: Sink) {
    && Sound(a) && Sound(b)
    && b.sizing == a.sizing && b.maxSize == a.maxSize
    && (ok <==> e.Some? && (a.sizing || a.written + |e.value| <= a.maxSize))
    && (ok ==> b.written == a.written + |e.value| && b.buffer == if a.sizing then a.buffer else a.buffer + e.value)
    && (!a.sizing ==> a.buffer <= b.buffer && |b.buffer| - |a.buffer| == b.written - a.written)
    && (a.sizing ==> b.buffer == a.buffer)
  }

  lemma Chain(e1: Option<Bytes>, e2: Option<Bytes>, ok: bool, a: Sink, b: Sink, c: Sink)
    requires Wrote(e1, true, a, b) && Wrote(e2, ok, b, c)
    ensures Wrote(Then(e1, e2), ok, a, c)
  {
    if ok && !a.sizing {
      assert a.buffer + e1.value + e2.value == a.buffer + (e1.value + e2.value);
    }
  }

  lemma Fails(e1: Option<Bytes>, e2: Option<Bytes>, a: Sink, b: Sink)
    requires Wrote(e1, false, a, b)
    ensures Wrote(Then(e1, e2), false, a, b)
  {
  }

  lemma Nothing(a: Sink)
    requires Sound(a)
    ensures Wrote(Some([]), true, a, a) && Wrote(None, false, a, a)
  {
  }

  /** What groups with every continuation mark set stand for, when `left`
      remains of the number. */
  function Marked(buffer: Bytes, left: nat): Bytes
    requires buffer != [] && buffer[|buffer| - 1] >= 128
  {
    if left == 0 then buffer[|buffer| - 1 := buffer[|buffer| - 1] - 128] else buffer + Coding.Varint(left)
  }

  lemma ShiftLeft(buffer: Bytes, left: nat)
    requires buffer != [] && buffer[|buffer| - 1] >= 128 && left > 0
    ensures Marked(buffer, left) == Marked(buffer + [(left % 128 + 128) as byte], left / 128)
  {
    if left >= 128 {
      assert buffer + ([(left % 128 + 128) as byte] + Coding.Varint(left / 128))
          == buffer + [(left % 128 + 128) as byte] + Coding.Varint(left / 128);
    }
  }

  lemma StaysSound(e: Option<Bytes>, ok: bool, a: Sink, b: Sink)
    requires Wrote(e, ok, a, b)
    ensures Sound(b) && (ok ==> e.Some?)
  {
  }

  lemma PackedStep(f: Field, items: seq<Datum>, i: nat)
    requires i < |items| && forall k | 0 <= k < |items| :: Fits(f, items[k])
    ensures EncodePacked(f, items[i..]) == Then(EncodeItem(f, items[i]), EncodePacked(f, items[i + 1..]))
  {
    hide Fits, EncodeItem;
    assert items[i..][1..] == items[i + 1..];
  }

  lemma TaggedStep(f: Field, items: seq<Datum>, i: nat)
    requires i < |items| && forall k | 0 <= k < |items| :: Fits(f, items[k])
    ensures EncodeTagged(f, items[i..]) == Then(EncodeOne(f, items[i]), EncodeTagged(f, items[i + 1..]))
  {
    hide Fits, EncodeItem;
    assert items[i..][1..] == items[i + 1..];
    ThenAssociates(Some(TagBytes(f.tag, WireOf(f.kind))), EncodeItem(f, items[i]), EncodeTagged(f, items[i + 1..]));
  }

  lemma {:induction false} FixedSizes(f: Field, items: seq<Datum>, width: nat)
    requires forall k | 0 <= k < |items| :: Fits(f, items[k])
    requires (f.kind.FIXED32? && width == 4) || (f.kind.FIXED64? && width == 8)
    ensures EncodePacked(f, items).Some? && |EncodePacked(f, items).value| == width * |items|
  {
    if items != [] {
      FixedSizes(f, items[1..], width);
    }
  }

  class OStream {
    // callback == NULL: count the bytes and write nothing.
    const sizing: bool
    const maxSize: nat
    var state: Bytes
    var bytesWritten: nat

    ghost function Now(): Sink
      reads this
    {
      Sink(sizing, maxSize, state, bytesWritten)
    }

    ghost predicate Valid()
      reads this
    {
      Sound(Now())
    }

    constructor (sizing: bool, maxSize: nat, state: Bytes)
      ensures Valid() && Now() == Sink(sizing, maxSize, state, 0)
    {
      this.sizing, this.maxSize, this.state, this.bytesWritten := sizing, maxSize, state, 0;
    }

    /** pb_write and, through the callback, buf_write. */
    method Write(buf: Bytes) returns (ok: bool)
      requires Valid()
      modifies this
      ensures Wrote(Some(buf), ok, old(Now()), Now())
    {
      if !sizing {
        if bytesWritten + |buf| > maxSize {
          return false; // stream full
        }
        state := state + buf;
      }
      bytesWritten := bytesWritten + |buf|;
      ok := true;
    }

    /** pb_write without data, on a sizing stream. */
    method Count(size: nat, ghost e: Bytes)
      requires Valid() && sizing && |e| == size
      modifies this
      ensures Wrote(Some(e), true, old(Now()), Now())
    {
      bytesWritten := bytesWritten + size;
    }

    /** pb_encode_varint: groups of seven bits, each marked as continued, then
        the mark of the last taken back. */
    method EncodeVarint(value: nat) returns (ok: bool)
      requires Valid()
      modifies this
      ensures Wrote(Some(Coding.Varint(value)), ok, old(Now()), Now())
    {
      if value <= 0x7F {
        ok := Write([value as byte]);
        return;
      }
      hide Wrote;
      var buffer := [(value % 128 + 128) as byte];
      var left: nat := value / 128;
      while left != 0
        modifies {}
        invariant buffer != [] && buffer[|buffer| - 1] >= 128
        invariant Coding.Varint(value) == Marked(buffer, left)
      {
        ShiftLeft(buffer, left);
        buffer := buffer + [(left % 128 + 128) as byte];
        left := left / 128;
      }
      buffer := buffer[|buffer| - 1 := buffer[|buffer| - 1] - 128];
      ok := Write(buffer);
    }

    /** pb_encode_svarint */
    method EncodeSVarint(value: int) returns (ok: bool)
      requires Valid() && SignedFits(value, 8)
      modifies this
      ensures Wrote(Some(Coding.Varint(ZigZag(value))), ok, old(Now()), Now())
    {
      ok := EncodeVarint(ZigZag(value));
    }

    /** pb_encode_tag */
    method EncodeTag(w: WireType, tag: nat) returns (ok: bool)
      requires Valid()
      modifies this
      ensures Wrote(Some(TagBytes(tag, w)), ok, old(Now()), Now())
    {
      ok := EncodeVarint(tag * 8 + WireCode(w));
    }

    /** pb_encode_string */
    method EncodeString(buffer: Bytes) returns (ok: bool)
      requires Valid()
      modifies this
      ensures Wrote(Some(Coding.LengthPrefixed(buffer)), ok, old(Now()), Now())
    {
      ghost var start := Now();
      ok := EncodeVarint(|buffer|);
      ghost var mid := Now();
      if !ok {
        Fails(Some(Coding.Varint(|buffer|)), Some(buffer), start, mid);
        return;
      }
      ok := Write(buffer);
      Chain(Some(Coding.Varint(|buffer|)), Some(buffer), ok, start, mid, Now());
    }

    /** pb_encode_submessage: a sizing pass, the length, then the writing pass
        on a stream with exactly that much room. */
    method EncodeSubmessage(m: Message, slots: seq<Slot>) returns (ok: bool)
      requires Valid() && FitsMessage(m, slots)
      modifies this
      ensures Wrote(Prefixed(EncodeFrom(m, slots, 0)), ok, old(Now()), Now())
      decreases m, 1
    {
      hide EncodeFrom, FitsMessage;
      ghost var start := Now();
      ghost var e := EncodeFrom(m, slots, 0);
      var substream := new OStream(true, 0, []);
      ok := substream.Encode(m, slots);
      if !ok {
        return false;
      }
      var size := substream.bytesWritten;
      ghost var length := Some(Coding.Varint(size));
      assert Prefixed(e) == Then(length, e);
      ok := EncodeVarint(size);
      ghost var mid := Now();
      if !ok {
        Fails(length, e, start, mid);
        return false;
      }
      if sizing {
        Count(size, e.value);
        Chain(length, e, true, start, mid, Now());
        return true;
      }
      if bytesWritten + size > maxSize {
        Chain(length, e, false, start, mid, Now());
        return false; // stream full
      }
      substream := new OStream(false, size, state);
      var status := substream.Encode(m, slots);
      bytesWritten := bytesWritten + substream.bytesWritten;
      state := substream.state;
      if substream.bytesWritten != size {
        assert false; // submsg size changed
      }
      Chain(length, e, status, start, mid, Now());
      ok := status;
    }

    /** pb_enc_string's loop. */
    static method StringLength(chars: Bytes) returns (size: nat)
      ensures size <= |chars| && chars[..size] == UpToNul(chars)
    {
      hide UpToNul;
      size := 0;
      assert chars[0..] == chars;
      while size < |chars| && chars[size] != 0
        invariant size <= |chars|
        invariant UpToNul(chars) == chars[..size] + UpToNul(chars[size..])
      {
        NotYetNul(chars, size);
        size := size + 1;
      }
      AtNul(chars[size..]);
    }

    /** The PB_ENCODERS function of a field. */
    method EncodeDatum(f: Field, v: Datum) returns (ok: bool)
      requires Valid() && Fits(f, v)
      modifies this
      ensures Wrote(EncodeItem(f, v), ok, old(Now()), Now())
      decreases f, 0
    {
      hide Wrote, Coding.Varint, FitsMessage, EncodeFrom, UpToNul;
      Nothing(Now());
      match f.kind {
        case VARINT =>
          if !IntegerSize(f.dataSize) {
            return false; // invalid data_size
          }
          ok := EncodeVarint(Unsigned64(v.n));
        case UVARINT =>
          if !IntegerSize(f.dataSize) {
            return false;
          }
          ok := EncodeVarint(v.n);
        case SVARINT =>
          if !IntegerSize(f.dataSize) {
            return false;
          }
          ok := EncodeSVarint(v.n);
        case FIXED32 =>
          ok := Write(Coding.Fixed32(v.n));
        case FIXED64 =>
          ok := Write(Coding.Fixed64(v.n));
        case BYTES =>
          if v.size + BYTES_HEADER > f.dataSize {
            return false; // bytes size exceeded
          }
          ok := EncodeString(v.bytes[..v.size]);
        case STRING =>
          var size := StringLength(v.chars);
          ok := EncodeString(v.chars[..size]);
        case FIXED_LENGTH_BYTES =>
          ok := EncodeString(v.chars);
        case SUBMESSAGE =>
          ok := EncodeSubmessage(f.message, v.slots);
      }
    }

    /** A tag and an item. */
    method EncodeOneItem(f: Field, v: Datum) returns (ok: bool)
      requires Valid() && Fits(f, v)
      modifies this
      ensures Wrote(EncodeOne(f, v), ok, old(Now()), Now())
      decreases f, 1
    {
      hide EncodeItem, Fits;
      ghost var start := Now();
      ok := EncodeTag(WireOf(f.kind), f.tag);
      ghost var mid := Now();
      if !ok {
        Fails(Some(TagBytes(f.tag, WireOf(f.kind))), EncodeItem(f, v), start, mid);
        return false;
      }
      ok := EncodeDatum(f, v);
      Chain(Some(TagBytes(f.tag, WireOf(f.kind))), EncodeItem(f, v), ok, start, mid, Now());
    }

    /** The data of a packed array, into this stream or a sizing one. */
    method EncodeItems(f: Field, items: seq<Datum>) returns (ok: bool)
      requires Valid() && forall k | 0 <= k < |items| :: Fits(f, items[k])
      modifies this
      ensures Wrote(EncodePacked(f, items), ok, old(Now()), Now())
      decreases f, 1
    {
      hide EncodeItem, Fits, Wrote;
      ghost var start := Now();
      ghost var done := Some([]);
      Nothing(start);
      ThenUnit(EncodePacked(f, items));
      assert items[0..] == items;
      for i := 0 to |items|
        invariant Valid() && Wrote(done, true, start, Now())
        invariant Then(done, EncodePacked(f, items[i..])) == EncodePacked(f, items)
      {
        ghost var before := Now();
        ghost var e, rest := EncodeItem(f, items[i]), EncodePacked(f, items[i + 1..]);
        PackedStep(f, items, i);
        ThenAssociates(done, e, rest);
        ok := EncodeDatum(f, items[i]);
        Chain(done, e, ok, start, before, Now());
        StaysSound(e, ok, before, Now());
        if !ok {
          Fails(Then(done, e), rest, start, Now());
          return;
        }
        done := Then(done, e);
      }
      ThenUnit(done);
      ok := true;
    }

    /** Items each with its tag. */
    method EncodeTaggedItems(f: Field, items: seq<Datum>) returns (ok: bool)
      requires Valid() && forall k | 0 <= k < |items| :: Fits(f, items[k])
      modifies this
      ensures Wrote(EncodeTagged(f, items), ok, old(Now()), Now())
      decreases f, 2
    {
      hide EncodeItem, Fits, Wrote;
      ghost var start := Now();
      ghost var done := Some([]);
      Nothing(start);
      ThenUnit(EncodeTagged(f, items));
      assert items[0..] == items;
      for i := 0 to |items|
        invariant Valid() && Wrote(done, true, start, Now())
        invariant Then(done, EncodeTagged(f, items[i..])) == EncodeTagged(f, items)
      {
        ghost var before := Now();
        ghost var e, rest := EncodeOne(f, items[i]), EncodeTagged(f, items[i + 1..]);
        TaggedStep(f, items, i);
        ThenAssociates(done, e, rest);
        ok := EncodeOneItem(f, items[i]);
        Chain(done, e, ok, start, before, Now());
        StaysSound(e, ok, before, Now());
        if !ok {
          Fails(Then(done, e), rest, start, Now());
          return;
        }
        done := Then(done, e);
      }
      ThenUnit(done);
      ok := true;
    }

    /** The length of a packed array: by multiplication for the fixed kinds, by
        a sizing stream for the others. */
    static method PackedSize(f: Field, items: seq<Datum>) returns (ok: bool, size: nat)
      requires Packable(f.kind) && forall k | 0 <= k < |items| :: Fits(f, items[k])
      ensures ok <==> EncodePacked(f, items).Some?
      ensures ok ==> size == |EncodePacked(f, items).value|
      decreases f, 2, 0
    {
      hide Fits, EncodeItem;
      if f.kind.FIXED32? {
        FixedSizes(f, items, 4);
        return true, 4 * |items|;
      } else if f.kind.FIXED64? {
        FixedSizes(f, items, 8);
        return true, 8 * |items|;
      }
      var sizestream := new OStream(true, 0, []);
      ok := sizestream.EncodeItems(f, items);
      size := sizestream.bytesWritten;
    }

    /** encode_array */
    method EncodeArrayField(f: Field, items: seq<Datum>, count: nat) returns (ok: bool)
      requires Valid() && |items| == f.arraySize && forall k | 0 <= k < |items| :: Fits(f, items[k])
      modifies this
      ensures Wrote(EncodeArray(f, items, count), ok, old(Now()), Now())
      decreases f, 3
    {
      hide EncodeItem, EncodePacked, EncodeTagged, Fits;
      if count == 0 {
        return true;
      }
      if count > f.arraySize {
        return false; // array max size exceeded
      }
      if Packable(f.kind) {
        ok := EncodePackedArray(f, items[..count]);
      } else {
        ok := EncodeTaggedItems(f, items[..count]);
      }
    }

    method EncodePackedArray(f: Field, items: seq<Datum>) returns (ok: bool)
      requires Valid() && Packable(f.kind) && forall k | 0 <= k < |items| :: Fits(f, items[k])
      modifies this
      ensures Wrote(Then(Some(TagBytes(f.tag, WT_STRING)), Prefixed(EncodePacked(f, items))), ok, old(Now()), Now())
      decreases f, 2, 1
    {
      hide EncodeItem, EncodePacked, Fits;
      ghost var start := Now();
      ghost var tag, data := Some(TagBytes(f.tag, WT_STRING)), EncodePacked(f, items);
      ok := EncodeTag(WT_STRING, f.tag);
      ghost var tagged := Now();
      if !ok {
        Fails(tag, Prefixed(data), start, tagged);
        return;
      }
      var size: nat;
      ok, size := PackedSize(f, items);
      if !ok {
        return;
      }
      ghost var length := Some(Coding.Varint(size));
      ThenAssociates(tag, length, data);
      ok := EncodeVarint(size);
      ghost var measured := Now();
      Chain(tag, length, ok, start, tagged, measured);
      if !ok {
        Fails(Then(tag, length), data, start, measured);
        return;
      }
      if sizing {
        Count(size, data.value);
      } else {
        ok := EncodeItems(f, items);
      }
      Chain(Then(tag, length), data, ok, start, measured, Now());
    }

    /** encode_basic_field */
    method EncodeBasicField(f: Field, s: Slot) returns (ok: bool)
      requires Valid() && FitsSlot(f, s)
      modifies this
      ensures Wrote(EncodeField(f, s), ok, old(Now()), Now())
      decreases f, 4
    {
      hide Fits, IsDefault, EncodeArray, EncodeOne;
      match f.rule {
        case REQUIRED =>
          ok := EncodeOneItem(f, s.items[0]);
        case OPTIONAL =>
          if s.size != 0 {
            ok := EncodeOneItem(f, s.items[0]);
          } else {
            ok := true;
          }
        case SINGULAR =>
          var implicitHas := !IsDefault(f, s.items[0]);
          if implicitHas {
            ok := EncodeOneItem(f, s.items[0]);
          } else {
            ok := true;
          }
        case REPEATED =>
          ok := EncodeArrayField(f, s.items, s.size);
        case ONEOF =>
          if s.size == f.tag {
            ok := EncodeOneItem(f, s.items[0]);
          } else {
            ok := true;
          }
      }
    }

    /** pb_encode: the fields in the order of the descriptor. */
    method Encode(m: Message, slots: seq<Slot>) returns (ok: bool)
      requires Valid() && FitsMessage(m, slots)
      modifies this
      ensures Wrote(EncodeFrom(m, slots, 0), ok, old(Now()), Now())
      decreases m, 0
    {
      hide EncodeField, FitsSlot, Wrote, SlotOf;
      ghost var start := Now();
      ghost var done := Some([]);
      Nothing(start);
      ThenUnit(EncodeFrom(m, slots, 0));
      var iter := new FieldIter(m);
      if m.fields == [] {
        return true; // empty message type
      }
      var more := true;
      while more
        invariant iter.Valid() && iter.message == m && fresh(iter)
        invariant Valid() && Wrote(done, true, start, Now())
        invariant Then(done, EncodeFrom(m, slots, if more then iter.pos else |m.fields|)) == EncodeFrom(m, slots, 0)
        decreases more, |m.fields| - iter.pos
      {
        ghost var before := Now();
        ghost var e, rest := EncodeField(iter.Current(), slots[iter.slot]), EncodeFrom(m, slots, iter.pos + 1);
        ThenAssociates(done, e, rest);
        ok := EncodeBasicField(iter.Current(), slots[iter.slot]);
        Chain(done, e, ok, start, before, Now());
        StaysSound(e, ok, before, Now());
        if !ok {
          Fails(Then(done, e), rest, start, Now());
          return;
        }
        done := Then(done, e);
        more := iter.Next();
      }
      ThenUnit(done);
      ok := true;
    }
  }

  /** The bytes of a whole message. */
  ghost function EncodeMessage(m: Message, slots: seq<Slot>): Option<Bytes>
    requires FitsMessage(m, slots)
  {
    EncodeFrom(m, slots, 0)
  }

  /** pb_get_encoded_size */
  method GetEncodedSize(m: Message, slots: seq<Slot>) returns (ok: bool, size: nat)
    requires FitsMessage(m, slots)
    ensures ok <==> EncodeMessage(m, slots).Some?
    ensures ok ==> size == |EncodeMessage(m, slots).value|
  {
    var stream := new OStream(true, 0, []);
    ok := stream.Encode(m, slots);
    size := stream.bytesWritten;
  }

  /** pb_encode on pb_ostream_from_buffer: it succeeds exactly when the size
      pb_get_encoded_size gives is there, and never writes beyond the buffer. */
  method EncodeToBuffer(m: Message, slots: seq<Slot>, bufsize: nat) returns (ok: bool, buffer: Bytes)
    requires FitsMessage(m, slots)
    ensures ok <==> EncodeMessage(m, slots).Some? && |EncodeMessage(m, slots).value| <= bufsize
    ensures ok ==> buffer == EncodeMessage(m, slots).value
    ensures |buffer| <= bufsize
  {
    var stream := new OStream(false, bufsize, []);
    ok := stream.Encode(m, slots);
    buffer := stream.state;
  }
}
