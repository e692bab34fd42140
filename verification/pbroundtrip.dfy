/** nanopb decodes what it encodes: for every well-formed descriptor and every
    valid structure, decoding the encoding succeeds exactly when the strings
    are terminated, and the result says what the original says. */
module PbRoundTrip {
  import opened DbFormat
  import opened PbFields
  import opened PbWire
  import opened PbEncode
  import opened PbDecode
  import opened PbView
  import Coding

  // ----- Numbers -----

  lemma SignedBack(n: int, dataSize: nat)
    requires IntegerSize(dataSize) && SignedFits(n, dataSize)
    ensures AsSigned(Unsigned64(n), if dataSize == 8 then Coding.LIMIT64 else Coding.LIMIT32) == n
  {
  }

  lemma ZigZagBack(n: int)
    requires SignedFits(n, 8)
    ensures UnZigZag(ZigZag(n)) == n
  {
  }

  /** The integer kinds give back the number. */
  lemma IntegerReads(f: Field, v: Datum, previous: Datum, after: Bytes)
    requires WellFormedField(f) && Fits(f, v) && Fits(f, previous) && EncodeItem(f, v).Some?
    requires f.kind.VARINT? || f.kind.UVARINT? || f.kind.SVARINT?
    ensures DecodeItem(f, previous, EncodeItem(f, v).value + after) == Some((v, |EncodeItem(f, v).value|))
  {
    hide Coding.Varint, Varint64;
    match f.kind {
      case VARINT =>
        SignedBack(v.n, f.dataSize);
        Varint64RoundTrip(Unsigned64(v.n), after);
      case UVARINT =>
        Varint64RoundTrip(v.n, after);
      case SVARINT =>
        ZigZagBack(v.n);
        Varint64RoundTrip(ZigZag(v.n), after);
    }
  }

  lemma FixedReads(f: Field, v: Datum, previous: Datum, after: Bytes)
    requires WellFormedField(f) && Fits(f, v) && Fits(f, previous) && (f.kind.FIXED32? || f.kind.FIXED64?)
    ensures DecodeItem(f, previous, EncodeItem(f, v).value + after) == Some((v, |EncodeItem(f, v).value|))
  {
    hide Coding.Fixed32, Coding.Fixed64, Coding.DecodeFixed32, Coding.DecodeFixed64;
    var e := EncodeItem(f, v).value;
    assert (e + after)[..|e|] == e;
    if f.kind.FIXED32? {
      Coding.Fixed32RoundTrip(v.n);
    } else {
      Coding.Fixed64RoundTrip(v.n);
    }
  }

  lemma NumberReads(f: Field, v: Datum, previous: Datum, after: Bytes)
    requires WellFormedField(f) && Fits(f, v) && Fits(f, previous) && EncodeItem(f, v).Some? && Packable(f.kind)
    ensures DecodeItem(f, previous, EncodeItem(f, v).value + after) == Some((v, |EncodeItem(f, v).value|))
  {
    if f.kind.FIXED32? || f.kind.FIXED64? {
      FixedReads(f, v, previous, after);
    } else {
      IntegerReads(f, v, previous, after);
    }
  }

  // ----- Items -----

  /** What decoding e + after over an item should give. */
  ghost predicate Reads(f: Field, v: Datum, previous: Datum, e: Bytes, after: Bytes)
    requires WellFormedField(f) && Fits(f, v) && Fits(f, previous)
  {
    var r := DecodeItem(f, previous, e + after);
    && (r.Some? <==> Terminated(f, v))
    && (r.Some? ==> r.value.1 == |e| && ItemOf(f, r.value.0) == ItemOf(f, v) && Valid(f, r.value.0))
  }

  lemma {:induction false} UpToNulOf(d: Bytes, tail: Bytes)
    requires 0 !in d
    ensures UpToNul(d + [0] + tail) == d
  {
    if d != [] {
      assert (d + [0] + tail)[1..] == d[1..] + [0] + tail;
      UpToNulOf(d[1..], tail);
    }
  }

  lemma StringReads(f: Field, v: Datum, previous: Datum, after: Bytes)
    requires WellFormedField(f) && Fits(f, v) && Fits(f, previous) && f.kind.STRING?
    ensures Reads(f, v, previous, EncodeItem(f, v).value, after)
  {
    hide Coding.LengthPrefixed, Delimited;
    var d := UpToNul(v.chars);
    DelimitedRoundTrip(d, after);
    assert 0 in v.chars <==> |d| < |v.chars| by {
      if |d| == |v.chars| {
        assert d == v.chars;
      }
    }
    if |d| < |v.chars| {
      UpToNulOf(d, previous.chars[|d| + 1..]);
    }
  }

  lemma BytesRead(f: Field, v: Datum, previous: Datum, after: Bytes)
    requires WellFormedField(f) && Fits(f, v) && Fits(f, previous) && EncodeItem(f, v).Some?
    requires f.kind.BYTES? || f.kind.FIXED_LENGTH_BYTES?
    ensures Reads(f, v, previous, EncodeItem(f, v).value, after)
  {
    hide Coding.LengthPrefixed, Delimited;
    if f.kind.BYTES? {
      DelimitedRoundTrip(v.bytes[..v.size], after);
    } else {
      DelimitedRoundTrip(v.chars, after);
    }
  }

  lemma {:induction false} ItemReads(f: Field, v: Datum, previous: Datum, after: Bytes)
    requires WellFormedField(f) && Fits(f, v) && Fits(f, previous) && Valid(f, v)
    requires EncodeItem(f, v).Some? && |EncodeItem(f, v).value| < Coding.LIMIT32
    requires f.kind.SUBMESSAGE? && !f.rule.REPEATED? ==> FreshMessage(f.message, previous.slots)
    ensures Reads(f, v, previous, EncodeItem(f, v).value, after)
    decreases f, 1
  {
    if f.kind.SUBMESSAGE? {
      SubmessageReads(f, v, previous, after);
    } else if f.kind.STRING? {
      StringReads(f, v, previous, after);
    } else if Packable(f.kind) {
      NumberReads(f, v, previous, after);
    } else {
      BytesRead(f, v, previous, after);
    }
  }

  lemma {:induction false} SubmessageReads(f: Field, v: Datum, previous: Datum, after: Bytes)
    requires WellFormedField(f) && Fits(f, v) && Fits(f, previous) && Valid(f, v) && f.kind.SUBMESSAGE?
    requires EncodeItem(f, v).Some? && |EncodeItem(f, v).value| < Coding.LIMIT32
    requires !f.rule.REPEATED? ==> FreshMessage(f.message, previous.slots)
    ensures Reads(f, v, previous, EncodeItem(f, v).value, after)
    decreases f, 0
  {
    hide Coding.Varint, Delimited, ViewMessage, ValidMessage, FreshMessage, TerminatedFrom, EncodeFrom, DecodeFields, FitsMessage, SetDefaultsFrom;
    var m := f.message;
    var e := EncodeFrom(m, v.slots, 0).value;
    DelimitedRoundTrip(e, after);
    var start := previous.slots;
    if f.rule.REPEATED? {
      MessageDefaultsAreFresh(m, previous.slots);
      start := SetDefaultsFrom(m, previous.slots, 0);
    }
    MessageReads(m, v.slots, start);
  }

  /** A whole message, decoded over a fresh structure. */
  ghost predicate MessageSaysSame(m: Message, a: seq<Slot>, r: Option<seq<Slot>>)
    requires FitsMessage(m, a) && (r.Some? ==> FitsMessage(m, r.value))
  {
    && (r.Some? <==> TerminatedFrom(m, a, 0))
    && (r.Some? ==> ViewMessage(m, r.value) == ViewMessage(m, a) && ValidMessage(m, r.value))
  }

  lemma {:induction false} MessageReads(m: Message, a: seq<Slot>, d: seq<Slot>)
    requires WellFormed(m) && FitsMessage(m, a) && FitsMessage(m, d) && ValidMessage(m, a) && FreshMessage(m, d)
    requires EncodeFrom(m, a, 0).Some? && |EncodeFrom(m, a, 0).value| < Coding.LIMIT32
    ensures MessageSaysSame(m, a, DecodeFields(m, d, {}, EncodeFrom(m, a, 0).value))
    decreases m, |m.fields| + 1
  {
    hide *;
    FreshAwaits(m, d);
    FieldsRead(m, a, d, 0, {});
    Summed(m, a, DecodeFields(m, d, {}, EncodeFrom(m, a, 0).value));
  }

  lemma Summed(m: Message, a: seq<Slot>, r: Option<seq<Slot>>)
    requires FitsMessage(m, a) && (r.Some? ==> FitsMessage(m, r.value)) && FieldsSaySame(m, a, 0, r)
    ensures MessageSaysSame(m, a, r)
  {
    hide ViewMessage, ViewSlot, ValidSlot;
    if r.Some? {
      ViewsAgree(m, r.value, a);
    }
  }

  // ----- Where decoding stands before field i -----

  /** Field j has not come yet. */
  ghost predicate Awaits(m: Message, d: seq<Slot>, j: nat)
    requires FitsMessage(m, d) && j < |m.fields|
  {
    var f, s := m.fields[j], d[SlotOf(m, j)];
    if f.rule.ONEOF? then s.size != f.tag else FreshSlot(f, s)
  }

  ghost predicate Before(m: Message, a: seq<Slot>, d: seq<Slot>, i: nat)
    requires FitsMessage(m, a) && FitsMessage(m, d) && i <= |m.fields|
  {
    && (forall j | 0 <= j < |m.fields| :: UnionSound(m, d, j))
    && (forall j | 0 <= j < i :: SaysSame(m.fields[j], d[SlotOf(m, j)], a[SlotOf(m, j)]))
    && (forall j | i <= j < |m.fields| :: Awaits(m, d, j))
  }

  ghost predicate SeenUpTo(m: Message, seen: set<nat>, i: nat)
    requires i <= |m.fields|
  {
    forall r | 0 <= r < RequiredBefore(m, i) && r < MAX_REQUIRED_FIELDS :: r in seen
  }

  ghost predicate FieldsSaySame(m: Message, a: seq<Slot>, i: nat, r: Option<seq<Slot>>)
    requires FitsMessage(m, a) && (r.Some? ==> FitsMessage(m, r.value)) && i <= |m.fields|
  {
    && (r.Some? <==> TerminatedFrom(m, a, i))
    && (r.Some? ==> forall j | 0 <= j < |m.fields| :: UnionSound(m, r.value, j))
    && (r.Some? ==> forall j | 0 <= j < |m.fields| ::
          SaysSame(m.fields[j], r.value[SlotOf(m, j)], a[SlotOf(m, j)]))
  }

  lemma FreshAwaits(m: Message, d: seq<Slot>)
    requires WellFormed(m) && FitsMessage(m, d) && FreshMessage(m, d)
    ensures SeenUpTo(m, {}, 0)
    ensures forall a | FitsMessage(m, a) :: Before(m, a, d, 0)
  {
    hide FreshItem, FitsSlot;
    forall j | 0 <= j < |m.fields|
      ensures UnionSound(m, d, j) && Awaits(m, d, j)
    {
      assert FreshSlot(m.fields[j], d[SlotOf(m, j)]);
      assert WellFormedField(m.fields[j]);
    }
  }

  /** What the field's own decoding may leave in its slot. */
  ghost predicate Leaves(m: Message, a: seq<Slot>, d: seq<Slot>, i: nat, s: Slot)
    requires FitsMessage(m, a) && FitsMessage(m, d) && i < |m.fields|
  {
    && SaysSame(m.fields[i], s, a[SlotOf(m, i)])
    && (m.fields[i].rule.ONEOF? ==> s == d[SlotOf(m, i)] || (s.size == m.fields[i].tag == a[SlotOf(m, i)].size))
  }

  /** Storing the slot of field i leaves field j as it was, or, in the same
      oneof, says that the union does not hold it. */
  lemma StoreAt(m: Message, a: seq<Slot>, d: seq<Slot>, i: nat, s: Slot, j: nat)
    requires WellFormed(m) && FitsMessage(m, a) && FitsMessage(m, d) && i < |m.fields| && j < |m.fields|
    requires Before(m, a, d, i) && Leaves(m, a, d, i, s)
    requires FitsMessage(m, d[SlotOf(m, i) := s])
    ensures UnionSound(m, d[SlotOf(m, i) := s], j)
    ensures j <= i ==> SaysSame(m.fields[j], d[SlotOf(m, i) := s][SlotOf(m, j)], a[SlotOf(m, j)])
    ensures j > i ==> Awaits(m, d[SlotOf(m, i) := s], j)
  {
    hide SlotOf, FitsSlot, WellFormedField, FreshSlot, ViewSlot, ValidSlot;
    OnlyIndex(m, i);
    assert UnionSound(m, d, j) && (j > i ==> Awaits(m, d, j));
    if s == d[SlotOf(m, i)] {
      assert d[SlotOf(m, i) := s] == d;
    } else if SlotOf(m, j) == SlotOf(m, i) {
      if j != i {
        SharedSlot(m, if j < i then j else i, if j < i then i else j);
        assert FitsSlot(m.fields[j], d[SlotOf(m, i) := s][SlotOf(m, j)]) && FitsSlot(m.fields[j], a[SlotOf(m, j)]);
        NotHeld(m.fields[j], s, a[SlotOf(m, j)]);
      }
    }
  }

  lemma NotHeld(f: Field, s: Slot, a: Slot)
    requires FitsSlot(f, s) && FitsSlot(f, a) && f.rule.ONEOF? && s.size != f.tag && a.size != f.tag
    ensures SaysSame(f, s, a)
  {
  }

  lemma Stored(m: Message, a: seq<Slot>, d: seq<Slot>, i: nat, s: Slot)
    requires WellFormed(m) && FitsMessage(m, a) && FitsMessage(m, d) && i < |m.fields|
    requires Before(m, a, d, i) && Leaves(m, a, d, i, s)
    ensures SlotOf(m, i) < |d| && FitsMessage(m, d[SlotOf(m, i) := s]) && Before(m, a, d[SlotOf(m, i) := s], i + 1)
  {
    hide SlotOf, FitsSlot, WellFormedField, FreshSlot, SaysSame, UnionSound, Awaits;
    if s == d[SlotOf(m, i)] {
      assert d[SlotOf(m, i) := s] == d;
    } else {
      assert FitsSlot(m.fields[i], s) by { SaysFits(m.fields[i], s, a[SlotOf(m, i)]); }
      StoreFits(m, d, i, s);
    }
    var next := d[SlotOf(m, i) := s];
    forall j | 0 <= j < |m.fields| ensures UnionSound(m, next, j) {
      StoreAt(m, a, d, i, s, j);
    }
    forall j | 0 <= j < i + 1 ensures SaysSame(m.fields[j], next[SlotOf(m, j)], a[SlotOf(m, j)]) {
      StoreAt(m, a, d, i, s, j);
    }
    forall j | i + 1 <= j < |m.fields| ensures Awaits(m, next, j) {
      StoreAt(m, a, d, i, s, j);
    }
  }

  lemma SaysFits(f: Field, s: Slot, a: Slot)
    requires SaysSame(f, s, a)
    ensures FitsSlot(f, s)
  {
  }

  // ----- A field -----

  /** Reading a tag that the encoder wrote. */
  lemma TagReads(m: Message, d: seq<Slot>, seen: set<nat>, i: nat, w: WireType, body: Bytes)
    requires WellFormed(m) && FitsMessage(m, d) && i < |m.fields|
    ensures DecodeFields(m, d, seen, TagBytes(m.fields[i].tag, w) + body) == DecodeKnown(m, d, seen, i, WireCode(w), body)
  {
    hide DecodeKnown, FitsMessage, Coding.Varint, Varint32, IndexOf;
    assert 0 < m.fields[i].tag < TAG_LIMIT by { assert WellFormedField(m.fields[i]); }
    hide WellFormedField;
    OnlyIndex(m, i);
    hide WellFormed;
    var tag := m.fields[i].tag;
    var key := tag * 8 + WireCode(w);
    assert key / 8 == tag && key % 8 == WireCode(w);
    Varint32RoundTrip(key, body);
    var s := TagBytes(tag, w) + body;
    assert s[|TagBytes(tag, w)|..] == body;
  }

  /** The tag and one item of a field that is not an array. */
  lemma {:induction false} OneReads(m: Message, a: seq<Slot>, d: seq<Slot>, seen: set<nat>, i: nat, rest: Bytes) returns (s: Slot)
    requires WellFormed(m) && FitsMessage(m, a) && FitsMessage(m, d) && i < |m.fields| && !m.fields[i].rule.REPEATED?
    requires Before(m, a, d, i) && ValidSlot(m.fields[i], a[SlotOf(m, i)])
    requires Present(m.fields[i], a[SlotOf(m, i)]) == a[SlotOf(m, i)].items
    requires var e := EncodeOne(m.fields[i], a[SlotOf(m, i)].items[0]); e.Some? && |e.value| < Coding.LIMIT32
    ensures FieldReads(m, a, d, seen, i, EncodeOne(m.fields[i], a[SlotOf(m, i)].items[0]).value, rest, s)
    decreases m.fields[i], 2
  {
    hide Coding.Varint, DecodeItem, DecodeFields, EncodeItem, ItemOf, Valid, Terminated, IsDefault, Fits, FreshMessage, FitsMessage, WellFormed, Before;
    Here(m, a, i);
    Here(m, d, i);
    var f, x, y := m.fields[i], a[SlotOf(m, i)], d[SlotOf(m, i)];
    var v, item := x.items[0], EncodeItem(f, x.items[0]).value;
    StandsBefore(m, a, d, i);
    var previous := Previous(f, y);
    if f.kind.SUBMESSAGE? {
      PreviousIsFresh(f, y);
    }
    TagReads(m, d, seen, i, WireOf(f.kind), item + rest);
    assert TagBytes(f.tag, WireOf(f.kind)) + (item + rest) == TagBytes(f.tag, WireOf(f.kind)) + item + rest;
    assert Valid(f, Present(f, x)[0]);
    ItemReads(f, v, previous, rest);
    assert TerminatedSlot(f, x) <==> Terminated(f, v) by {
      assert TerminatedSlot(f, x) ==> Terminated(f, Present(f, x)[0]);
    }
    var r := DecodeItem(f, previous, item + rest);
    if r.Some? {
      s := Slot(if f.rule.OPTIONAL? then 1 else if f.rule.ONEOF? then f.tag else y.size, [r.value.0]);
      assert (item + rest)[|item|..] == rest;
      OneSaysSame(f, s, x);
      Stored(m, a, d, i, s);
    } else {
      s := y;
    }
  }

  /** What decoding the bytes of field i leads to. */
  ghost predicate FieldReads(m: Message, a: seq<Slot>, d: seq<Slot>, seen: set<nat>, i: nat, e: Bytes, rest: Bytes, s: Slot)
    requires WellFormed(m) && FitsMessage(m, a) && FitsMessage(m, d) && i < |m.fields|
  {
    var f, at := m.fields[i], SlotOf(m, i);
    if TerminatedSlot(f, a[at]) then
      && Leaves(m, a, d, i, s)
      && FitsMessage(m, d[at := s])
      && DecodeFields(m, d, seen, e + rest) == DecodeFields(m, d[at := s], SeenWith(m, seen, i), rest)
    else DecodeFields(m, d, seen, e + rest) == None
  }

  lemma StandsBefore(m: Message, a: seq<Slot>, d: seq<Slot>, i: nat)
    requires FitsMessage(m, a) && FitsMessage(m, d) && i < |m.fields| && Before(m, a, d, i)
    ensures UnionSound(m, d, i) && Awaits(m, d, i)
  {
  }

  lemma Here(m: Message, d: seq<Slot>, i: nat)
    requires WellFormed(m) && FitsMessage(m, d) && i < |m.fields|
    ensures WellFormedField(m.fields[i]) && SlotOf(m, i) < |d| && FitsSlot(m.fields[i], d[SlotOf(m, i)])
    ensures UnionSound(m, d, i) ==> UnionReleases(m, m.fields[i], d[SlotOf(m, i)])
  {
    hide WellFormedField, FitsSlot, SlotOf;
  }

  /** What an item is decoded over. */
  function Previous(f: Field, s: Slot): (v: Datum)
    requires WellFormedField(f) && FitsSlot(f, s) && !f.rule.REPEATED?
    ensures Fits(f, v)
  {
    if f.rule.ONEOF? then UnionBefore(f, s) else s.items[0]
  }

  lemma PreviousIsFresh(f: Field, s: Slot)
    requires WellFormedField(f) && FitsSlot(f, s) && !f.rule.REPEATED? && f.kind.SUBMESSAGE?
    requires f.rule.ONEOF? || FreshSlot(f, s)
    ensures FreshMessage(f.message, Previous(f, s).slots)
  {
    hide FreshMessage;
    if f.rule.ONEOF? {
      MessageDefaultsAreFresh(f.message, ZeroMessage(f.message));
    }
  }

  lemma OneSaysSame(f: Field, s: Slot, x: Slot)
    requires WellFormedField(f) && FitsSlot(f, s) && FitsSlot(f, x) && !f.rule.REPEATED?
    requires f.rule.OPTIONAL? ==> s.size != 0
    requires f.rule.ONEOF? ==> s.size == f.tag
    requires Present(f, x) == x.items && Fits(f, s.items[0]) && Fits(f, x.items[0])
    requires ItemOf(f, s.items[0]) == ItemOf(f, x.items[0]) && Valid(f, s.items[0]) && Valid(f, x.items[0])
    ensures SaysSame(f, s, x)
  {
    hide IsDefault, ItemOf, Valid, Fits, WellFormedField;
    if f.rule.SINGULAR? && IsDefault(f, s.items[0]) {
      DefaultByView(f, s.items[0], x.items[0]);
    }
    assert Present(f, s) == s.items;
  }

  // ----- Arrays -----

  /** The slot once more items have been appended. */
  function Appended(slot: Slot, items: seq<Datum>): Slot
    requires slot.size + |items| <= |slot.items|
    decreases |items|
  {
    if items == [] then slot
    else Appended(Slot(slot.size + 1, slot.items[slot.size := items[0]]), items[1..])
  }

  lemma {:induction false} AppendedIs(slot: Slot, items: seq<Datum>)
    requires slot.size + |items| <= |slot.items|
    ensures var r := Appended(slot, items);
      r == Slot(slot.size + |items|, slot.items[..slot.size] + items + slot.items[slot.size + |items|..])
    decreases |items|
  {
    if items != [] {
      var next := Slot(slot.size + 1, slot.items[slot.size := items[0]]);
      AppendedIs(next, items[1..]);
      assert next.items[..next.size] == slot.items[..slot.size] + [items[0]];
      assert slot.items[..slot.size] + [items[0]] + items[1..] == slot.items[..slot.size] + items;
    } else {
      assert slot.items == slot.items[..slot.size] + [] + slot.items[slot.size..];
    }
  }

  lemma NumbersOnly(f: Field, v: Datum)
    requires Fits(f, v) && Packable(f.kind)
    ensures Terminated(f, v) && Valid(f, v)
  {
  }

  /** A packed array gives back its numbers, behind those already there. */
  lemma {:induction false} PackedReads(f: Field, slot: Slot, items: seq<Datum>)
    requires WellFormedField(f) && f.rule.REPEATED? && Packable(f.kind) && FitsSlot(f, slot)
    requires forall k | 0 <= k < |items| :: Fits(f, items[k])
    requires slot.size + |items| <= f.arraySize && EncodePacked(f, items).Some?
    ensures DecodePacked(f, slot, EncodePacked(f, items).value) == Some(Appended(slot, items))
    decreases |items|
  {
    if items != [] {
      var e, rest := EncodeItem(f, items[0]).value, EncodePacked(f, items[1..]).value;
      NumberReads(f, items[0], slot.items[slot.size], rest);
      hide DecodeItem, EncodeItem, Fits;
      PackedReads(f, Slot(slot.size + 1, slot.items[slot.size := items[0]]), items[1..]);
      assert (e + rest)[|e|..] == rest;
    }
  }

  ghost predicate AllTerminated(f: Field, items: seq<Datum>)
    requires forall k | 0 <= k < |items| :: Fits(f, items[k])
  {
    forall k | 0 <= k < |items| :: Terminated(f, items[k])
  }

  /** s continues slot with items that say what those of the list say. */
  ghost predicate Continues(f: Field, slot: Slot, items: seq<Datum>, s: Slot)
    requires forall k | 0 <= k < |items| :: Fits(f, items[k])
  {
    && FitsSlot(f, slot) && FitsSlot(f, s) && f.rule.REPEATED?
    && s.size == slot.size + |items| <= f.arraySize
    && (forall k | 0 <= k < f.arraySize && !(slot.size <= k < s.size) :: s.items[k] == slot.items[k])
    && SaysFrom(f, s.items, slot.size, items)
  }

  lemma ContinuesMore(f: Field, slot: Slot, v: Datum, items: seq<Datum>, s: Slot)
    requires items != [] && forall k | 0 <= k < |items| :: Fits(f, items[k])
    requires FitsSlot(f, slot) && f.rule.REPEATED? && slot.size < f.arraySize && Fits(f, v)
    requires ItemOf(f, v) == ItemOf(f, items[0]) && Valid(f, v)
    requires Continues(f, Slot(slot.size + 1, slot.items[slot.size := v]), items[1..], s)
    ensures Continues(f, slot, items, s)
  {
    hide Fits, ItemOf, Valid;
    var next := Slot(slot.size + 1, slot.items[slot.size := v]);
    assert s.items[slot.size] == next.items[slot.size] == v;
    hide SaysFrom;
    OneMore(f, s.items, slot.size, items);
    forall k | 0 <= k < f.arraySize && !(slot.size <= k < s.size)
      ensures s.items[k] == slot.items[k]
    {
      assert s.items[k] == next.items[k];
    }
  }

  /** From n on, t says what the items say. */
  ghost predicate SaysFrom(f: Field, t: seq<Datum>, n: nat, items: seq<Datum>)
    requires forall k | 0 <= k < |t| :: Fits(f, t[k])
    requires forall k | 0 <= k < |items| :: Fits(f, items[k])
  {
    && n + |items| <= |t|
    && forall k | n <= k < n + |items| :: ItemOf(f, t[k]) == ItemOf(f, items[k - n]) && Valid(f, t[k])
  }

  lemma OneMore(f: Field, t: seq<Datum>, n: nat, items: seq<Datum>)
    requires forall k | 0 <= k < |t| :: Fits(f, t[k])
    requires items != [] && forall k | 0 <= k < |items| :: Fits(f, items[k])
    requires n < |t| && ItemOf(f, t[n]) == ItemOf(f, items[0]) && Valid(f, t[n]) && SaysFrom(f, t, n + 1, items[1..])
    ensures SaysFrom(f, t, n, items)
  {
    hide Fits, ItemOf, Valid;
    forall k | n < k < n + |items|
      ensures ItemOf(f, t[k]) == ItemOf(f, items[k - n]) && Valid(f, t[k])
    {
      assert items[k - n] == items[1..][k - (n + 1)];
    }
  }

  /** Decoding with s in the slot of field i, an array. */
  ghost function With(m: Message, d: seq<Slot>, seen: set<nat>, i: nat, s: Slot, bytes: Bytes): (r: Option<seq<Slot>>)
    requires WellFormed(m) && FitsMessage(m, d) && i < |m.fields| && FitsSlot(m.fields[i], s) && m.fields[i].rule.REPEATED?
    ensures r.Some? ==> FitsMessage(m, r.value)
  {
    StoreFits(m, d, i, s);
    DecodeFields(m, d[SlotOf(m, i) := s], seen, bytes)
  }

  /** One more tag of the array. */
  lemma StepReads(m: Message, d: seq<Slot>, seen: set<nat>, i: nat, y: Slot, w: WireType, body: Bytes)
    requires WellFormed(m) && FitsMessage(m, d) && i < |m.fields| && m.fields[i].rule.REPEATED?
    requires WellFormedField(m.fields[i]) && FitsSlot(m.fields[i], y)
    ensures var r := DecodeField(m.fields[i], y, WireCode(w), body);
      With(m, d, seen, i, y, TagBytes(m.fields[i].tag, w) + body)
        == if r.None? then None else With(m, d, seen, i, r.value.0, body[r.value.1..])
  {
    hide Fits, WellFormed, FitsMessage, FitsSlot, SlotOf, DecodeFields, DecodeField, TagBytes;
    StoreFits(m, d, i, y);
    var at := SlotOf(m, i);
    TagReads(m, d[at := y], seen, i, w, body);
    var r := DecodeField(m.fields[i], y, WireCode(w), body);
    if r.Some? {
      assert d[at := y][at := r.value.0] == d[at := r.value.0];
    }
  }

  /** What decoding items with a tag each leads to. */
  ghost predicate ItemsRead(m: Message, d: seq<Slot>, seen: set<nat>, i: nat, y: Slot, items: seq<Datum>, e: Bytes, rest: Bytes, s: Slot)
    requires WellFormed(m) && FitsMessage(m, d) && i < |m.fields| && m.fields[i].rule.REPEATED? && FitsSlot(m.fields[i], y)
    requires forall k | 0 <= k < |items| :: Fits(m.fields[i], items[k])
  {
    if AllTerminated(m.fields[i], items) then
      Continues(m.fields[i], y, items, s) && With(m, d, seen, i, y, e + rest) == With(m, d, seen, i, s, rest)
    else With(m, d, seen, i, y, e + rest) == None
  }

  /** Items with a tag each are appended one by one.  This is how an array that
      cannot be packed is written, and the decoder takes any array so. */
  lemma {:induction false} TaggedReads(m: Message, d: seq<Slot>, seen: set<nat>, i: nat, y: Slot, items: seq<Datum>, rest: Bytes) returns (s: Slot)
    requires WellFormed(m) && FitsMessage(m, d) && i < |m.fields| && m.fields[i].rule.REPEATED?
    requires WellFormedField(m.fields[i]) && FitsSlot(m.fields[i], y) && y.size + |items| <= m.fields[i].arraySize
    requires forall k | 0 <= k < |items| :: Fits(m.fields[i], items[k]) && Valid(m.fields[i], items[k])
    requires EncodeTagged(m.fields[i], items).Some? && |EncodeTagged(m.fields[i], items).value| < Coding.LIMIT32
    ensures ItemsRead(m, d, seen, i, y, items, EncodeTagged(m.fields[i], items).value, rest, s)
    decreases m.fields[i], 2, |items|
  {
    hide Fits, Valid, Terminated, ItemOf, WellFormed, WellFormedField, FitsMessage, With, EncodeItem, EncodeTagged, TagBytes, SlotOf, DecodeItem;
    var f := m.fields[i];
    if items == [] {
      s := y;
      NoneTagged(f);
      assert [] + rest == rest;
    } else {
      TaggedSplits(f, items);
      FirstTerminated(f, items);
      var item, others := EncodeItem(f, items[0]).value, EncodeTagged(f, items[1..]).value;
      StepReads(m, d, seen, i, y, WireOf(f.kind), item + (others + rest));
      assert TagBytes(f.tag, WireOf(f.kind)) + (item + others) + rest == TagBytes(f.tag, WireOf(f.kind)) + (item + (others + rest));
      ItemReads(f, items[0], y.items[y.size], others + rest);
      var r := DecodeItem(f, y.items[y.size], item + (others + rest));
      s := y;
      if r.Some? {
        assert (item + (others + rest))[|item|..] == others + rest;
        s := TaggedReads(m, d, seen, i, Slot(y.size + 1, y.items[y.size := r.value.0]), items[1..], rest);
        if AllTerminated(f, items) {
          ContinuesMore(f, y, r.value.0, items, s);
        }
      }
    }
  }

  lemma NoneTagged(f: Field)
    ensures EncodeTagged(f, []) == Some([])
  {
  }

  lemma FirstTerminated(f: Field, items: seq<Datum>)
    requires items != [] && forall k | 0 <= k < |items| :: Fits(f, items[k])
    ensures AllTerminated(f, items) <==> Terminated(f, items[0]) && AllTerminated(f, items[1..])
  {
    hide Terminated, Fits;
    forall k | 0 < k < |items| ensures items[k] == items[1..][k - 1] {
    }
  }

  lemma TaggedSplits(f: Field, items: seq<Datum>)
    requires items != [] && forall k | 0 <= k < |items| :: Fits(f, items[k])
    requires EncodeTagged(f, items).Some?
    ensures EncodeItem(f, items[0]).Some? && EncodeTagged(f, items[1..]).Some?
    ensures EncodeTagged(f, items).value
         == TagBytes(f.tag, WireOf(f.kind)) + (EncodeItem(f, items[0]).value + EncodeTagged(f, items[1..]).value)
    ensures |EncodeTagged(f, items).value| > |EncodeItem(f, items[0]).value| + |EncodeTagged(f, items[1..]).value|
  {
    hide EncodeItem, Fits;
  }

  lemma ArraySaysSame(f: Field, s: Slot, x: Slot)
    requires FitsSlot(f, s) && FitsSlot(f, x) && f.rule.REPEATED? && s.size == x.size <= f.arraySize
    requires SaysFrom(f, s.items, 0, x.items[..x.size])
    ensures SaysSame(f, s, x)
  {
    hide ItemOf, Valid, Fits;
    assert Present(f, s) == s.items[..s.size] && Present(f, x) == x.items[..x.size];
    forall k | 0 <= k < s.size
      ensures Present(f, s)[k] == s.items[k] && ItemOf(f, s.items[k]) == ItemOf(f, Present(f, x)[k]) && Valid(f, s.items[k])
    {
      assert x.items[..x.size][k - 0] == x.items[k];
    }
  }

  /** The whole array over an empty one, packed. */
  lemma PackedSaysSame(f: Field, y: Slot, x: Slot)
    requires FitsSlot(f, y) && FitsSlot(f, x) && f.rule.REPEATED? && Packable(f.kind)
    requires y.size == 0 && x.size <= f.arraySize
    ensures FitsSlot(f, Appended(y, x.items[..x.size])) && SaysSame(f, Appended(y, x.items[..x.size]), x)
    ensures TerminatedSlot(f, x)
  {
    var items := x.items[..x.size];
    AppendedIs(y, items);
    var s := Appended(y, items);
    assert s.items[..x.size] == items;
    forall k | 0 <= k < |s.items| ensures Fits(f, s.items[k]) {
      assert s.items[k] == if k < x.size then x.items[k] else y.items[k];
    }
    forall k | 0 <= k < x.size ensures Terminated(f, x.items[k]) && Valid(f, x.items[k]) && s.items[k] == x.items[k] {
      NumbersOnly(f, x.items[k]);
    }
    hide ItemOf, Valid, Fits, Terminated;
    ArraySaysSame(f, s, x);
  }

  lemma PackedArrayReads(m: Message, d: seq<Slot>, seen: set<nat>, i: nat, y: Slot, items: seq<Datum>, rest: Bytes) returns (s: Slot)
    requires WellFormed(m) && FitsMessage(m, d) && i < |m.fields| && m.fields[i].rule.REPEATED? && Packable(m.fields[i].kind)
    requires WellFormedField(m.fields[i]) && FitsSlot(m.fields[i], y) && y.size + |items| <= m.fields[i].arraySize
    requires forall k | 0 <= k < |items| :: Fits(m.fields[i], items[k])
    requires EncodePacked(m.fields[i], items).Some? && |EncodePacked(m.fields[i], items).value| < Coding.LIMIT32
    ensures FitsSlot(m.fields[i], s) && s == Appended(y, items)
    ensures With(m, d, seen, i, y, WholePacked(m.fields[i], items) + rest) == With(m, d, seen, i, s, rest)
  {
    var f := m.fields[i];
    s := Appended(y, items);
    var data := EncodePacked(f, items).value;
    PackedReads(f, y, items);
    DelimitedRoundTrip(data, rest);
    hide With, SlotOf, WellFormed, WellFormedField, FitsMessage, Fits, EncodePacked, DecodePacked, Coding.LengthPrefixed, TagBytes, Delimited, Appended;
    var lp := Coding.LengthPrefixed(data);
    StepReads(m, d, seen, i, y, WT_STRING, lp + rest);
    assert TagBytes(f.tag, WT_STRING) + lp + rest == TagBytes(f.tag, WT_STRING) + (lp + rest);
    assert (lp + rest)[|lp|..] == rest;
  }

  /** Decoding an array, told of the whole message. */
  lemma ArrayLeads(m: Message, a: seq<Slot>, d: seq<Slot>, seen: set<nat>, i: nat, e: Bytes, rest: Bytes, s: Slot)
    requires WellFormed(m) && FitsMessage(m, a) && FitsMessage(m, d) && i < |m.fields| && m.fields[i].rule.REPEATED?
    requires FitsSlot(m.fields[i], d[SlotOf(m, i)]) && FitsSlot(m.fields[i], a[SlotOf(m, i)])
    requires TerminatedSlot(m.fields[i], a[SlotOf(m, i)]) ==> SaysSame(m.fields[i], s, a[SlotOf(m, i)])
    requires TerminatedSlot(m.fields[i], a[SlotOf(m, i)])
      ==> With(m, d, seen, i, d[SlotOf(m, i)], e + rest) == With(m, d, seen, i, s, rest)
    requires !TerminatedSlot(m.fields[i], a[SlotOf(m, i)]) ==> With(m, d, seen, i, d[SlotOf(m, i)], e + rest) == None
    ensures FieldReads(m, a, d, seen, i, e, rest, s)
  {
    Here(m, a, i);
    Here(m, d, i);
    hide SlotOf, WellFormed, FitsMessage, DecodeFields, FitsSlot, TerminatedSlot, ViewSlot, ValidSlot;
    assert d[SlotOf(m, i) := d[SlotOf(m, i)]] == d;
    if TerminatedSlot(m.fields[i], a[SlotOf(m, i)]) {
      StoreFits(m, d, i, s);
    }
  }

  lemma EmptyArray(m: Message, a: seq<Slot>, d: seq<Slot>, i: nat)
    requires WellFormed(m) && FitsMessage(m, a) && FitsMessage(m, d) && i < |m.fields| && m.fields[i].rule.REPEATED?
    requires Before(m, a, d, i)
    ensures WellFormedField(m.fields[i]) && SlotOf(m, i) < |a| && SlotOf(m, i) < |d|
    ensures FitsSlot(m.fields[i], d[SlotOf(m, i)]) && FitsSlot(m.fields[i], a[SlotOf(m, i)])
    ensures d[SlotOf(m, i)].size == 0
  {
    hide WellFormedField, Fits, SlotOf;
    Here(m, a, i);
    Here(m, d, i);
    StandsBefore(m, a, d, i);
  }

  lemma EmptyArrayReads(m: Message, a: seq<Slot>, d: seq<Slot>, seen: set<nat>, i: nat, rest: Bytes) returns (s: Slot)
    requires WellFormed(m) && FitsMessage(m, a) && FitsMessage(m, d) && i < |m.fields| && m.fields[i].rule.REPEATED?
    requires Before(m, a, d, i) && a[SlotOf(m, i)].size == 0
    ensures FieldReads(m, a, d, seen, i, [], rest, s)
  {
    hide *;
    EmptyArray(m, a, d, i);
    s := d[SlotOf(m, i)];
    EmptySaysSame(m.fields[i], s, a[SlotOf(m, i)]);
    assert [] + rest == rest;
    ArrayLeads(m, a, d, seen, i, [], rest, s);
  }

  lemma EmptySaysSame(f: Field, s: Slot, x: Slot)
    requires FitsSlot(f, s) && FitsSlot(f, x) && f.rule.REPEATED? && s.size == x.size == 0
    ensures SaysSame(f, s, x) && TerminatedSlot(f, x)
  {
    hide Fits;
  }

  lemma PackedFieldReads(m: Message, a: seq<Slot>, d: seq<Slot>, seen: set<nat>, i: nat, rest: Bytes) returns (s: Slot)
    requires WellFormed(m) && FitsMessage(m, a) && FitsMessage(m, d) && i < |m.fields| && m.fields[i].rule.REPEATED?
    requires Before(m, a, d, i) && 0 < a[SlotOf(m, i)].size <= m.fields[i].arraySize && Packable(m.fields[i].kind)
    requires EncodeField(m.fields[i], a[SlotOf(m, i)]).Some? && |EncodeField(m.fields[i], a[SlotOf(m, i)]).value| < Coding.LIMIT32
    ensures FieldReads(m, a, d, seen, i, EncodeField(m.fields[i], a[SlotOf(m, i)]).value, rest, s)
  {
    hide *;
    EmptyArray(m, a, d, i);
    var f, x, y := m.fields[i], a[SlotOf(m, i)], d[SlotOf(m, i)];
    ArrayForm(f, x);
    s := PackedArrayReads(m, d, seen, i, y, x.items[..x.size], rest);
    PackedSaysSame(f, y, x);
    ArrayLeads(m, a, d, seen, i, EncodeField(f, x).value, rest, s);
  }

  /** A packed array with its tag and length. */
  ghost function WholePacked(f: Field, items: seq<Datum>): Bytes
    requires forall k | 0 <= k < |items| :: Fits(f, items[k])
    requires EncodePacked(f, items).Some?
  {
    TagBytes(f.tag, WT_STRING) + Coding.LengthPrefixed(EncodePacked(f, items).value)
  }

  /** How an array that is not empty is written. */
  lemma ArrayForm(f: Field, x: Slot)
    requires FitsSlot(f, x) && f.rule.REPEATED? && 0 < x.size && EncodeField(f, x).Some?
    ensures x.size <= f.arraySize == |x.items| && Present(f, x) == x.items[..x.size]
    ensures forall k | 0 <= k < x.size :: Fits(f, x.items[k])
    ensures !Packable(f.kind) ==> EncodeField(f, x) == EncodeTagged(f, x.items[..x.size])
    ensures Packable(f.kind) ==> EncodePacked(f, x.items[..x.size]).Some?
    ensures Packable(f.kind) ==> |EncodePacked(f, x.items[..x.size]).value| < |EncodeField(f, x).value|
    ensures Packable(f.kind) ==> EncodeField(f, x).value == WholePacked(f, x.items[..x.size])
  {
    hide Fits, EncodePacked, EncodeTagged;
  }

  lemma {:induction false} TaggedFieldReads(m: Message, a: seq<Slot>, d: seq<Slot>, seen: set<nat>, i: nat, rest: Bytes) returns (s: Slot)
    requires WellFormed(m) && FitsMessage(m, a) && FitsMessage(m, d) && i < |m.fields| && m.fields[i].rule.REPEATED?
    requires Before(m, a, d, i) && ValidSlot(m.fields[i], a[SlotOf(m, i)]) && 0 < a[SlotOf(m, i)].size && !Packable(m.fields[i].kind)
    requires EncodeField(m.fields[i], a[SlotOf(m, i)]).Some? && |EncodeField(m.fields[i], a[SlotOf(m, i)]).value| < Coding.LIMIT32
    ensures FieldReads(m, a, d, seen, i, EncodeField(m.fields[i], a[SlotOf(m, i)]).value, rest, s)
    decreases m.fields[i], 3
  {
    hide *;
    EmptyArray(m, a, d, i);
    var f, x, y := m.fields[i], a[SlotOf(m, i)], d[SlotOf(m, i)];
    ArrayForm(f, x);
    var items := x.items[..x.size];
    PresentValid(f, x, items);
    s := TaggedReads(m, d, seen, i, y, items, rest);
    ItemsLead(m, d, seen, i, y, items, EncodeField(f, x).value, rest, s, x);
    ArrayLeads(m, a, d, seen, i, EncodeField(f, x).value, rest, s);
  }

  lemma PresentValid(f: Field, x: Slot, items: seq<Datum>)
    requires FitsSlot(f, x) && ValidSlot(f, x) && items == Present(f, x)
    ensures forall k | 0 <= k < |items| :: Fits(f, items[k]) && Valid(f, items[k])
    ensures TerminatedSlot(f, x) <==> AllTerminated(f, items)
  {
    hide Fits, Valid, Terminated, Present;
  }

  lemma ItemsLead(m: Message, d: seq<Slot>, seen: set<nat>, i: nat, y: Slot, items: seq<Datum>, e: Bytes, rest: Bytes, s: Slot, x: Slot)
    requires WellFormed(m) && FitsMessage(m, d) && i < |m.fields| && m.fields[i].rule.REPEATED? && FitsSlot(m.fields[i], y)
    requires FitsSlot(m.fields[i], x) && y.size == 0 && x.size <= m.fields[i].arraySize == |x.items| && items == x.items[..x.size]
    requires forall k | 0 <= k < |items| :: Fits(m.fields[i], items[k])
    requires ItemsRead(m, d, seen, i, y, items, e, rest, s)
    ensures AllTerminated(m.fields[i], items) ==> SaysSame(m.fields[i], s, x)
    ensures AllTerminated(m.fields[i], items)
      ==> With(m, d, seen, i, y, e + rest) == With(m, d, seen, i, s, rest)
    ensures !AllTerminated(m.fields[i], items) ==> With(m, d, seen, i, y, e + rest) == None
  {
    hide With, Fits, Terminated, SaysFrom, SaysSame, WellFormed, FitsMessage;
    if AllTerminated(m.fields[i], items) {
      ArraySaysSame(m.fields[i], s, x);
    }
  }

  // ----- All fields -----

  /** A field that is not written stays as it was. */
  lemma AbsentReads(m: Message, a: seq<Slot>, d: seq<Slot>, seen: set<nat>, i: nat, rest: Bytes) returns (s: Slot)
    requires WellFormed(m) && FitsMessage(m, a) && FitsMessage(m, d) && i < |m.fields|
    requires !m.fields[i].rule.REPEATED? && !m.fields[i].rule.REQUIRED?
    requires Before(m, a, d, i) && Present(m.fields[i], a[SlotOf(m, i)]) == []
    ensures FieldReads(m, a, d, seen, i, [], rest, s)
  {
    Here(m, a, i);
    Here(m, d, i);
    StandsBefore(m, a, d, i);
    s := d[SlotOf(m, i)];
    hide FitsSlot, FreshSlot, Present, SaysSame, TerminatedSlot, FieldReads;
    AbsentSaysSame(m.fields[i], s, a[SlotOf(m, i)]);
    hide *;
    UnchangedReads(m, a, d, seen, i, rest);
  }

  lemma UnchangedReads(m: Message, a: seq<Slot>, d: seq<Slot>, seen: set<nat>, i: nat, rest: Bytes)
    requires WellFormed(m) && FitsMessage(m, a) && FitsMessage(m, d) && i < |m.fields| && !m.fields[i].rule.REQUIRED?
    requires SlotOf(m, i) < |a| && SlotOf(m, i) < |d|
    requires FitsSlot(m.fields[i], a[SlotOf(m, i)]) && TerminatedSlot(m.fields[i], a[SlotOf(m, i)])
    requires SaysSame(m.fields[i], d[SlotOf(m, i)], a[SlotOf(m, i)])
    ensures FieldReads(m, a, d, seen, i, [], rest, d[SlotOf(m, i)])
  {
    hide SlotOf, WellFormed, FitsMessage, FitsSlot, DecodeFields, SaysSame, TerminatedSlot;
    assert d[SlotOf(m, i) := d[SlotOf(m, i)]] == d && [] + rest == rest;
  }

  lemma AbsentSaysSame(f: Field, y: Slot, x: Slot)
    requires WellFormedField(f) && FitsSlot(f, y) && FitsSlot(f, x) && Present(f, x) == [] && !f.rule.REPEATED? && !f.rule.REQUIRED?
    requires if f.rule.ONEOF? then y.size != f.tag else FreshSlot(f, y)
    ensures SaysSame(f, y, x) && TerminatedSlot(f, x)
  {
    hide ItemOf, Valid, Fits, IsDefault, FreshItem, WellFormedField;
    if f.rule.SINGULAR? {
      FreshIsDefault(f, x.items[0], y.items[0]);
    }
  }

  /** How a field is written, by what is present in it. */
  lemma FieldForm(f: Field, x: Slot)
    requires FitsSlot(f, x) && EncodeField(f, x).Some?
    ensures f.rule.REPEATED? ==> x.size <= f.arraySize && (x.size == 0 ==> EncodeField(f, x) == Some([]))
    ensures !f.rule.REPEATED? && Present(f, x) == [] ==> EncodeField(f, x) == Some([]) && !f.rule.REQUIRED?
    ensures !f.rule.REPEATED? && Present(f, x) != [] ==>
      Present(f, x) == x.items && |x.items| == 1 && Fits(f, x.items[0]) && EncodeField(f, x) == EncodeOne(f, x.items[0])
  {
    hide Fits, IsDefault, EncodeOne, EncodePacked, EncodeTagged;
  }

  lemma {:induction false} FieldRead(m: Message, a: seq<Slot>, d: seq<Slot>, seen: set<nat>, i: nat, rest: Bytes) returns (s: Slot)
    requires WellFormed(m) && FitsMessage(m, a) && FitsMessage(m, d) && i < |m.fields|
    requires Before(m, a, d, i) && ValidSlot(m.fields[i], a[SlotOf(m, i)])
    requires EncodeField(m.fields[i], a[SlotOf(m, i)]).Some? && |EncodeField(m.fields[i], a[SlotOf(m, i)]).value| < Coding.LIMIT32
    ensures FieldReads(m, a, d, seen, i, EncodeField(m.fields[i], a[SlotOf(m, i)]).value, rest, s)
    decreases m.fields[i], 4
  {
    hide *;
    Here(m, a, i);
    var f, x := m.fields[i], a[SlotOf(m, i)];
    FieldForm(f, x);
    if f.rule.REPEATED? {
      if x.size == 0 {
        s := EmptyArrayReads(m, a, d, seen, i, rest);
      } else if Packable(f.kind) {
        s := PackedFieldReads(m, a, d, seen, i, rest);
      } else {
        s := TaggedFieldReads(m, a, d, seen, i, rest);
      }
    } else if Present(f, x) == [] {
      s := AbsentReads(m, a, d, seen, i, rest);
    } else {
      s := OneReads(m, a, d, seen, i, rest);
    }
  }

  lemma SeesMore(m: Message, seen: set<nat>, i: nat)
    requires i < |m.fields| && SeenUpTo(m, seen, i)
    ensures SeenUpTo(m, SeenWith(m, seen, i), i + 1)
  {
  }

  lemma NothingLeft(m: Message, a: seq<Slot>, d: seq<Slot>, seen: set<nat>)
    requires WellFormed(m) && FitsMessage(m, a) && FitsMessage(m, d)
    requires Before(m, a, d, |m.fields|) && SeenUpTo(m, seen, |m.fields|)
    ensures EncodeFrom(m, a, |m.fields|) == Some([])
    ensures FieldsSaySame(m, a, |m.fields|, DecodeFields(m, d, seen, []))
  {
    hide SaysSame, UnionSound, Awaits, TerminatedSlot;
  }

  /** Field i first, then the others. */
  lemma FieldsSplit(m: Message, a: seq<Slot>, i: nat)
    requires FitsMessage(m, a) && i < |m.fields| && EncodeFrom(m, a, i).Some?
    ensures SlotOf(m, i) < |a| && FitsSlot(m.fields[i], a[SlotOf(m, i)])
    ensures EncodeField(m.fields[i], a[SlotOf(m, i)]).Some? && EncodeFrom(m, a, i + 1).Some?
    ensures EncodeFrom(m, a, i).value == EncodeField(m.fields[i], a[SlotOf(m, i)]).value + EncodeFrom(m, a, i + 1).value
    ensures TerminatedFrom(m, a, i) <==> TerminatedSlot(m.fields[i], a[SlotOf(m, i)]) && TerminatedFrom(m, a, i + 1)
    ensures ValidMessage(m, a) ==> ValidSlot(m.fields[i], a[SlotOf(m, i)])
  {
    hide EncodeField, TerminatedSlot, ValidSlot, FitsSlot, SlotOf, UnionSound;
  }

  lemma {:induction false} FieldsRead(m: Message, a: seq<Slot>, d: seq<Slot>, i: nat, seen: set<nat>)
    requires WellFormed(m) && FitsMessage(m, a) && FitsMessage(m, d) && ValidMessage(m, a) && i <= |m.fields|
    requires EncodeFrom(m, a, i).Some? && |EncodeFrom(m, a, i).value| < Coding.LIMIT32
    requires Before(m, a, d, i) && SeenUpTo(m, seen, i)
    ensures FieldsSaySame(m, a, i, DecodeFields(m, d, seen, EncodeFrom(m, a, i).value))
    decreases m, |m.fields| - i
  {
    hide *;
    if i == |m.fields| {
      NothingLeft(m, a, d, seen);
    } else {
      FieldsSplit(m, a, i);
      Here(m, d, i);
      var e, rest := EncodeField(m.fields[i], a[SlotOf(m, i)]).value, EncodeFrom(m, a, i + 1).value;
      var s := FieldRead(m, a, d, seen, i, rest);
      FieldReadLeads(m, a, d, seen, i, e, rest, s);
      if TerminatedSlot(m.fields[i], a[SlotOf(m, i)]) {
        Stored(m, a, d, i, s);
        SeesMore(m, seen, i);
        FieldsRead(m, a, d[SlotOf(m, i) := s], i + 1, SeenWith(m, seen, i));
        SameFrom(m, a, i, DecodeFields(m, d, seen, e + rest));
      } else {
        NotTerminated(m, a, i);
      }
    }
  }

  lemma FieldReadLeads(m: Message, a: seq<Slot>, d: seq<Slot>, seen: set<nat>, i: nat, e: Bytes, rest: Bytes, s: Slot)
    requires WellFormed(m) && FitsMessage(m, a) && FitsMessage(m, d) && i < |m.fields| && SlotOf(m, i) < |a| && SlotOf(m, i) < |d|
    requires FitsSlot(m.fields[i], a[SlotOf(m, i)]) && FieldReads(m, a, d, seen, i, e, rest, s)
    ensures if TerminatedSlot(m.fields[i], a[SlotOf(m, i)]) then
        Leaves(m, a, d, i, s) && FitsMessage(m, d[SlotOf(m, i) := s])
        && DecodeFields(m, d, seen, e + rest) == DecodeFields(m, d[SlotOf(m, i) := s], SeenWith(m, seen, i), rest)
      else DecodeFields(m, d, seen, e + rest) == None
  {
  }

  lemma SameFrom(m: Message, a: seq<Slot>, i: nat, r: Option<seq<Slot>>)
    requires FitsMessage(m, a) && (r.Some? ==> FitsMessage(m, r.value)) && i < |m.fields|
    requires FieldsSaySame(m, a, i + 1, r)
    requires TerminatedFrom(m, a, i) <==> TerminatedFrom(m, a, i + 1)
    ensures FieldsSaySame(m, a, i, r)
  {
  }

  lemma NotTerminated(m: Message, a: seq<Slot>, i: nat)
    requires FitsMessage(m, a) && i <= |m.fields| && !TerminatedFrom(m, a, i)
    ensures FieldsSaySame(m, a, i, None)
  {
  }

  // ----- The theorems -----

  /** pb_decode of what pb_encode wrote, over any structure: it succeeds exactly
      when every string present is terminated, and then says the same. */
  lemma RoundTrip(m: Message, a: seq<Slot>, d: seq<Slot>)
    requires WellFormed(m) && FitsMessage(m, a) && FitsMessage(m, d) && ValidMessage(m, a)
    requires EncodeMessage(m, a).Some? && |EncodeMessage(m, a).value| < Coding.LIMIT32
    ensures var r := DecodeMessage(m, d, EncodeMessage(m, a).value);
      && (r.Some? <==> TerminatedFrom(m, a, 0))
      && (r.Some? ==> ViewMessage(m, r.value) == ViewMessage(m, a))
  {
    hide EncodeFrom, DecodeFields, TerminatedFrom, ViewMessage, ValidMessage, FreshMessage, SetDefaultsFrom, FitsMessage, WellFormed;
    MessageDefaultsAreFresh(m, d);
    MessageReads(m, a, SetDefaultsFrom(m, d, 0));
  }

  /** A string that fills its buffer is encoded and then refused. */
  lemma UnterminatedIsRefused() returns (m: Message, a: seq<Slot>)
    ensures WellFormed(m) && FitsMessage(m, a) && ValidMessage(m, a) && EncodeMessage(m, a).Some?
    ensures DecodeMessage(m, a, EncodeMessage(m, a).value) == None
  {
    var f := Field(1, STRING, REQUIRED, false, 1, 0, Message([]), None);
    m := Message([f]);
    a := [Slot(0, [Chars([65])])];
    OneField(m, a, f);
    assert UpToNul([65]) == [65] by { assert [65][1..] == []; }
    assert EncodeMessage(m, a).Some? && |EncodeMessage(m, a).value| < Coding.LIMIT32 by {
      Coding.VarintLength(1, 1);
      Coding.VarintLength(10, 1);
    }
    hide EncodeFrom, DecodeFields, Fits, FitsSlot, ValidSlot, WellFormedField;
    RoundTrip(m, a, a);
  }

  lemma {:induction false} OneField(m: Message, a: seq<Slot>, f: Field)
    requires m == Message([f]) && f.rule.REQUIRED? && f.kind.STRING? && |a| == 1
    requires WellFormedField(f) && FitsSlot(f, a[0])
    ensures WellFormed(m) && FitsMessage(m, a) && ValidMessage(m, a)
    ensures EncodeMessage(m, a) == EncodeOne(f, a[0].items[0])
    ensures TerminatedFrom(m, a, 0) <==> Terminated(f, a[0].items[0])
  {
    assert m.fields[0] == f && SlotOf(m, 0) == 0 && SlotCount(m) == 1;
    assert FitsMessage(m, a);
    assert EncodeFrom(m, a, 1) == Some([]);
    assert EncodeFrom(m, a, 0) == Then(EncodeField(f, a[0]), EncodeFrom(m, a, 1));
    assert EncodeField(f, a[0]) == EncodeOne(f, a[0].items[0]);
    ThenUnit(EncodeOne(f, a[0].items[0]));
    assert TerminatedSlot(f, a[0]) <==> Terminated(f, Present(f, a[0])[0]);
  }

  /** The decoder makes the same of an array whether it is packed or not. */
  lemma UnpackedLikePacked(m: Message, d: seq<Slot>, seen: set<nat>, i: nat, items: seq<Datum>, rest: Bytes)
    requires WellFormed(m) && FitsMessage(m, d) && i < |m.fields| && m.fields[i].rule.REPEATED? && Packable(m.fields[i].kind)
    requires forall k | 0 <= k < |items| :: Fits(m.fields[i], items[k])
    requires d[SlotOf(m, i)].size + |items| <= m.fields[i].arraySize
    requires EncodePacked(m.fields[i], items).Some? && |EncodePacked(m.fields[i], items).value| < Coding.LIMIT32
    requires EncodeTagged(m.fields[i], items).Some? && |EncodeTagged(m.fields[i], items).value| < Coding.LIMIT32
    ensures DecodeFields(m, d, seen, EncodeTagged(m.fields[i], items).value + rest)
         == DecodeFields(m, d, seen, WholePacked(m.fields[i], items) + rest)
  {
    Here(m, d, i);
    var f, at, y := m.fields[i], SlotOf(m, i), d[SlotOf(m, i)];
    forall k | 0 <= k < |items| ensures Terminated(f, items[k]) && Valid(f, items[k]) {
      NumbersOnly(f, items[k]);
    }
    assert |y.items| == f.arraySize;
    hide Fits, Terminated, Valid, ItemOf, WellFormed, WellFormedField, FitsMessage, DecodeFields, SlotOf, EncodePacked, EncodeTagged, TagBytes, Coding.LengthPrefixed;
    var s := PackedArrayReads(m, d, seen, i, y, items, rest);
    var t := TaggedReads(m, d, seen, i, y, items, rest);
    ContinuesByAppending(f, y, items, t);
    assert d[at := y] == d;
  }

  lemma ContinuesByAppending(f: Field, y: Slot, items: seq<Datum>, t: Slot)
    requires forall k | 0 <= k < |items| :: Fits(f, items[k])
    requires Packable(f.kind) && Continues(f, y, items, t) && y.size + |items| <= |y.items|
    ensures t == Appended(y, items)
  {
    hide Fits, ItemOf, Valid;
    AppendedIs(y, items);
    var middle := t.items[y.size..t.size];
    assert middle == items by {
      forall k | 0 <= k < |items| ensures middle[k] == items[k] {
        assert middle[k] == t.items[y.size + k] && items[y.size + k - y.size] == items[k];
        SameNumber(f, t.items[y.size + k], items[k]);
      }
    }
    hide SaysFrom, Appended;
    assert t.items == t.items[..y.size] + middle + t.items[t.size..];
    assert t.items[..y.size] == y.items[..y.size] && t.items[t.size..] == y.items[t.size..];
  }

  lemma SameNumber(f: Field, v: Datum, w: Datum)
    requires Packable(f.kind) && Fits(f, v) && Fits(f, w) && ItemOf(f, v) == ItemOf(f, w)
    ensures v == w
  {
  }

  // ----- Required fields -----

  /** The fields of m whose tags are read while s is decoded. */
  ghost function FieldsMet(m: Message, slots: seq<Slot>, s: Bytes): set<nat>
    requires WellFormed(m) && FitsMessage(m, slots)
    decreases |s|
  {
    if s == [] || Varint32(s).None? || Varint32(s).value.0 == 0 then {}
    else
      var key := Varint32(s).value;
      var body, wire, i := s[key.1..], key.0 % 8, IndexOf(m, key.0 / 8);
      if i.None? then
        var n := SkippedField(wire, body);
        if n.None? then {} else FieldsMet(m, slots, body[n.value..])
      else
        var at := SlotOf(m, i.value);
        var r := DecodeField(m.fields[i.value], slots[at], wire, body);
        if r.None? then {i.value}
        else
          StoreFits(m, slots, i.value, r.value.0);
          {i.value} + FieldsMet(m, slots[at := r.value.0], body[r.value.1..])
  }

  /** A decode that succeeds has met each of the first 64 required fields, on
      any input at all. */
  lemma {:induction false} RequiredWereMet(m: Message, slots: seq<Slot>, seen: set<nat>, s: Bytes)
    requires WellFormed(m) && FitsMessage(m, slots) && DecodeFields(m, slots, seen, s).Some?
    ensures forall j | 0 <= j < |m.fields| && m.fields[j].rule.REQUIRED? && RequiredBefore(m, j) < MAX_REQUIRED_FIELDS ::
      RequiredBefore(m, j) in seen || j in FieldsMet(m, slots, s)
    decreases |s|
  {
    if s == [] || Varint32(s).value.0 == 0 {
      RequiredAreCounted(m);
    } else {
      var key := Varint32(s).value;
      var body, wire, i := s[key.1..], key.0 % 8, IndexOf(m, key.0 / 8);
      hide *;
      if i.None? {
        SkippedMet(m, slots, seen, s);
        RequiredWereMet(m, slots, seen, body[SkippedField(wire, body).value..]);
      } else {
        var next := FieldMet(m, slots, seen, s, i.value);
        var n := DecodeField(m.fields[i.value], slots[SlotOf(m, i.value)], wire, body).value.1;
        RequiredWereMet(m, next, SeenWith(m, seen, i.value), body[n..]);
        SeenOrMet(m, seen, i.value, FieldsMet(m, next, body[n..]));
      }
    }
  }

  lemma SkippedMet(m: Message, slots: seq<Slot>, seen: set<nat>, s: Bytes)
    requires WellFormed(m) && FitsMessage(m, slots) && DecodeFields(m, slots, seen, s).Some?
    requires s != [] && Varint32(s).Some? && Varint32(s).value.0 != 0 && IndexOf(m, Varint32(s).value.0 / 8).None?
    ensures var key := Varint32(s).value;
      var body := s[key.1..];
      var n := SkippedField(key.0 % 8, body);
      n.Some? && FieldsMet(m, slots, s) == FieldsMet(m, slots, body[n.value..])
      && DecodeFields(m, slots, seen, body[n.value..]).Some?
  {
    hide Varint32, SkippedField, WellFormed, FitsMessage, Complete;
  }

  lemma FieldMet(m: Message, slots: seq<Slot>, seen: set<nat>, s: Bytes, i: nat) returns (next: seq<Slot>)
    requires WellFormed(m) && FitsMessage(m, slots) && DecodeFields(m, slots, seen, s).Some?
    requires s != [] && Varint32(s).Some? && Varint32(s).value.0 != 0 && IndexOf(m, Varint32(s).value.0 / 8) == Some(i)
    ensures SlotOf(m, i) < |slots| && WellFormedField(m.fields[i]) && FitsSlot(m.fields[i], slots[SlotOf(m, i)])
    ensures FitsMessage(m, next)
    ensures var key := Varint32(s).value;
      var body := s[key.1..];
      var r := DecodeField(m.fields[i], slots[SlotOf(m, i)], key.0 % 8, body);
      r.Some? && FieldsMet(m, slots, s) == {i} + FieldsMet(m, next, body[r.value.1..])
      && DecodeFields(m, next, SeenWith(m, seen, i), body[r.value.1..]).Some?
  {
    Here(m, slots, i);
    hide Varint32, WellFormed, FitsMessage, WellFormedField, FitsSlot, SlotOf, Complete, DecodeField;
    var key := Varint32(s).value;
    var r := DecodeField(m.fields[i], slots[SlotOf(m, i)], key.0 % 8, s[key.1..]);
    assert r.Some?;
    StoreFits(m, slots, i, r.value.0);
    next := slots[SlotOf(m, i) := r.value.0];
  }

  lemma SeenOrMet(m: Message, seen: set<nat>, i: nat, others: set<nat>)
    requires i < |m.fields|
    requires forall j | 0 <= j < |m.fields| && m.fields[j].rule.REQUIRED? && RequiredBefore(m, j) < MAX_REQUIRED_FIELDS ::
      RequiredBefore(m, j) in SeenWith(m, seen, i) || j in others
    ensures forall j | 0 <= j < |m.fields| && m.fields[j].rule.REQUIRED? && RequiredBefore(m, j) < MAX_REQUIRED_FIELDS ::
      RequiredBefore(m, j) in seen || j in {i} + others
  {
    RequiredInOrder(m);
    hide RequiredBefore;
  }

  lemma RequiredAreCounted(m: Message)
    ensures forall j | 0 <= j < |m.fields| && m.fields[j].rule.REQUIRED? :: RequiredBefore(m, j) < RequiredCount(m)
  {
    forall j | 0 <= j < |m.fields| && m.fields[j].rule.REQUIRED?
      ensures RequiredBefore(m, j) < RequiredCount(m)
    {
      RequiredAscend(m, j + 1, |m.fields|);
    }
  }

  lemma RequiredInOrder(m: Message)
    ensures forall i, j | 0 <= i < j < |m.fields| && m.fields[i].rule.REQUIRED? :: RequiredBefore(m, i) < RequiredBefore(m, j)
  {
    forall i, j | 0 <= i < j < |m.fields| && m.fields[i].rule.REQUIRED?
      ensures RequiredBefore(m, i) < RequiredBefore(m, j)
    {
      RequiredAscend(m, i + 1, j);
    }
  }
}
