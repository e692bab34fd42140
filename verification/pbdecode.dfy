/** nanopb's decoder (pb_decode.c): what a field's bytes store, the defaults a
    message starts from, and the loop over the fields of a message with its
    check for missing required fields. */
module PbDecode {
  import opened DbFormat
  import opened PbFields
  import opened PbWire
  import Coding

  // ----- Numbers -----

  function Modulus(dataSize: nat): (m: nat)
    requires IntegerSize(dataSize)
    ensures m > 0
  {
    if dataSize == 1 then 0x100 else if dataSize == 2 then 0x1_0000
    else if dataSize == 4 then Coding.LIMIT32 else Coding.LIMIT64
  }

  /** A cast to a signed type of that range. */
  function AsSigned(n: int, modulus: nat): int
    requires modulus > 0
  {
    var r := n % modulus;
    if r >= modulus / 2 then r - modulus else r
  }

  /** Cast to the size of the field; "integer too large" when that changes the
      number, "invalid data_size" when there is no such type. */
  function StoreSigned(n: int, dataSize: nat): (r: Option<int>)
    ensures r == if IntegerSize(dataSize) && SignedFits(n, dataSize) then Some(n) else None
  {
    if !IntegerSize(dataSize) then None
    else
      var clamped := AsSigned(n, Modulus(dataSize));
      if clamped != n then None else Some(clamped)
  }

  function StoreUnsigned(n: nat, dataSize: nat): (r: Option<int>)
    ensures r == if IntegerSize(dataSize) && UnsignedFits(n, dataSize) then Some(n) else None
  {
    if !IntegerSize(dataSize) then None
    else
      var clamped := n % Modulus(dataSize);
      if clamped != n then None else Some(clamped)
  }

  function UnZigZag(value: nat): int {
    if value % 2 == 1 then -(value / 2) - 1 else value / 2
  }

  /** What a decoded 64-bit varint stores in a field of each integer kind.  A
      short VARINT field looks at the low 32 bits only. */
  function StoreVarint(f: Field, value: nat): (r: Option<int>)
    requires f.kind.VARINT? || f.kind.UVARINT? || f.kind.SVARINT?
    ensures r.Some? ==> if f.kind.UVARINT? then UnsignedFits(r.value, f.dataSize) else SignedFits(r.value, f.dataSize)
  {
    match f.kind
    case VARINT => StoreSigned(AsSigned(value, if f.dataSize == 8 then Coding.LIMIT64 else Coding.LIMIT32), f.dataSize)
    case UVARINT => StoreUnsigned(value, f.dataSize)
    case SVARINT => StoreSigned(UnZigZag(value), f.dataSize)
  }

  // ----- Zeros and defaults -----

  function Zeros(n: nat): (r: Bytes)
    ensures |r| == n && forall k | 0 <= k < n :: r[k] == 0
  {
    seq(n, _ => 0)
  }

  /** memset to zero. */
  function Zero(f: Field): (v: Datum)
    requires WellFormedField(f)
    ensures Fits(f, v)
    decreases f, 0
  {
    match f.kind
    case BYTES => Counted(0, Zeros(f.dataSize - BYTES_HEADER))
    case STRING => Chars(Zeros(f.dataSize))
    case FIXED_LENGTH_BYTES => Chars(Zeros(f.dataSize))
    case SUBMESSAGE => Struct(ZeroMessage(f.message))
    case _ => Number(0)
  }

  function ZeroSlot(f: Field): (s: Slot)
    requires WellFormedField(f)
    ensures FitsSlot(f, s) && s.size == 0
    decreases f, 1
  {
    var v := Zero(f);
    Slot(0, if f.rule.REPEATED? then seq(f.arraySize, _ => v) else [v])
  }

  /** The slots of the first i fields. */
  function ZeroUpTo(m: Message, i: nat): (slots: seq<Slot>)
    requires WellFormed(m) && i <= |m.fields|
    ensures |slots| == if i == 0 then 0 else SlotOf(m, i - 1) + 1
    decreases m, i
  {
    if i == 0 then []
    else
      var before := ZeroUpTo(m, i - 1);
      if i - 1 > 0 && Joins(m, i - 1) then before else before + [ZeroSlot(m.fields[i - 1])]
  }

  function ZeroMessage(m: Message): (slots: seq<Slot>)
    requires WellFormed(m)
    ensures FitsMessage(m, slots)
    decreases m, |m.fields| + 2
  {
    ZeroFits(m);
    ZeroUpTo(m, |m.fields|)
  }

  lemma ZeroFits(m: Message)
    requires WellFormed(m)
    ensures FitsMessage(m, ZeroUpTo(m, |m.fields|))
    decreases m, |m.fields| + 1, 1
  {
    hide WellFormedField, FitsSlot, SlotOf;
    forall j | 0 <= j < |m.fields|
      ensures SlotOf(m, j) < SlotCount(m) && FitsSlot(m.fields[j], ZeroUpTo(m, |m.fields|)[SlotOf(m, j)])
    {
      SlotsAscend(m, j, j);
      ZeroFitsAt(m, |m.fields|, j);
    }
  }

  lemma {:induction false} ZeroFitsAt(m: Message, i: nat, j: nat)
    requires WellFormed(m) && j < i <= |m.fields|
    ensures SlotOf(m, j) < |ZeroUpTo(m, i)|
    ensures FitsSlot(m.fields[j], ZeroUpTo(m, i)[SlotOf(m, j)]) && ZeroUpTo(m, i)[SlotOf(m, j)].size == 0
    decreases m, i + 1, 0
  {
    hide WellFormedField, FitsSlot, ZeroSlot;
    if j < i - 1 {
      ZeroFitsAt(m, i - 1, j);
    } else if j > 0 && Joins(m, j) {
      ZeroFitsAt(m, j, j - 1);
      EmptyUnionFits(m.fields[j - 1], m.fields[j], ZeroUpTo(m, j)[SlotOf(m, j)]);
    }
  }

  /** An empty union suits every field of its oneof. */
  lemma EmptyUnionFits(f: Field, g: Field, s: Slot)
    requires FitsSlot(f, s) && s.size == 0 && f.rule.ONEOF? && g.rule.ONEOF? && WellFormedField(g)
    ensures FitsSlot(g, s)
  {
  }

  /** pb_field_set_to_default, on one item. */
  function DefaultItem(f: Field, v: Datum): (r: Datum)
    requires WellFormedField(f) && Fits(f, v)
    ensures Fits(f, r)
    decreases f, 0
  {
    if f.kind.SUBMESSAGE? then Struct(SetDefaultsFrom(f.message, v.slots, 0))
    else if f.initial.Some? then f.initial.value
    else Zero(f)
  }

  /** pb_field_set_to_default: arrays and unions are only marked empty. */
  function DefaultSlot(f: Field, s: Slot): (r: Slot)
    requires WellFormedField(f) && FitsSlot(f, s)
    ensures FitsSlot(f, r)
    decreases f, 1
  {
    match f.rule
    case OPTIONAL => Slot(0, [DefaultItem(f, s.items[0])])
    case REPEATED => Slot(0, s.items)
    case ONEOF => Slot(0, s.items)
    case _ => Slot(s.size, [DefaultItem(f, s.items[0])])
  }

  /** pb_message_set_to_defaults, from field i on. */
  function SetDefaultsFrom(m: Message, slots: seq<Slot>, i: nat): (r: seq<Slot>)
    requires WellFormed(m) && FitsMessage(m, slots) && i <= |m.fields|
    ensures FitsMessage(m, r)
    decreases m, |m.fields| - i
  {
    if i == |m.fields| then slots
    else
      var s := DefaultSlot(m.fields[i], slots[SlotOf(m, i)]);
      DefaultFits(m, slots, i, s);
      SetDefaultsFrom(m, slots[SlotOf(m, i) := s], i + 1)
  }

  lemma DefaultFits(m: Message, slots: seq<Slot>, i: nat, s: Slot)
    requires WellFormed(m) && FitsMessage(m, slots) && i < |m.fields| && FitsSlot(m.fields[i], s)
    requires s.size == 0 || !m.fields[i].rule.ONEOF?
    ensures FitsMessage(m, slots[SlotOf(m, i) := s])
  {
    hide SlotOf, FitsSlot, WellFormedField;
    var at := SlotOf(m, i);
    forall j | 0 <= j < |m.fields|
      ensures FitsSlot(m.fields[j], slots[at := s][SlotOf(m, j)])
    {
      if j != i && SlotOf(m, j) == at {
        SharedSlot(m, if j < i then j else i, if j < i then i else j);
        EmptyUnionFits(m.fields[i], m.fields[j], s);
      }
    }
  }

  lemma SetDefaultsStep(m: Message, slots: seq<Slot>, i: nat)
    requires WellFormed(m) && FitsMessage(m, slots) && i < |m.fields|
    ensures SlotOf(m, i) < |slots| && WellFormedField(m.fields[i]) && FitsSlot(m.fields[i], slots[SlotOf(m, i)])
    ensures var next := slots[SlotOf(m, i) := DefaultSlot(m.fields[i], slots[SlotOf(m, i)])];
      FitsMessage(m, next) && SetDefaultsFrom(m, slots, i) == SetDefaultsFrom(m, next, i + 1)
  {
    DefaultFits(m, slots, i, DefaultSlot(m.fields[i], slots[SlotOf(m, i)]));
  }

  lemma SetDefaultsEnds(m: Message, slots: seq<Slot>)
    requires WellFormed(m) && FitsMessage(m, slots)
    ensures SetDefaultsFrom(m, slots, |m.fields|) == slots
  {
  }

  // ----- One field -----

  /** One item, without its tag, over what was stored before.  None: the input
      ends, is malformed, or does not fit the field. */
  ghost function DecodeItem(f: Field, old_: Datum, s: Bytes): (r: Option<(Datum, nat)>)
    requires WellFormedField(f) && Fits(f, old_)
    ensures r.Some? ==> Fits(f, r.value.0) && 0 < r.value.1 <= |s|
    decreases f, 0
  {
    match f.kind
    case FIXED32 => if |s| < 4 then None else Some((Number(Coding.DecodeFixed32(s[..4])), 4))
    case FIXED64 => if |s| < 8 then None else Some((Number(Coding.DecodeFixed64(s[..8])), 8))
    case BYTES =>
      var d := Delimited(s);
      if d.None? || |d.value.0| + BYTES_HEADER > f.dataSize then None
      else Some((Counted(|d.value.0|, d.value.0 + old_.bytes[|d.value.0|..]), d.value.1))
    case STRING =>
      var d := Delimited(s);
      if d.None? || |d.value.0| + 1 > f.dataSize then None
      else Some((Chars(d.value.0 + [0] + old_.chars[|d.value.0| + 1..]), d.value.1))
    case FIXED_LENGTH_BYTES =>
      var d := Delimited(s);
      if d.None? then None
      else if d.value.0 == [] then Some((Chars(Zeros(f.dataSize)), d.value.1))
      else if |d.value.0| != f.dataSize then None
      else Some((Chars(d.value.0), d.value.1))
    case SUBMESSAGE =>
      var d := Delimited(s);
      if d.None? then None
      else
        // New array entries are initialized; the others have been already.
        var start := if f.rule.REPEATED? then SetDefaultsFrom(f.message, old_.slots, 0) else old_.slots;
        var r := DecodeFields(f.message, start, {}, d.value.0);
        if r.None? then None else Some((Struct(r.value), d.value.1))
    case _ =>
      var v := Varint64(s);
      if v.None? then None
      else
        var n := StoreVarint(f, v.value.0);
        if n.None? then None else Some((Number(n.value), v.value.1))
  }

  /** A packed array: items to the end of s, or "array overflow". */
  ghost function DecodePacked(f: Field, slot: Slot, s: Bytes): (r: Option<Slot>)
    requires WellFormedField(f) && f.rule.REPEATED? && FitsSlot(f, slot)
    ensures r.Some? ==> FitsSlot(f, r.value)
    decreases f, 1, |s|
  {
    if s == [] then Some(slot)
    else if slot.size >= f.arraySize then None
    else
      var r := DecodeItem(f, slot.items[slot.size], s);
      if r.None? then None
      else DecodePacked(f, Slot(slot.size + 1, slot.items[slot.size := r.value.0]), s[r.value.1..])
  }

  /** What a union holds before a submessage is decoded into it, and what it
      is taken to hold when its last field was another one. */
  function UnionBefore(f: Field, slot: Slot): (v: Datum)
    requires WellFormedField(f) && FitsSlot(f, slot) && f.rule.ONEOF?
    ensures Fits(f, v)
  {
    if f.kind.SUBMESSAGE? then Struct(SetDefaultsFrom(f.message, ZeroMessage(f.message), 0))
    else if slot.size == f.tag then slot.items[0]
    else Zero(f)
  }

  /** decode_static_field */
  ghost function DecodeField(f: Field, slot: Slot, wire: nat, s: Bytes): (r: Option<(Slot, nat)>)
    requires WellFormedField(f) && FitsSlot(f, slot)
    ensures r.Some? ==> FitsSlot(f, r.value.0) && 0 < r.value.1 <= |s|
    ensures r.Some? && f.rule.ONEOF? ==> r.value.0.size == f.tag
    decreases f, 2
  {
    if f.rule.REPEATED? then
      if wire == 2 && Packable(f.kind) then
        var d := Delimited(s);
        if d.None? then None
        else
          var r := DecodePacked(f, slot, d.value.0);
          if r.None? then None else Some((r.value, d.value.1))
      else if slot.size >= f.arraySize then None // array overflow
      else
        var r := DecodeItem(f, slot.items[slot.size], s);
        if r.None? then None
        else Some((Slot(slot.size + 1, slot.items[slot.size := r.value.0]), r.value.1))
    else
      var r := DecodeItem(f, if f.rule.ONEOF? then UnionBefore(f, slot) else slot.items[0], s);
      if r.None? then None
      else
        var size := if f.rule.OPTIONAL? then 1 else if f.rule.ONEOF? then f.tag else slot.size;
        Some((Slot(size, [r.value.0]), r.value.1))
  }

  // ----- A message -----

  /** pb_release_union_field finds the field the union held before. */
  predicate UnionReleases(m: Message, f: Field, slot: Slot) {
    f.rule.ONEOF? ==> slot.size == 0 || slot.size == f.tag || IndexOf(m, slot.size).Some?
  }

  function RequiredCount(m: Message): nat {
    RequiredBefore(m, |m.fields|)
  }

  /** Every required field among the first 64 is in `seen`. */
  ghost predicate Complete(m: Message, seen: set<nat>) {
    forall r | 0 <= r < RequiredCount(m) && r < MAX_REQUIRED_FIELDS :: r in seen
  }

  /** What is seen once field i has come. */
  function SeenWith(m: Message, seen: set<nat>, i: nat): set<nat>
    requires i < |m.fields|
  {
    if m.fields[i].rule.REQUIRED? && RequiredBefore(m, i) < MAX_REQUIRED_FIELDS then seen + {RequiredBefore(m, i)} else seen
  }

  /** pb_decode_noinit, with the required fields seen so far. */
  ghost function DecodeFields(m: Message, slots: seq<Slot>, seen: set<nat>, s: Bytes): (r: Option<seq<Slot>>)
    requires WellFormed(m) && FitsMessage(m, slots)
    ensures r.Some? ==> FitsMessage(m, r.value)
    decreases m, |s|, 0
  {
    if s == [] then (if Complete(m, seen) then Some(slots) else None)
    else
      var key := Varint32(s);
      if key.None? then None
      else if key.value.0 == 0 then (if Complete(m, seen) then Some(slots) else None) // 0-terminated
      else
        var body, wire, i := s[key.value.1..], key.value.0 % 8, IndexOf(m, key.value.0 / 8);
        if i.None? then
          // The terminator of an empty list matches tag 0 and refuses it.
          if m.fields == [] && key.value.0 / 8 == 0 then None
          else
            var n := SkippedField(wire, body);
            if n.None? then None else DecodeFields(m, slots, seen, body[n.value..])
        else DecodeKnown(m, slots, seen, i.value, wire, body)
  }

  /** The same, where the tag of field i has just been read. */
  ghost function DecodeKnown(m: Message, slots: seq<Slot>, seen: set<nat>, i: nat, wire: nat, body: Bytes): (r: Option<seq<Slot>>)
    requires WellFormed(m) && FitsMessage(m, slots) && i < |m.fields|
    ensures r.Some? ==> FitsMessage(m, r.value)
    decreases m, |body|, 1
  {
    var f, at := m.fields[i], SlotOf(m, i);
    if !UnionReleases(m, f, slots[at]) then None
    else
      var r := DecodeField(f, slots[at], wire, body);
      if r.None? then None
      else
        StoreFits(m, slots, i, r.value.0);
        DecodeFields(m, slots[at := r.value.0], SeenWith(m, seen, i), body[r.value.1..])
  }

  /** pb_decode */
  ghost function DecodeMessage(m: Message, slots: seq<Slot>, s: Bytes): (r: Option<seq<Slot>>)
    requires WellFormed(m) && FitsMessage(m, slots)
  {
    DecodeFields(m, SetDefaultsFrom(m, slots, 0), {}, s)
  }
}
