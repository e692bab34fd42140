/** nanopb's default values: whatever a decoder reads, a field that the input
    leaves out has its default value. */
module PbDefaults {
  import opened DbFormat
  import opened PbFields
  import opened PbDecode
  import opened PbView
  import PbWire

  /** Optional fields that are not there, at any depth, have their defaults. */
  ghost predicate Filled(f: Field, v: Datum)
    requires Fits(f, v)
    decreases f, 0
  {
    f.kind.SUBMESSAGE? ==> FilledMessage(f.message, v.slots)
  }

  ghost predicate FilledSlot(f: Field, s: Slot)
    requires FitsSlot(f, s)
    decreases f, 1
  {
    match f.rule
    case OPTIONAL => Filled(f, s.items[0]) && (s.size == 0 ==> FreshItem(f, s.items[0]))
    case REPEATED => forall k | 0 <= k < |s.items| && k < s.size :: Filled(f, s.items[k])
    case ONEOF => s.size == f.tag ==> Filled(f, s.items[0])
    case _ => Filled(f, s.items[0])
  }

  ghost predicate FilledMessage(m: Message, slots: seq<Slot>)
    requires FitsMessage(m, slots)
    decreases m, 0
  {
    forall i | 0 <= i < |m.fields| :: FilledSlot(m.fields[i], slots[SlotOf(m, i)])
  }

  // ----- Defaults are filled -----

  lemma {:induction false} FreshIsFilled(f: Field, v: Datum)
    requires WellFormedField(f) && Fits(f, v) && FreshItem(f, v)
    ensures Filled(f, v)
    decreases f, 0
  {
    if f.kind.SUBMESSAGE? {
      FreshMessageIsFilled(f.message, v.slots);
    }
  }

  lemma {:induction false} FreshMessageIsFilled(m: Message, slots: seq<Slot>)
    requires WellFormed(m) && FitsMessage(m, slots) && FreshMessage(m, slots)
    ensures FilledMessage(m, slots)
    decreases m, 0
  {
    forall i | 0 <= i < |m.fields|
      ensures FilledSlot(m.fields[i], slots[SlotOf(m, i)])
    {
      var f, s := m.fields[i], slots[SlotOf(m, i)];
      assert FitsSlot(f, s) && FreshSlot(f, s) && WellFormedField(f);
      hide FitsMessage, FreshMessage, WellFormed, SlotOf;
      if !f.rule.REPEATED? && !f.rule.ONEOF? {
        FreshIsFilled(f, s.items[0]);
      }
    }
  }

  lemma DefaultsAreFilled(m: Message, slots: seq<Slot>)
    requires WellFormed(m) && FitsMessage(m, slots)
    ensures FilledMessage(m, SetDefaultsFrom(m, slots, 0))
  {
    hide *;
    MessageDefaultsAreFresh(m, slots);
    FreshMessageIsFilled(m, SetDefaultsFrom(m, slots, 0));
  }

  // ----- Decoding keeps it -----

  lemma {:induction false} ItemKeeps(f: Field, v: Datum, s: Bytes)
    requires WellFormedField(f) && Fits(f, v) && DecodeItem(f, v, s).Some?
    requires !f.rule.REPEATED? ==> Filled(f, v)
    ensures Filled(f, DecodeItem(f, v, s).value.0)
    decreases f, 0
  {
    if f.kind.SUBMESSAGE? {
      var d := PbWire.Delimited(s);
      var m := f.message;
      var start := if f.rule.REPEATED? then SetDefaultsFrom(m, v.slots, 0) else v.slots;
      assert DecodeItem(f, v, s).value.0 == Struct(DecodeFields(m, start, {}, d.value.0).value);
      hide *;
      if f.rule.REPEATED? {
        DefaultsAreFilled(m, v.slots);
      }
      FieldsKeep(m, start, {}, d.value.0);
    }
  }

  lemma {:induction false} PackedKeeps(f: Field, slot: Slot, s: Bytes)
    requires WellFormedField(f) && f.rule.REPEATED? && !f.kind.SUBMESSAGE? && FitsSlot(f, slot)
    requires DecodePacked(f, slot, s).Some?
    ensures FilledSlot(f, DecodePacked(f, slot, s).value)
  {
  }

  lemma {:induction false} FieldKeeps(f: Field, slot: Slot, wire: nat, s: Bytes)
    requires WellFormedField(f) && FitsSlot(f, slot) && FilledSlot(f, slot) && DecodeField(f, slot, wire, s).Some?
    ensures FilledSlot(f, DecodeField(f, slot, wire, s).value.0)
    decreases f, 2
  {
    hide Filled, FreshItem, DecodeItem;
    if f.rule.REPEATED? {
      if wire == 2 && Packable(f.kind) {
        PackedKeeps(f, slot, PbWire.Delimited(s).value.0);
      } else {
        ItemKeeps(f, slot.items[slot.size], s);
      }
    } else {
      var before := if f.rule.ONEOF? then UnionBefore(f, slot) else slot.items[0];
      BeforeIsFilled(f, slot);
      ItemKeeps(f, before, s);
    }
  }

  lemma BeforeIsFilled(f: Field, slot: Slot)
    requires WellFormedField(f) && FitsSlot(f, slot) && FilledSlot(f, slot) && !f.rule.REPEATED?
    ensures f.rule.ONEOF? ==> Filled(f, UnionBefore(f, slot))
    ensures !f.rule.ONEOF? ==> Filled(f, slot.items[0])
  {
    if f.kind.SUBMESSAGE? && f.rule.ONEOF? {
      DefaultsAreFilled(f.message, ZeroMessage(f.message));
    }
  }

  lemma StoreKeeps(m: Message, slots: seq<Slot>, i: nat, s: Slot)
    requires WellFormed(m) && FitsMessage(m, slots) && FilledMessage(m, slots) && i < |m.fields|
    requires FitsSlot(m.fields[i], s) && FilledSlot(m.fields[i], s) && (m.fields[i].rule.ONEOF? ==> s.size == m.fields[i].tag)
    requires FitsMessage(m, slots[SlotOf(m, i) := s])
    ensures FilledMessage(m, slots[SlotOf(m, i) := s])
  {
    hide WellFormedField, FitsSlot, SlotOf, Filled, FreshItem;
    var at := SlotOf(m, i);
    forall j | 0 <= j < |m.fields|
      ensures FilledSlot(m.fields[j], slots[at := s][SlotOf(m, j)])
    {
      if j != i && SlotOf(m, j) == at {
        SharedSlot(m, if j < i then j else i, if j < i then i else j);
      }
    }
  }

  lemma {:induction false} FieldsKeep(m: Message, slots: seq<Slot>, seen: set<nat>, s: Bytes)
    requires WellFormed(m) && FitsMessage(m, slots) && FilledMessage(m, slots) && DecodeFields(m, slots, seen, s).Some?
    ensures FilledMessage(m, DecodeFields(m, slots, seen, s).value)
    decreases m, |s|, 0
  {
    hide WellFormed, FitsMessage, FilledMessage, DecodeKnown, Complete, PbWire.Varint32, PbWire.SkippedField;
    if s != [] && PbWire.Varint32(s).value.0 != 0 {
      var key := PbWire.Varint32(s).value;
      var body, i := s[key.1..], IndexOf(m, key.0 / 8);
      if i.None? {
        FieldsKeep(m, slots, seen, body[PbWire.SkippedField(key.0 % 8, body).value..]);
      } else {
        KnownKeeps(m, slots, seen, i.value, key.0 % 8, body);
      }
    }
  }

  lemma {:induction false} KnownKeeps(m: Message, slots: seq<Slot>, seen: set<nat>, i: nat, wire: nat, body: Bytes)
    requires WellFormed(m) && FitsMessage(m, slots) && FilledMessage(m, slots) && i < |m.fields|
    requires DecodeKnown(m, slots, seen, i, wire, body).Some?
    ensures FilledMessage(m, DecodeKnown(m, slots, seen, i, wire, body).value)
    decreases m, |body|, 1
  {
    var f, at := m.fields[i], SlotOf(m, i);
    var r := DecodeField(f, slots[at], wire, body).value;
    StoreFits(m, slots, i, r.0);
    var rest := DecodeFields(m, slots[at := r.0], SeenWith(m, seen, i), body[r.1..]);
    assert DecodeKnown(m, slots, seen, i, wire, body) == rest;
    assert FilledSlot(f, slots[at]);
    hide *;
    FieldKeeps(f, slots[at], wire, body);
    StoreKeeps(m, slots, i, r.0);
    FieldsKeep(m, slots[at := r.0], SeenWith(m, seen, i), body[r.1..]);
  }

  /** On any input that pb_decode accepts, an optional field that has_ says is
      not there holds its default value, in the message and in every message
      inside it. */
  lemma AbsentIsDefault(m: Message, slots: seq<Slot>, s: Bytes)
    requires WellFormed(m) && FitsMessage(m, slots) && DecodeMessage(m, slots, s).Some?
    ensures FilledMessage(m, DecodeMessage(m, slots, s).value)
  {
    var start := SetDefaultsFrom(m, slots, 0);
    assert DecodeMessage(m, slots, s) == DecodeFields(m, start, {}, s);
    hide *;
    DefaultsAreFilled(m, slots);
    FieldsKeep(m, start, {}, s);
  }
}
