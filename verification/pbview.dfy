/** What a nanopb message says: the items that are present in each field.  Two
    structures with the same view are the same message. */
module PbView {
  import opened DbFormat
  import opened PbFields
  import opened PbEncode
  import opened PbDecode

  datatype Item = Amount(n: int) | Text(bytes: Bytes) | Nested(fields: seq<seq<Item>>)

  /** The items of a field that the encoder looks at. */
  ghost function Present(f: Field, s: Slot): (r: seq<Datum>)
    requires FitsSlot(f, s)
    ensures forall k | 0 <= k < |r| :: Fits(f, r[k])
  {
    match f.rule
    case REQUIRED => s.items
    case OPTIONAL => if s.size != 0 then s.items else []
    case SINGULAR => if IsDefault(f, s.items[0]) then [] else s.items
    case REPEATED => if s.size <= f.arraySize then s.items[..s.size] else s.items
    case ONEOF => if s.size == f.tag then s.items else []
  }

  ghost function ItemOf(f: Field, v: Datum): Item
    requires Fits(f, v)
    decreases f, 0
  {
    match f.kind
    case BYTES => Text(if v.size <= |v.bytes| then v.bytes[..v.size] else v.bytes)
    case STRING => Text(UpToNul(v.chars))
    case FIXED_LENGTH_BYTES => Text(v.chars)
    case SUBMESSAGE => Nested(ViewMessage(f.message, v.slots))
    case _ => Amount(v.n)
  }

  ghost function ViewSlot(f: Field, s: Slot): seq<Item>
    requires FitsSlot(f, s)
    decreases f, 1
  {
    var present := Present(f, s);
    seq(|present|, k requires 0 <= k < |present| => ItemOf(f, present[k]))
  }

  ghost function ViewMessage(m: Message, slots: seq<Slot>): seq<seq<Item>>
    requires FitsMessage(m, slots)
    decreases m, 0
  {
    seq(|m.fields|, i requires 0 <= i < |m.fields| => ViewSlot(m.fields[i], slots[SlotOf(m, i)]))
  }

  // ----- Terminated strings -----

  /** Every string that is present has a NUL inside its buffer. */
  ghost predicate Terminated(f: Field, v: Datum)
    requires Fits(f, v)
    decreases f, 0
  {
    match f.kind
    case STRING => 0 in v.chars
    case SUBMESSAGE => TerminatedFrom(f.message, v.slots, 0)
    case _ => true
  }

  ghost predicate TerminatedSlot(f: Field, s: Slot)
    requires FitsSlot(f, s)
    decreases f, 1
  {
    forall k | 0 <= k < |Present(f, s)| :: Terminated(f, Present(f, s)[k])
  }

  ghost predicate TerminatedFrom(m: Message, slots: seq<Slot>, i: nat)
    requires FitsMessage(m, slots)
    decreases m, 0
  {
    forall j | i <= j < |m.fields| :: TerminatedSlot(m.fields[j], slots[SlotOf(m, j)])
  }

  // ----- Valid structures -----

  /** A union is empty or holds one of its own fields. */
  ghost predicate UnionSound(m: Message, slots: seq<Slot>, i: nat)
    requires FitsMessage(m, slots) && i < |m.fields|
  {
    var size := slots[SlotOf(m, i)].size;
    m.fields[i].rule.ONEOF? ==>
      size == 0 || (IndexOf(m, size).Some? && SlotOf(m, IndexOf(m, size).value) == SlotOf(m, i))
  }

  ghost predicate Valid(f: Field, v: Datum)
    requires Fits(f, v)
    decreases f, 0
  {
    && (f.kind.BYTES? ==> v.size <= |v.bytes|)
    && (f.kind.SUBMESSAGE? ==> ValidMessage(f.message, v.slots))
  }

  /** Counts within the array, and the items present valid. */
  ghost predicate ValidSlot(f: Field, s: Slot)
    requires FitsSlot(f, s)
    decreases f, 1
  {
    && (f.rule.REPEATED? ==> s.size <= f.arraySize)
    && forall k | 0 <= k < |Present(f, s)| :: Valid(f, Present(f, s)[k])
  }

  ghost predicate ValidMessage(m: Message, slots: seq<Slot>)
    requires FitsMessage(m, slots)
    decreases m, 0
  {
    && (forall i | 0 <= i < |m.fields| :: UnionSound(m, slots, i))
    && (forall i | 0 <= i < |m.fields| :: ValidSlot(m.fields[i], slots[SlotOf(m, i)]))
  }

  /** s, as decoded, says what a does. */
  ghost predicate SaysSame(f: Field, s: Slot, a: Slot) {
    FitsSlot(f, s) && FitsSlot(f, a) && ViewSlot(f, s) == ViewSlot(f, a) && ValidSlot(f, s)
  }

  // ----- proto3 defaults are seen in the view -----

  lemma ViewLength(f: Field, s: Slot, t: Slot)
    requires FitsSlot(f, s) && FitsSlot(f, t) && ViewSlot(f, s) == ViewSlot(f, t)
    ensures |Present(f, s)| == |Present(f, t)|
  {
    hide Present, ItemOf;
    assert |Present(f, s)| == |ViewSlot(f, s)| && |Present(f, t)| == |ViewSlot(f, t)|;
  }

  lemma DefaultBySlot(f: Field, s: Slot, t: Slot)
    requires FitsSlot(f, s) && FitsSlot(f, t) && ViewSlot(f, s) == ViewSlot(f, t) && ValidSlot(f, t) && !f.rule.ONEOF?
    requires IsDefaultSlot(f, s)
    ensures IsDefaultSlot(f, t)
  {
    hide ViewSlot, IsDefault, Valid, Fits;
    ViewLength(f, s, t);
  }

  lemma DefaultByUnion(m: Message, a: seq<Slot>, b: seq<Slot>, i: nat)
    requires WellFormed(m) && FitsMessage(m, a) && FitsMessage(m, b) && i < |m.fields| && UnionSound(m, b, i)
    requires forall j | 0 <= j < |m.fields| :: ViewSlot(m.fields[j], a[SlotOf(m, j)]) == ViewSlot(m.fields[j], b[SlotOf(m, j)])
    requires m.fields[i].rule.ONEOF? && a[SlotOf(m, i)].size == 0
    ensures b[SlotOf(m, i)].size == 0
  {
    hide ViewSlot, IsDefault, Valid, Fits, WellFormedField, SlotOf;
    var size := b[SlotOf(m, i)].size;
    if size != 0 {
      var k := IndexOf(m, size).value;
      assert SlotOf(m, k) == SlotOf(m, i) && m.fields[k].tag == size;
      if k != i {
        SharedSlot(m, if k < i then k else i, if k < i then i else k);
      }
      assert FitsSlot(m.fields[k], a[SlotOf(m, k)]) && FitsSlot(m.fields[k], b[SlotOf(m, k)]);
      ViewLength(m.fields[k], a[SlotOf(m, k)], b[SlotOf(m, k)]);
    }
  }

  /** Items that say the same are zero together. */
  lemma DefaultByView(f: Field, a: Datum, b: Datum)
    requires WellFormedField(f) && Fits(f, a) && Fits(f, b) && Valid(f, b) && ItemOf(f, a) == ItemOf(f, b)
    requires IsDefault(f, a)
    ensures IsDefault(f, b)
  {
    if f.kind.SUBMESSAGE? {
      DefaultMessageByView(f.message, a.slots, b.slots);
    } else if f.kind.STRING? {
      assert UpToNul(a.chars) == [] && UpToNul(b.chars) == [];
    }
  }

  lemma DefaultMessageByView(m: Message, a: seq<Slot>, b: seq<Slot>)
    requires WellFormed(m) && FitsMessage(m, a) && FitsMessage(m, b) && ValidMessage(m, b)
    requires ViewMessage(m, a) == ViewMessage(m, b) && IsDefaultMessage(m, a)
    ensures IsDefaultMessage(m, b)
  {
    ViewsAgree(m, a, b);
    hide ViewMessage, ViewSlot, ValidSlot, UnionSound, FitsSlot, SlotOf, WellFormed;
    forall i | 0 <= i < |m.fields|
      ensures IsDefaultSlot(m.fields[i], b[SlotOf(m, i)])
    {
      if m.fields[i].rule.ONEOF? {
        DefaultByUnion(m, a, b, i);
      } else {
        DefaultBySlot(m.fields[i], a[SlotOf(m, i)], b[SlotOf(m, i)]);
      }
    }
  }

  lemma ViewsAgree(m: Message, a: seq<Slot>, b: seq<Slot>)
    requires FitsMessage(m, a) && FitsMessage(m, b)
    ensures ViewMessage(m, a) == ViewMessage(m, b) <==>
      forall i | 0 <= i < |m.fields| :: ViewSlot(m.fields[i], a[SlotOf(m, i)]) == ViewSlot(m.fields[i], b[SlotOf(m, i)])
  {
    hide ViewSlot, SlotOf, FitsSlot;
    var x, y := ViewMessage(m, a), ViewMessage(m, b);
    if x == y {
      forall i | 0 <= i < |m.fields|
        ensures ViewSlot(m.fields[i], a[SlotOf(m, i)]) == ViewSlot(m.fields[i], b[SlotOf(m, i)])
      {
        assert x[i] == y[i];
      }
    }
  }

  // ----- Fresh structures -----

  predicate IsZero(v: Datum) {
    match v
    case Number(n) => n == 0
    case Counted(size, bytes) => size == 0 && forall k | 0 <= k < |bytes| :: bytes[k] == 0
    case Chars(chars) => forall k | 0 <= k < |chars| :: chars[k] == 0
    case Struct(_) => false
  }

  /** What decoding into this item starts from: the default value of the field,
      or zero. */
  ghost predicate FreshItem(f: Field, v: Datum)
    requires Fits(f, v)
    decreases f, 0
  {
    if f.kind.SUBMESSAGE? then FreshMessage(f.message, v.slots)
    else if f.initial.Some? then v == f.initial.value
    else IsZero(v)
  }

  ghost predicate FreshSlot(f: Field, s: Slot)
    requires FitsSlot(f, s)
    decreases f, 1
  {
    match f.rule
    case REPEATED => s.size == 0
    case ONEOF => s.size == 0
    case OPTIONAL => s.size == 0 && FreshItem(f, s.items[0])
    case _ => FreshItem(f, s.items[0])
  }

  ghost predicate FreshMessage(m: Message, slots: seq<Slot>)
    requires FitsMessage(m, slots)
    decreases m, 0
  {
    forall i | 0 <= i < |m.fields| :: FreshSlot(m.fields[i], slots[SlotOf(m, i)])
  }

  /** Where a field can be at its default at all, a fresh one is. */
  lemma {:induction false} FreshIsDefault(f: Field, a: Datum, v: Datum)
    requires WellFormedField(f) && Fits(f, a) && Fits(f, v) && IsDefault(f, a) && FreshItem(f, v) && (f.rule.SINGULAR? || f.kind.SUBMESSAGE?)
    ensures IsDefault(f, v)
    decreases f, 0
  {
    if f.kind.SUBMESSAGE? {
      var m := f.message;
      forall i | 0 <= i < |m.fields|
        ensures IsDefaultSlot(m.fields[i], v.slots[SlotOf(m, i)])
      {
        FreshSlotIsDefault(m.fields[i], a.slots[SlotOf(m, i)], v.slots[SlotOf(m, i)]);
      }
    }
  }

  lemma {:induction false} FreshSlotIsDefault(f: Field, a: Slot, s: Slot)
    requires WellFormedField(f) && FitsSlot(f, a) && FitsSlot(f, s) && IsDefaultSlot(f, a) && FreshSlot(f, s)
    ensures IsDefaultSlot(f, s)
    decreases f, 1
  {
    if f.rule.SINGULAR? {
      FreshIsDefault(f, a.items[0], s.items[0]);
    }
  }

  /** pb_message_set_to_defaults makes a message fresh. */
  lemma {:induction false} DefaultsAreFresh(m: Message, slots: seq<Slot>, i: nat)
    requires WellFormed(m) && FitsMessage(m, slots) && i <= |m.fields|
    requires forall j | 0 <= j < i :: FreshSlot(m.fields[j], slots[SlotOf(m, j)])
    ensures FreshMessage(m, SetDefaultsFrom(m, slots, i))
    decreases m, |m.fields| - i
  {
    hide *;
    if i == |m.fields| {
      NoDefaultsLeft(m, slots);
    } else {
      var s := DefaultStored(m, slots, i);
      DefaultsAreFresh(m, slots[SlotOf(m, i) := s], i + 1);
    }
  }

  lemma NoDefaultsLeft(m: Message, slots: seq<Slot>)
    requires WellFormed(m) && FitsMessage(m, slots)
    requires forall j | 0 <= j < |m.fields| :: FreshSlot(m.fields[j], slots[SlotOf(m, j)])
    ensures FreshMessage(m, SetDefaultsFrom(m, slots, |m.fields|))
  {
  }

  lemma DefaultStored(m: Message, slots: seq<Slot>, i: nat) returns (s: Slot)
    requires WellFormed(m) && FitsMessage(m, slots) && i < |m.fields|
    requires forall j | 0 <= j < i :: FreshSlot(m.fields[j], slots[SlotOf(m, j)])
    ensures SlotOf(m, i) < |slots| && FitsMessage(m, slots[SlotOf(m, i) := s])
    ensures SetDefaultsFrom(m, slots, i) == SetDefaultsFrom(m, slots[SlotOf(m, i) := s], i + 1)
    ensures forall j | 0 <= j < i + 1 :: FreshSlot(m.fields[j], slots[SlotOf(m, i) := s][SlotOf(m, j)])
    decreases m.fields[i], 2
  {
    s := DefaultSlot(m.fields[i], slots[SlotOf(m, i)]);
    DefaultIsFresh(m.fields[i], slots[SlotOf(m, i)]);
    hide FreshSlot, DefaultSlot, FitsSlot, WellFormedField;
    if m.fields[i].rule.ONEOF? {
      EmptyIsFresh(m.fields[i], s);
    }
    DefaultFits(m, slots, i, s);
    forall j | 0 <= j < i + 1
      ensures FreshSlot(m.fields[j], slots[SlotOf(m, i) := s][SlotOf(m, j)])
    {
      FreshWhenStored(m, slots, i, s, j);
    }
  }

  lemma FreshWhenStored(m: Message, slots: seq<Slot>, i: nat, s: Slot, j: nat)
    requires FitsMessage(m, slots) && j <= i < |m.fields| && FitsMessage(m, slots[SlotOf(m, i) := s])
    requires FitsSlot(m.fields[i], s) && FreshSlot(m.fields[i], s)
    requires j < i ==> FreshSlot(m.fields[j], slots[SlotOf(m, j)])
    ensures FreshSlot(m.fields[j], slots[SlotOf(m, i) := s][SlotOf(m, j)])
  {
    hide FitsSlot, FreshSlot, SlotOf;
    if j < i && SlotOf(m, j) == SlotOf(m, i) {
      SharedSlot(m, j, i);
      assert FitsSlot(m.fields[j], s);
      EmptyIsFresh(m.fields[j], s);
      EmptyIsFresh(m.fields[i], s);
    }
  }

  lemma EmptyIsFresh(f: Field, s: Slot)
    requires FitsSlot(f, s) && f.rule.ONEOF?
    ensures FreshSlot(f, s) <==> s.size == 0
  {
  }

  lemma {:induction false} DefaultIsFresh(f: Field, s: Slot)
    requires WellFormedField(f) && FitsSlot(f, s)
    ensures FreshSlot(f, DefaultSlot(f, s))
    decreases f, 1
  {
    if f.kind.SUBMESSAGE? && !f.rule.REPEATED? && !f.rule.ONEOF? {
      DefaultsAreFresh(f.message, s.items[0].slots, 0);
    }
  }

  lemma MessageDefaultsAreFresh(m: Message, slots: seq<Slot>)
    requires WellFormed(m) && FitsMessage(m, slots)
    ensures FreshMessage(m, SetDefaultsFrom(m, slots, 0))
  {
    DefaultsAreFresh(m, slots, 0);
  }
}
