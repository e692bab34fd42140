/** nanopb's message descriptors, the values they describe, and the field
    iterator (pb.h, pb_common.c).

    A message structure is a sequence of slots, one for each data member: a
    required or optional field, an array with its count, or a union.  The
    fields of a oneof share one slot.  PB_FIELD_32BIT is defined, so tags,
    sizes and counts are 32-bit. */
module PbFields {
  import opened DbFormat

  const SIZE_LIMIT := 0x1_0000_0000
  // Field numbers keep clear of the three bits of the wire type.
  const TAG_LIMIT := 0x2000_0000
  const MAX_REQUIRED_FIELDS := 64
  // offsetof(pb_bytes_array_t, bytes)
  const BYTES_HEADER := 4

  // PB_LTYPE
  datatype Kind = VARINT | UVARINT | SVARINT | FIXED32 | FIXED64 | BYTES | STRING | SUBMESSAGE | FIXED_LENGTH_BYTES

  // PB_HTYPE; SINGULAR is OPTIONAL without a has_ member (size_offset 0).
  datatype Rule = REQUIRED | OPTIONAL | SINGULAR | REPEATED | ONEOF

  /** A pb_field_t.  `joins` is data_offset == PB_SIZE_MAX; `ptr` is `message`
      for a submessage and `initial` for any other kind. */
  datatype Field = Field(tag: nat, kind: Kind, rule: Rule, joins: bool, dataSize: nat, arraySize: nat,
                         message: Message, initial: Option<Datum>)

  datatype Message = Message(fields: seq<Field>)

  /** What one item of a field holds: a number of any width (the bits, for the
      fixed kinds), a pb_bytes_array_t, an array of characters or bytes, or a
      nested structure. */
  datatype Datum =
    | Number(n: int)
    | Counted(size: nat, bytes: Bytes)
    | Chars(chars: Bytes)
    | Struct(slots: seq<Slot>)

  /** `size` is the member before or after the data: has_ (0 or 1), the count
      of an array, or the tag that a union holds. */
  datatype Slot = Slot(size: nat, items: seq<Datum>)

  // The end of a field list: all zeros.
  const TERMINATOR := Field(0, VARINT, REQUIRED, false, 0, 0, Message([]), None)

  predicate Packable(kind: Kind) {
    kind.VARINT? || kind.UVARINT? || kind.SVARINT? || kind.FIXED32? || kind.FIXED64?
  }

  // ----- The slot of a field -----

  predicate Joins(m: Message, i: nat)
    requires 0 < i < |m.fields|
  {
    m.fields[i - 1].rule.ONEOF? && m.fields[i].rule.ONEOF? && m.fields[i].joins
  }

  function SlotOf(m: Message, i: nat): nat
    requires i < |m.fields|
  {
    if i == 0 then 0 else SlotOf(m, i - 1) + if Joins(m, i) then 0 else 1
  }

  function SlotCount(m: Message): nat {
    if m.fields == [] then 0 else SlotOf(m, |m.fields| - 1) + 1
  }

  function RequiredBefore(m: Message, i: nat): (r: nat)
    requires i <= |m.fields|
    ensures r <= i
  {
    if i == 0 then 0 else RequiredBefore(m, i - 1) + if m.fields[i - 1].rule.REQUIRED? then 1 else 0
  }

  lemma {:induction false} SlotsAscend(m: Message, i: nat, j: nat)
    requires i <= j < |m.fields|
    ensures SlotOf(m, i) <= SlotOf(m, j) < SlotCount(m)
    decreases |m.fields| - j, j
  {
    if j + 1 < |m.fields| {
      SlotsAscend(m, i, j + 1);
      SlotsAscendBy(m, i, j);
    } else {
      SlotsAscendBy(m, i, j);
    }
  }

  lemma {:induction false} SlotsAscendBy(m: Message, i: nat, j: nat)
    requires i <= j < |m.fields|
    ensures SlotOf(m, i) <= SlotOf(m, j)
    decreases j
  {
    if i < j {
      SlotsAscendBy(m, i, j - 1);
    }
  }

  /** Two fields share a slot only inside one oneof. */
  lemma {:induction false} SharedSlot(m: Message, i: nat, j: nat)
    requires i < j < |m.fields| && SlotOf(m, i) == SlotOf(m, j)
    ensures m.fields[i].rule.ONEOF? && m.fields[j].rule.ONEOF?
  {
    SlotsAscendBy(m, i, j - 1);
    if i < j - 1 {
      SharedSlot(m, i, j - 1);
    }
  }

  lemma {:induction false} RequiredAscend(m: Message, i: nat, j: nat)
    requires i <= j <= |m.fields|
    ensures RequiredBefore(m, i) <= RequiredBefore(m, j)
    decreases j
  {
    if i < j {
      RequiredAscend(m, i, j - 1);
    }
  }

  // ----- Well-formed descriptors and the values they describe -----

  ghost predicate WellFormed(m: Message)
    decreases m, 0
  {
    && (forall i | 0 <= i < |m.fields| :: WellFormedField(m.fields[i]))
    && (forall i, j | 0 <= i < j < |m.fields| :: m.fields[i].tag != m.fields[j].tag)
  }

  ghost predicate WellFormedField(f: Field)
    decreases f, 0
  {
    && 0 < f.tag < TAG_LIMIT
    && f.dataSize < SIZE_LIMIT && f.arraySize < SIZE_LIMIT
    && (f.kind.BYTES? ==> BYTES_HEADER <= f.dataSize)
    && (f.kind.STRING? ==> 0 < f.dataSize)
    && (f.kind.SUBMESSAGE? ==> WellFormed(f.message))
    && (f.initial.Some? ==> !f.kind.SUBMESSAGE? && Fits(f, f.initial.value))
    // proto3 has no default values.
    && (f.rule.SINGULAR? ==> f.initial.None?)
  }

  predicate SignedFits(n: int, dataSize: nat) {
    if dataSize == 1 then -0x80 <= n < 0x80
    else if dataSize == 2 then -0x8000 <= n < 0x8000
    else if dataSize == 4 then -0x8000_0000 <= n < 0x8000_0000
    else -0x8000_0000_0000_0000 <= n < 0x8000_0000_0000_0000
  }

  predicate UnsignedFits(n: int, dataSize: nat) {
    0 <= n < if dataSize == 1 then 0x100 else if dataSize == 2 then 0x1_0000
             else if dataSize == 4 then 0x1_0000_0000 else 0x1_0000_0000_0000_0000
  }

  predicate IntegerSize(dataSize: nat) {
    dataSize == 1 || dataSize == 2 || dataSize == 4 || dataSize == 8
  }

  /** The storage of one item of a field can hold v. */
  ghost predicate Fits(f: Field, v: Datum)
    decreases f, 1
  {
    match f.kind
    case VARINT => v.Number? && SignedFits(v.n, f.dataSize)
    case SVARINT => v.Number? && SignedFits(v.n, f.dataSize)
    case UVARINT => v.Number? && UnsignedFits(v.n, f.dataSize)
    case FIXED32 => v.Number? && UnsignedFits(v.n, 4)
    case FIXED64 => v.Number? && UnsignedFits(v.n, 8)
    case BYTES => v.Counted? && BYTES_HEADER + |v.bytes| == f.dataSize && v.size < SIZE_LIMIT
    case STRING => v.Chars? && |v.chars| == f.dataSize
    case FIXED_LENGTH_BYTES => v.Chars? && |v.chars| == f.dataSize
    case SUBMESSAGE => v.Struct? && FitsMessage(f.message, v.slots)
  }

  ghost predicate FitsSlot(f: Field, s: Slot)
    decreases f, 2
  {
    && s.size < SIZE_LIMIT
    && |s.items| == (if f.rule.REPEATED? then f.arraySize else 1)
    && (f.rule.ONEOF? ==> (s.size == f.tag ==> Fits(f, s.items[0])))
    && (!f.rule.ONEOF? ==> forall k | 0 <= k < |s.items| :: Fits(f, s.items[k]))
  }

  ghost predicate FitsMessage(m: Message, slots: seq<Slot>)
    decreases m, 1
  {
    && |slots| == SlotCount(m)
    && forall i | 0 <= i < |m.fields| ::
         SlotOf(m, i) < |slots| && FitsSlot(m.fields[i], slots[SlotOf(m, i)])
  }

  lemma UnionFits(f: Field, g: Field, s: Slot)
    requires FitsSlot(f, s) && s.size == f.tag && f.tag != g.tag && f.rule.ONEOF? && g.rule.ONEOF?
    ensures FitsSlot(g, s)
  {
  }

  /** Storing a field leaves the others alone, except that a oneof changes
      which of its fields the union holds. */
  lemma StoreFits(m: Message, slots: seq<Slot>, i: nat, s: Slot)
    requires WellFormed(m) && FitsMessage(m, slots) && i < |m.fields| && FitsSlot(m.fields[i], s)
    requires m.fields[i].rule.ONEOF? ==> s.size == m.fields[i].tag
    ensures SlotOf(m, i) < |slots| && FitsMessage(m, slots[SlotOf(m, i) := s])
  {
    hide WellFormedField, FitsSlot, SlotOf;
    var at := SlotOf(m, i);
    forall j | 0 <= j < |m.fields|
      ensures FitsSlot(m.fields[j], slots[at := s][SlotOf(m, j)])
    {
      if j != i && SlotOf(m, j) == at {
        SharedSlot(m, if j < i then j else i, if j < i then i else j);
        UnionFits(m.fields[i], m.fields[j], s);
      }
    }
  }

  // ----- Finding a field -----

  /** The first field from j on with the tag. */
  function IndexFrom(m: Message, tag: nat, j: nat): (r: Option<nat>)
    requires j <= |m.fields|
    ensures r.Some? ==> j <= r.value < |m.fields| && m.fields[r.value].tag == tag
    ensures r.None? ==> forall k | j <= k < |m.fields| :: m.fields[k].tag != tag
    decreases |m.fields| - j
  {
    if j == |m.fields| then None
    else if m.fields[j].tag == tag then Some(j)
    else IndexFrom(m, tag, j + 1)
  }

  function IndexOf(m: Message, tag: nat): Option<nat> {
    IndexFrom(m, tag, 0)
  }

  lemma OnlyIndex(m: Message, i: nat)
    requires WellFormed(m) && i < |m.fields|
    ensures IndexOf(m, m.fields[i].tag) == Some(i)
  {
    hide WellFormedField;
    var r := IndexOf(m, m.fields[i].tag);
    assert r.Some?;
  }

  // ----- pb_field_iter_t -----

  class FieldIter {
    const message: Message
    var pos: nat
    // pData and pSize: the slot they point into.
    var slot: nat
    var requiredFieldIndex: nat

    ghost predicate Valid()
      reads this
    {
      if message.fields == [] then pos == 0 && slot == 0 && requiredFieldIndex == 0
      else pos < |message.fields| && slot == SlotOf(message, pos) && requiredFieldIndex == RequiredBefore(message, pos)
    }

    function Current(): Field
      reads this`pos
    {
      if pos < |message.fields| then message.fields[pos] else TERMINATOR
    }

    /** pb_field_iter_begin; it returns whether there is a field. */
    constructor (m: Message)
      ensures Valid() && message == m && pos == 0
    {
      message := m;
      pos, slot, requiredFieldIndex := 0, 0, 0;
    }

    /** pb_field_iter_next: false when it wraps around. */
    method Next() returns (more: bool)
      requires Valid()
      modifies this
      ensures Valid()
      ensures more <==> old(pos) + 1 < |message.fields|
      ensures pos == if more then old(pos) + 1 else 0
    {
      var previous := Current();
      if pos == |message.fields| {
        return false;
      }
      pos := pos + 1;
      if pos == |message.fields| {
        pos, slot, requiredFieldIndex := 0, 0, 0;
        return false;
      }
      if previous.rule.ONEOF? && Current().rule.ONEOF? && Current().joins {
        // Pointers do not advance inside a union.
        return true;
      }
      if previous.rule.REQUIRED? {
        requiredFieldIndex := requiredFieldIndex + 1;
      }
      slot := slot + 1;
      return true;
    }

    /** pb_field_iter_find: at most once round, from the current field.  The
        terminator of an empty list is compared like a field. */
    method Find(tag: nat) returns (found: bool)
      requires Valid()
      modifies this
      ensures Valid()
      ensures found ==> Current().tag == tag
      ensures !found ==> pos == old(pos) && Current().tag != tag
      ensures !found ==> forall j | 0 <= j < |message.fields| :: message.fields[j].tag != tag
    {
      var start := pos;
      ghost var wrapped := false;
      while true
        invariant Valid()
        invariant if wrapped then pos < start < |message.fields| else start <= pos
        invariant message.fields == [] ==> !wrapped
        invariant forall j | start <= j < (if wrapped then |message.fields| else pos) :: message.fields[j].tag != tag
        invariant wrapped ==> forall j | 0 <= j < pos :: message.fields[j].tag != tag
        decreases !wrapped, |message.fields| - pos
      {
        if Current().tag == tag {
          return true;
        }
        var more := Next();
        wrapped := wrapped || !more;
        if pos == start {
          return false;
        }
      }
    }
  }
}
