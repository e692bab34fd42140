/** The methods of nanopb's decoder (pb_decode.c), against what `PbDecode` says
    they store.  A message structure is passed in and handed back. */
module PbDecoder {
  import opened DbFormat
  import opened PbFields
  import opened PbWire
  import opened PbDecode
  import PbRequired
  import Coding

  /** A decoder that should read r from the stream. */
  ghost predicate Decoded<T>(stream: IStream, r: Option<(T, nat)>, ok: bool, value: T, before: Bytes, end: nat)
    reads stream
  {
    && stream.Valid() && stream.state + stream.bytesLeft <= end
    && (ok <==> r.Some?)
    && (ok ==> r.value.1 <= |before| && value == r.value.0 && stream.Left() == before[r.value.1..])
    && (ok ==> stream.state + stream.bytesLeft == end)
  }

  // ----- Defaults -----

  /** pb_field_set_to_default */
  method SetFieldToDefault(f: Field, s: Slot) returns (r: Slot)
    requires WellFormedField(f) && FitsSlot(f, s)
    ensures r == DefaultSlot(f, s)
    decreases f, 0
  {
    var size, initData := s.size, true;
    if f.rule.OPTIONAL? {
      size := 0;
    } else if f.rule.REPEATED? || f.rule.ONEOF? {
      size := 0;
      initData := false;
    }
    if !initData {
      return Slot(size, s.items);
    }
    if f.kind.SUBMESSAGE? {
      var slots := SetMessageToDefaults(f.message, s.items[0].slots);
      r := Slot(size, [Struct(slots)]);
    } else if f.initial.Some? {
      r := Slot(size, [f.initial.value]);
    } else {
      r := Slot(size, [Zero(f)]);
    }
  }

  /** pb_message_set_to_defaults */
  method SetMessageToDefaults(m: Message, slots: seq<Slot>) returns (r: seq<Slot>)
    requires WellFormed(m) && FitsMessage(m, slots)
    ensures r == SetDefaultsFrom(m, slots, 0)
    decreases m, 0
  {
    var iter := new FieldIter(m);
    r := slots;
    if m.fields == [] {
      return;
    }
    var more := true;
    hide SlotOf, FitsSlot, FitsMessage, WellFormed, WellFormedField, DefaultSlot, SetDefaultsFrom;
    while more
      invariant iter.Valid() && iter.message == m && fresh(iter)
      invariant FitsMessage(m, r)
      invariant SetDefaultsFrom(m, r, if more then iter.pos else |m.fields|) == SetDefaultsFrom(m, slots, 0)
      decreases more, |m.fields| - iter.pos
    {
      SetDefaultsStep(m, r, iter.pos);
      var s := SetFieldToDefault(iter.Current(), r[iter.slot]);
      r := r[iter.slot := s];
      more := iter.Next();
    }
    SetDefaultsEnds(m, r);
  }

  // ----- Items -----

  /** pb_dec_submessage */
  method DecodeSubmessage(stream: IStream, f: Field, previous: Datum) returns (ok: bool, value: Datum)
    requires stream.Valid() && WellFormedField(f) && Fits(f, previous) && f.kind.SUBMESSAGE?
    modifies stream
    ensures Decoded(stream, DecodeItem(f, previous, old(stream.Left())), ok, value,
                    old(stream.Left()), old(stream.state + stream.bytesLeft))
    decreases f, 0
  {
    hide DecodeFields, FitsMessage, WellFormed, SetDefaultsFrom;
    value := previous;
    ghost var s := stream.Left();
    var substream;
    ok, substream := stream.MakeStringSubstream();
    if !ok {
      return;
    }
    var status, slots;
    // New array entries need to be initialized.
    if f.rule.REPEATED? {
      status, slots := Decode(substream, f.message, previous.slots);
    } else {
      status, slots := DecodeNoInit(substream, f.message, previous.slots);
    }
    ok := stream.CloseStringSubstream(substream);
    ok := status;
    value := Struct(slots);
    if ok {
      assert stream.Left() == s[Delimited(s).value.1..];
    }
  }

  /** The PB_DECODERS function of a field. */
  method DecodeDatum(stream: IStream, f: Field, previous: Datum) returns (ok: bool, value: Datum)
    requires stream.Valid() && WellFormedField(f) && Fits(f, previous)
    modifies stream
    ensures Decoded(stream, DecodeItem(f, previous, old(stream.Left())), ok, value,
                    old(stream.Left()), old(stream.state + stream.bytesLeft))
    decreases f, 1
  {
    value := previous;
    if f.kind.SUBMESSAGE? {
      ok, value := DecodeSubmessage(stream, f, previous);
    } else if f.kind.FIXED32? {
      var data;
      ok, data := stream.Read(4);
      if ok {
        value := Number(Coding.DecodeFixed32(data));
      }
    } else if f.kind.FIXED64? {
      var data;
      ok, data := stream.Read(8);
      if ok {
        value := Number(Coding.DecodeFixed64(data));
      }
    } else if Packable(f.kind) {
      ok, value := DecodeInteger(stream, f, previous);
    } else {
      ok, value := DecodeDelimited(stream, f, previous);
    }
  }

  /** pb_dec_varint, pb_dec_uvarint and pb_dec_svarint */
  method DecodeInteger(stream: IStream, f: Field, previous: Datum) returns (ok: bool, value: Datum)
    requires stream.Valid() && WellFormedField(f) && Fits(f, previous)
    requires f.kind.VARINT? || f.kind.UVARINT? || f.kind.SVARINT?
    modifies stream
    ensures Decoded(stream, DecodeItem(f, previous, old(stream.Left())), ok, value,
                    old(stream.Left()), old(stream.state + stream.bytesLeft))
  {
    value := previous;
    var v;
    ok, v := stream.DecodeVarint();
    if !ok {
      return;
    }
    var n := StoreVarint(f, v);
    if n.None? {
      return false, value; // integer too large, or invalid data_size
    }
    value := Number(n.value);
  }

  /** pb_dec_bytes, pb_dec_string and pb_dec_fixed_length_bytes */
  method DecodeDelimited(stream: IStream, f: Field, previous: Datum) returns (ok: bool, value: Datum)
    requires stream.Valid() && WellFormedField(f) && Fits(f, previous)
    requires f.kind.BYTES? || f.kind.STRING? || f.kind.FIXED_LENGTH_BYTES?
    modifies stream
    ensures Decoded(stream, DecodeItem(f, previous, old(stream.Left())), ok, value,
                    old(stream.Left()), old(stream.state + stream.bytesLeft))
  {
    hide Varint32;
    value := previous;
    ghost var s := stream.Left();
    var size, data;
    ok, size := stream.DecodeVarint32();
    if !ok {
      return;
    }
    ghost var at := Varint32(s).value.1;
    assert size <= |s| - at ==> s[at..][..size] == s[at..at + size] && s[at..][size..] == s[at + size..];
    if f.kind.FIXED_LENGTH_BYTES? && size == 0 {
      // An empty string stands for zeros.
      value := Chars(Zeros(f.dataSize));
      return;
    }
    if f.kind.BYTES? && size + BYTES_HEADER > f.dataSize {
      return false, value; // bytes overflow
    }
    if f.kind.STRING? && size + 1 > f.dataSize {
      return false, value; // string overflow
    }
    if f.kind.FIXED_LENGTH_BYTES? && size != f.dataSize {
      return false, value; // incorrect fixed length bytes size
    }
    ok, data := stream.Read(size);
    if !ok {
      return;
    }
    value := match f.kind
      case BYTES => Counted(size, data + previous.bytes[size..])
      case STRING => Chars(data + [0] + previous.chars[size + 1..])
      case _ => Chars(data);
  }

  // ----- Fields -----

  /** The packed branch of decode_static_field. */
  method DecodePackedArray(stream: IStream, f: Field, slot: Slot) returns (ok: bool, r: Slot)
    requires stream.Valid() && WellFormedField(f) && FitsSlot(f, slot) && f.rule.REPEATED? && Packable(f.kind)
    modifies stream
    ensures Decoded(stream, DecodeField(f, slot, 2, old(stream.Left())), ok, r,
                    old(stream.Left()), old(stream.state + stream.bytesLeft))
    decreases f, 2
  {
    hide DecodeItem, Fits, Varint32, Delimited;
    r := slot;
    ghost var s := stream.Left();
    var substream;
    ok, substream := stream.MakeStringSubstream();
    if !ok {
      return;
    }
    ghost var data, end := substream.Left(), substream.state + substream.bytesLeft;
    var status := true;
    while status && substream.bytesLeft > 0 && r.size < f.arraySize
      modifies substream
      invariant stream.Valid() && fresh(substream) && substream.Valid() && FitsSlot(f, r)
      invariant substream.state + substream.bytesLeft <= end
      invariant status ==> substream.state + substream.bytesLeft == end
      invariant status ==> DecodePacked(f, r, substream.Left()) == DecodePacked(f, slot, data)
      invariant !status ==> DecodePacked(f, slot, data).None?
      decreases status, substream.bytesLeft
    {
      var item;
      status, item := DecodeDatum(substream, f, r.items[r.size]);
      if status {
        r := Slot(r.size + 1, r.items[r.size := item]);
      }
    }
    if substream.bytesLeft != 0 {
      return false, r; // array overflow
    }
    ok := stream.CloseStringSubstream(substream);
    ok := status;
    if ok {
      assert stream.Left() == s[Delimited(s).value.1..];
    }
  }

  /** decode_static_field */
  method DecodeStaticField(stream: IStream, f: Field, slot: Slot, wire: nat) returns (ok: bool, r: Slot)
    requires stream.Valid() && WellFormedField(f) && FitsSlot(f, slot)
    modifies stream
    ensures Decoded(stream, DecodeField(f, slot, wire, old(stream.Left())), ok, r,
                    old(stream.Left()), old(stream.state + stream.bytesLeft))
    decreases f, 3
  {
    hide DecodeItem, Fits, WellFormedField, DecodePacked;
    var value;
    match f.rule {
      case REPEATED =>
        if wire == 2 && Packable(f.kind) {
          ok, r := DecodePackedArray(stream, f, slot);
        } else {
          var size := slot.size + 1;
          if slot.size >= f.arraySize {
            return false, slot; // array overflow
          }
          ok, value := DecodeDatum(stream, f, slot.items[slot.size]);
          r := Slot(size, slot.items[slot.size := value]);
        }
      case OPTIONAL =>
        ok, value := DecodeDatum(stream, f, slot.items[0]);
        r := Slot(1, [value]);
      case ONEOF =>
        value := UnionBefore(f, slot);
        ok, value := DecodeDatum(stream, f, value);
        r := Slot(f.tag, [value]);
      case _ =>
        ok, value := DecodeDatum(stream, f, slot.items[0]);
        r := Slot(slot.size, [value]);
    }
  }

  // ----- Messages -----

  /** pb_decode_tag */
  method DecodeTag(stream: IStream) returns (ok: bool, wire: nat, tag: nat, eof: bool)
    requires stream.Valid()
    modifies stream
    ensures stream.Valid() && stream.state + stream.bytesLeft <= old(stream.state + stream.bytesLeft)
    ensures ok <==> Varint32(old(stream.Left())).Some? && Varint32(old(stream.Left())).value.0 != 0
    ensures ok ==> Varint32(old(stream.Left())).value == (tag * 8 + wire, |old(stream.Left())| - |stream.Left()|) && wire < 8
    ensures eof <==> old(stream.Left()) == [] || (Varint32(old(stream.Left())).Some? && !ok)
    ensures Varint32(old(stream.Left())).Some? ==> stream.Left() == old(stream.Left())[Varint32(old(stream.Left())).value.1..]
    ensures Varint32(old(stream.Left())).Some? ==> stream.state + stream.bytesLeft == old(stream.state + stream.bytesLeft)
  {
    var temp;
    wire, tag := 0, 0;
    ok, temp, eof := stream.DecodeVarint32Eof();
    if !ok {
      return;
    }
    if temp == 0 {
      return false, wire, tag, true; // 0-terminated messages are allowed
    }
    tag, wire := temp / 8, temp % 8;
  }

  /** pb_release_union_field, where nothing has been allocated: only the fields
      of the old and the new tag are looked up. */
  method ReleaseUnionField(iter: FieldIter, slot: Slot) returns (ok: bool)
    requires iter.Valid() && WellFormed(iter.message) && iter.pos < |iter.message.fields|
    requires iter.Current().rule.ONEOF?
    modifies iter
    ensures iter.Valid() && iter.pos < |iter.message.fields|
    ensures ok <==> UnionReleases(iter.message, old(iter.Current()), slot)
    ensures ok ==> iter.pos == old(iter.pos)
  {
    hide WellFormedField, SlotOf, RequiredBefore;
    var oldTag, newTag := slot.size, iter.Current().tag;
    ghost var m, i := iter.message, iter.pos;
    OnlyIndex(m, i);
    if oldTag == 0 || oldTag == newTag {
      return true;
    }
    ok := iter.Find(oldTag);
    if !ok {
      return false; // invalid union tag
    }
    ok := iter.Find(newTag);
    OnlyIndex(m, iter.pos);
  }

  /** What is required to end well. */
  ghost function Finish(m: Message, slots: seq<Slot>, seen: set<nat>): Option<seq<Slot>> {
    if Complete(m, seen) then Some(slots) else None
  }

  /** The bits that are set belong to required fields. */
  ghost predicate Tracks(m: Message, fieldsSeen: seq<nat>, seen: set<nat>) {
    && PbRequired.Holds(fieldsSeen, seen)
    && forall r | r in seen :: r < RequiredCount(m) && r < MAX_REQUIRED_FIELDS
  }

  /** The body of the loop of pb_decode_noinit. */
  method DecodeNext(stream: IStream, iter: FieldIter, slots: seq<Slot>, fieldsSeen: seq<nat>, ghost seen: set<nat>)
    returns (ok: bool, eof: bool, r: seq<Slot>, seenNow: seq<nat>, ghost now: set<nat>)
    requires stream.Valid() && iter.Valid() && WellFormed(iter.message) && FitsMessage(iter.message, slots)
    requires stream.bytesLeft > 0 && Tracks(iter.message, fieldsSeen, seen)
    modifies stream, iter
    ensures stream.Valid() && iter.Valid() && stream.state + stream.bytesLeft <= old(stream.state + stream.bytesLeft)
    ensures !ok ==> DecodeFields(iter.message, slots, seen, old(stream.Left())).None?
    ensures ok ==> stream.state + stream.bytesLeft == old(stream.state + stream.bytesLeft)
    ensures ok ==> FitsMessage(iter.message, r) && Tracks(iter.message, seenNow, now)
    ensures ok ==> DecodeFields(iter.message, slots, seen, old(stream.Left()))
                     == if eof then Finish(iter.message, r, now) else DecodeFields(iter.message, r, now, stream.Left())
    ensures ok && !eof ==> stream.bytesLeft < old(stream.bytesLeft)
    decreases iter.message, 0, 1
  {
    hide Varint32, Complete, DecodeKnown, FitsSlot, FitsMessage, WellFormed, SlotOf, PbRequired.Holds, SkippedField, RequiredBefore;
    ghost var m, s := iter.message, stream.Left();
    r, seenNow, now := slots, fieldsSeen, seen;
    var wire, tag;
    ok, wire, tag, eof := DecodeTag(stream);
    if !ok {
      ok := eof;
      return;
    }
    ghost var body := stream.Left();
    var found := iter.Find(tag);
    if !found {
      assert IndexOf(m, tag) == None;
      ok := stream.SkipField(wire);
      return;
    }
    if iter.pos == |iter.message.fields| {
      // The terminator of an empty list: pb_dec_varint refuses its data_size.
      return false, eof, r, seenNow, now;
    }
    OnlyIndex(m, iter.pos);
    ok, r, seenNow, now := DecodeKnownField(stream, iter, slots, fieldsSeen, seen, wire);
  }

  /** The rest of that body, once the iterator stands at the field of the tag. */
  method DecodeKnownField(stream: IStream, iter: FieldIter, slots: seq<Slot>, fieldsSeen: seq<nat>, ghost seen: set<nat>, wire: nat)
    returns (ok: bool, r: seq<Slot>, seenNow: seq<nat>, ghost now: set<nat>)
    requires stream.Valid() && iter.Valid() && WellFormed(iter.message) && FitsMessage(iter.message, slots)
    requires iter.pos < |iter.message.fields| && Tracks(iter.message, fieldsSeen, seen)
    modifies stream, iter
    ensures stream.Valid() && iter.Valid() && stream.state + stream.bytesLeft <= old(stream.state + stream.bytesLeft)
    ensures !ok ==> DecodeKnown(iter.message, slots, seen, old(iter.pos), wire, old(stream.Left())).None?
    ensures ok ==> stream.state + stream.bytesLeft == old(stream.state + stream.bytesLeft)
    ensures ok ==> FitsMessage(iter.message, r) && Tracks(iter.message, seenNow, now)
    ensures ok ==> DecodeKnown(iter.message, slots, seen, old(iter.pos), wire, old(stream.Left()))
                     == DecodeFields(iter.message, r, now, stream.Left())
    ensures ok ==> stream.bytesLeft <= old(stream.bytesLeft)
    decreases iter.message, 0, 0
  {
    hide Complete, DecodeField, DecodeFields, FitsSlot, WellFormedField, SlotOf, PbRequired.Holds, RequiredBefore;
    ghost var m, i, body := iter.message, iter.pos, stream.Left();
    r, seenNow, now := slots, fieldsSeen, seen;
    var at := iter.slot;
    var f := iter.Current();
    if f.rule.REQUIRED? && iter.requiredFieldIndex < MAX_REQUIRED_FIELDS {
      RequiredIndexBelow(m, i);
      seenNow := PbRequired.See(fieldsSeen, seen, iter.requiredFieldIndex);
      now := seen + {iter.requiredFieldIndex};
    }
    if f.rule.ONEOF? {
      ok := ReleaseUnionField(iter, slots[at]);
      if !ok {
        return;
      }
    }
    var slot;
    ok, slot := DecodeStaticField(stream, f, slots[at], wire);
    if ok {
      StoreFits(m, slots, i, slot);
      r := slots[at := slot];
    }
  }

  lemma RequiredIndexBelow(m: Message, i: nat)
    requires i < |m.fields| && m.fields[i].rule.REQUIRED?
    ensures RequiredBefore(m, i) < RequiredCount(m)
  {
    RequiredAscend(m, i + 1, |m.fields|);
  }

  /** The number of required fields, by going on to the end of the list. */
  method CountRequired(iter: FieldIter) returns (count: nat)
    requires iter.Valid()
    modifies iter
    ensures iter.Valid() && count == RequiredCount(iter.message)
  {
    var last, more := iter.Current(), true;
    count := 0;
    while more
      invariant iter.Valid()
      invariant !more && iter.message.fields != [] ==> last == iter.message.fields[|iter.message.fields| - 1]
      invariant !more && iter.message.fields == [] ==> count == 0
      invariant !more && iter.message.fields != [] ==>
        count == RequiredBefore(iter.message, |iter.message.fields| - 1) && iter.pos == 0
      decreases more, |iter.message.fields| - iter.pos
    {
      count := iter.requiredFieldIndex;
      last := iter.Current();
      more := iter.Next();
    }
    // The terminator looks required as well.
    if last.rule.REQUIRED? && iter.pos < |iter.message.fields| {
      count := count + 1;
    }
  }

  /** pb_decode_noinit */
  method DecodeNoInit(stream: IStream, m: Message, slots: seq<Slot>) returns (ok: bool, r: seq<Slot>)
    requires stream.Valid() && WellFormed(m) && FitsMessage(m, slots)
    modifies stream
    ensures stream.Valid() && stream.state + stream.bytesLeft <= old(stream.state + stream.bytesLeft)
    ensures ok <==> DecodeFields(m, slots, {}, old(stream.Left())).Some?
    ensures ok ==> r == DecodeFields(m, slots, {}, old(stream.Left())).value
    ensures ok ==> stream.state + stream.bytesLeft == old(stream.state + stream.bytesLeft)
    decreases m, 1
  {
    hide DecodeFields, FitsMessage, WellFormed, Complete, RequiredCount, PbRequired.WordOf;
    var fieldsSeen: seq<nat> := [0, 0];
    var iter := new FieldIter(m);
    ghost var seen := {};
    PbRequired.NoBits(seen, 0, 32);
    PbRequired.NoBits(seen, 32, 32);
    var eof := false;
    r := slots;
    while !eof && stream.bytesLeft != 0
      invariant stream.Valid() && iter.Valid() && iter.message == m && fresh(iter) && FitsMessage(m, r)
      invariant Tracks(m, fieldsSeen, seen)
      invariant stream.state + stream.bytesLeft == old(stream.state + stream.bytesLeft)
      invariant DecodeFields(m, slots, {}, old(stream.Left()))
             == if eof then Finish(m, r, seen) else DecodeFields(m, r, seen, stream.Left())
      decreases !eof, stream.bytesLeft
    {
      ok, eof, r, fieldsSeen, seen := DecodeNext(stream, iter, r, fieldsSeen, seen);
      if !ok {
        return;
      }
    }
    if !eof {
      assert stream.Left() == [];
      AtEnd(m, r, seen);
    }
    var count := CountRequired(iter);
    if count > MAX_REQUIRED_FIELDS {
      count := MAX_REQUIRED_FIELDS;
    }
    ok := PbRequired.AllSeen(fieldsSeen, seen, count);
    CompleteUpTo(m, seen, count);
  }

  lemma AtEnd(m: Message, slots: seq<Slot>, seen: set<nat>)
    requires WellFormed(m) && FitsMessage(m, slots)
    ensures DecodeFields(m, slots, seen, []) == Finish(m, slots, seen)
  {
  }

  lemma CompleteUpTo(m: Message, seen: set<nat>, count: nat)
    requires count == if RequiredCount(m) > MAX_REQUIRED_FIELDS then MAX_REQUIRED_FIELDS else RequiredCount(m)
    ensures Complete(m, seen) <==> forall r | 0 <= r < count :: r in seen
  {
  }

  /** pb_decode */
  method Decode(stream: IStream, m: Message, slots: seq<Slot>) returns (ok: bool, r: seq<Slot>)
    requires stream.Valid() && WellFormed(m) && FitsMessage(m, slots)
    modifies stream
    ensures stream.Valid() && stream.state + stream.bytesLeft <= old(stream.state + stream.bytesLeft)
    ensures ok <==> DecodeMessage(m, slots, old(stream.Left())).Some?
    ensures ok ==> r == DecodeMessage(m, slots, old(stream.Left())).value
    ensures ok ==> stream.state + stream.bytesLeft == old(stream.state + stream.bytesLeft)
    decreases m, 2
  {
    r := SetMessageToDefaults(m, slots);
    ok, r := DecodeNoInit(stream, m, r);
  }
}
