/** nanopb across versions of a message: a decoder skips the fields its
    descriptor does not have, whole, and says the same of all others.  And the
    bytes of one field of each wire type. */
module PbForward {
  import opened DbFormat
  import opened PbFields
  import opened PbWire
  import opened PbEncode
  import opened PbDecode
  import opened PbView
  import opened PbRoundTrip
  import Coding
  import PbVarint

  // ----- Skipping what was encoded -----

  lemma {:induction false} VarintSkips(v: nat, rest: Bytes)
    ensures SkippedVarint(Coding.Varint(v) + rest) == Some(|Coding.Varint(v)|)
  {
    hide Coding.Varint;
    VarintHead(v, rest);
    if v >= 128 {
      VarintSkips(v / 128, rest);
    }
  }

  lemma StringSkips(data: Bytes, rest: Bytes)
    requires |data| < Coding.LIMIT32
    ensures SkippedField(WireCode(WT_STRING), Coding.LengthPrefixed(data) + rest) == Some(|Coding.LengthPrefixed(data)|)
  {
    hide Coding.LengthPrefixed, Varint32;
    DelimitedRoundTrip(data, rest);
  }

  /** The wire type that goes with a field skips exactly its encoding. */
  lemma ItemSkips(f: Field, v: Datum, rest: Bytes)
    requires Fits(f, v) && EncodeItem(f, v).Some? && |EncodeItem(f, v).value| < Coding.LIMIT32
    ensures SkippedField(WireCode(WireOf(f.kind)), EncodeItem(f, v).value + rest) == Some(|EncodeItem(f, v).value|)
  {
    hide Coding.Varint, Coding.LengthPrefixed, EncodeFrom, SkippedVarint, SkippedString, FitsMessage;
    match f.kind {
      case VARINT => VarintSkips(Unsigned64(v.n), rest);
      case UVARINT => VarintSkips(v.n, rest);
      case SVARINT => VarintSkips(ZigZag(v.n), rest);
      case FIXED32 =>
      case FIXED64 =>
      case BYTES => PrefixShorter(v.bytes[..v.size]); StringSkips(v.bytes[..v.size], rest);
      case STRING => PrefixShorter(UpToNul(v.chars)); StringSkips(UpToNul(v.chars), rest);
      case FIXED_LENGTH_BYTES => PrefixShorter(v.chars); StringSkips(v.chars, rest);
      case SUBMESSAGE =>
        var e := EncodeFrom(f.message, v.slots, 0).value;
        PrefixShorter(e);
        StringSkips(e, rest);
    }
  }

  lemma PrefixShorter(data: Bytes)
    ensures |data| < |Coding.LengthPrefixed(data)|
  {
    hide Coding.Varint;
    VarintHead(|data|, []);
  }

  /** A tag that is not in the descriptor, and what follows it. */
  lemma UnknownSkips(n: Message, d: seq<Slot>, seen: set<nat>, tag: nat, w: WireType, item: Bytes, rest: Bytes)
    requires WellFormed(n) && FitsMessage(n, d) && 0 < tag < TAG_LIMIT && IndexOf(n, tag).None?
    requires SkippedField(WireCode(w), item + rest) == Some(|item|)
    ensures DecodeFields(n, d, seen, TagBytes(tag, w) + item + rest) == DecodeFields(n, d, seen, rest)
  {
    hide DecodeKnown, FitsMessage, WellFormed, Coding.Varint, Varint32, IndexOf, SkippedField, Complete;
    var key := tag * 8 + WireCode(w);
    assert key / 8 == tag && key % 8 == WireCode(w);
    Varint32RoundTrip(key, item + rest);
    var s := TagBytes(tag, w) + item + rest;
    assert s == TagBytes(tag, w) + (item + rest);
    assert s[|TagBytes(tag, w)|..] == item + rest && (item + rest)[|item|..] == rest;
  }

  lemma {:induction false} TaggedSkips(n: Message, d: seq<Slot>, seen: set<nat>, f: Field, items: seq<Datum>, rest: Bytes)
    requires WellFormed(n) && FitsMessage(n, d) && WellFormedField(f) && IndexOf(n, f.tag).None?
    requires forall k | 0 <= k < |items| :: Fits(f, items[k])
    requires EncodeTagged(f, items).Some? && |EncodeTagged(f, items).value| < Coding.LIMIT32
    ensures DecodeFields(n, d, seen, EncodeTagged(f, items).value + rest) == DecodeFields(n, d, seen, rest)
    decreases |items|
  {
    TagInRange(f);
    hide *;
    if items == [] {
      NoneTagged(f);
      assert [] + rest == rest;
    } else {
      TaggedSplits(f, items);
      var tag, item, others := TagBytes(f.tag, WireOf(f.kind)), EncodeItem(f, items[0]).value, EncodeTagged(f, items[1..]).value;
      var more := others + rest;
      Regroup(tag, item, others, rest);
      ItemSkips(f, items[0], more);
      UnknownSkips(n, d, seen, f.tag, WireOf(f.kind), item, more);
      TaggedSkips(n, d, seen, f, items[1..], rest);
    }
  }

  lemma Regroup(a: Bytes, b: Bytes, c: Bytes, d: Bytes)
    ensures a + (b + c) + d == a + b + (c + d)
  {
  }

  lemma TagInRange(f: Field)
    requires WellFormedField(f)
    ensures 0 < f.tag < TAG_LIMIT
  {
  }

  lemma OneSplits(f: Field, v: Datum)
    requires Fits(f, v) && EncodeOne(f, v).Some?
    ensures EncodeItem(f, v).Some? && EncodeOne(f, v).value == TagBytes(f.tag, WireOf(f.kind)) + EncodeItem(f, v).value
  {
    hide EncodeItem;
  }

  lemma PackedSkips(n: Message, d: seq<Slot>, seen: set<nat>, f: Field, items: seq<Datum>, rest: Bytes)
    requires WellFormed(n) && FitsMessage(n, d) && WellFormedField(f) && IndexOf(n, f.tag).None?
    requires forall k | 0 <= k < |items| :: Fits(f, items[k])
    requires EncodePacked(f, items).Some? && |EncodePacked(f, items).value| < Coding.LIMIT32
    ensures DecodeFields(n, d, seen, WholePacked(f, items) + rest) == DecodeFields(n, d, seen, rest)
  {
    TagInRange(f);
    WholeIs(f, items);
    hide *;
    var data := EncodePacked(f, items).value;
    StringSkips(data, rest);
    UnknownSkips(n, d, seen, f.tag, WT_STRING, Coding.LengthPrefixed(data), rest);
  }

  lemma WholeIs(f: Field, items: seq<Datum>)
    requires forall k | 0 <= k < |items| :: Fits(f, items[k])
    requires EncodePacked(f, items).Some?
    ensures WholePacked(f, items) == TagBytes(f.tag, WT_STRING) + Coding.LengthPrefixed(EncodePacked(f, items).value)
  {
  }

  /** A whole field that the descriptor does not have. */
  lemma FieldSkips(n: Message, d: seq<Slot>, seen: set<nat>, f: Field, x: Slot, rest: Bytes)
    requires WellFormed(n) && FitsMessage(n, d) && WellFormedField(f) && IndexOf(n, f.tag).None?
    requires FitsSlot(f, x) && EncodeField(f, x).Some? && |EncodeField(f, x).value| < Coding.LIMIT32
    ensures DecodeFields(n, d, seen, EncodeField(f, x).value + rest) == DecodeFields(n, d, seen, rest)
  {
    TagInRange(f);
    hide *;
    FieldForm(f, x);
    if f.rule.REPEATED? {
      if x.size == 0 {
        assert [] + rest == rest;
      } else {
        ArrayForm(f, x);
        if Packable(f.kind) {
          PackedSkips(n, d, seen, f, x.items[..x.size], rest);
        } else {
          TaggedSkips(n, d, seen, f, x.items[..x.size], rest);
        }
      }
    } else if Present(f, x) == [] {
      assert [] + rest == rest;
    } else {
      var v := x.items[0];
      OneSplits(f, v);
      ItemSkips(f, v, rest);
      UnknownSkips(n, d, seen, f.tag, WireOf(f.kind), EncodeItem(f, v).value, rest);
    }
  }

  // ----- A message with something unknown inside -----

  /** The fields from j on, with `unknown` before field k. */
  ghost function EncodeAround(n: Message, b: seq<Slot>, j: nat, k: nat, unknown: Option<Bytes>): Option<Bytes>
    requires FitsMessage(n, b) && j <= k <= |n.fields|
    decreases k - j
  {
    if j == k then Then(unknown, EncodeFrom(n, b, k))
    else Then(EncodeField(n.fields[j], b[SlotOf(n, j)]), EncodeAround(n, b, j + 1, k, unknown))
  }

  /** These bytes make no difference to the decoder, wherever they stand. */
  ghost predicate Skips(n: Message, e: Bytes)
    requires WellFormed(n)
  {
    forall d: seq<Slot>, seen: set<nat>, rest: Bytes | FitsMessage(n, d) :: DecodeFields(n, d, seen, e + rest) == DecodeFields(n, d, seen, rest)
  }

  lemma SkipsHere(n: Message, e: Bytes, d: seq<Slot>, seen: set<nat>, rest: Bytes)
    requires WellFormed(n) && Skips(n, e) && FitsMessage(n, d)
    ensures DecodeFields(n, d, seen, e + rest) == DecodeFields(n, d, seen, rest)
  {
  }

  lemma AroundSplits(n: Message, b: seq<Slot>, j: nat, k: nat, unknown: Option<Bytes>)
    requires FitsMessage(n, b) && j < k <= |n.fields| && EncodeAround(n, b, j, k, unknown).Some?
    ensures SlotOf(n, j) < |b| && FitsSlot(n.fields[j], b[SlotOf(n, j)])
    ensures EncodeField(n.fields[j], b[SlotOf(n, j)]).Some? && EncodeAround(n, b, j + 1, k, unknown).Some?
    ensures EncodeAround(n, b, j, k, unknown).value
         == EncodeField(n.fields[j], b[SlotOf(n, j)]).value + EncodeAround(n, b, j + 1, k, unknown).value
    ensures TerminatedFrom(n, b, j) <==> TerminatedSlot(n.fields[j], b[SlotOf(n, j)]) && TerminatedFrom(n, b, j + 1)
    ensures ValidMessage(n, b) ==> ValidSlot(n.fields[j], b[SlotOf(n, j)])
  {
    hide EncodeField, TerminatedSlot, ValidSlot, FitsSlot, SlotOf, UnionSound;
  }

  lemma {:induction false} FieldsReadAround(n: Message, b: seq<Slot>, d: seq<Slot>, j: nat, seen: set<nat>, k: nat, unknown: Option<Bytes>)
    requires WellFormed(n) && FitsMessage(n, b) && FitsMessage(n, d) && ValidMessage(n, b) && j <= k <= |n.fields|
    requires EncodeAround(n, b, j, k, unknown).Some? && |EncodeAround(n, b, j, k, unknown).value| < Coding.LIMIT32
    requires Before(n, b, d, j) && SeenUpTo(n, seen, j)
    requires unknown.Some? ==> Skips(n, unknown.value)
    ensures FieldsSaySame(n, b, j, DecodeFields(n, d, seen, EncodeAround(n, b, j, k, unknown).value))
    decreases k - j
  {
    hide *;
    if j == k {
      AroundEnds(n, b, k, unknown);
      SkipsHere(n, unknown.value, d, seen, EncodeFrom(n, b, k).value);
      FieldsRead(n, b, d, k, seen);
    } else {
      AroundSplits(n, b, j, k, unknown);
      Here(n, d, j);
      var e, rest := EncodeField(n.fields[j], b[SlotOf(n, j)]).value, EncodeAround(n, b, j + 1, k, unknown).value;
      var s := FieldRead(n, b, d, seen, j, rest);
      FieldReadLeads(n, b, d, seen, j, e, rest, s);
      if TerminatedSlot(n.fields[j], b[SlotOf(n, j)]) {
        Stored(n, b, d, j, s);
        SeesMore(n, seen, j);
        FieldsReadAround(n, b, d[SlotOf(n, j) := s], j + 1, SeenWith(n, seen, j), k, unknown);
        SameFrom(n, b, j, DecodeFields(n, d, seen, e + rest));
      } else {
        NotTerminated(n, b, j);
      }
    }
  }

  lemma AroundEnds(n: Message, b: seq<Slot>, k: nat, unknown: Option<Bytes>)
    requires FitsMessage(n, b) && k <= |n.fields| && EncodeAround(n, b, k, k, unknown).Some?
    ensures unknown.Some? && EncodeFrom(n, b, k).Some?
    ensures EncodeAround(n, b, k, k, unknown).value == unknown.value + EncodeFrom(n, b, k).value
  {
    hide EncodeFrom;
  }

  // ----- A descriptor that lacks a field -----

  /** Where field j of the shorter descriptor stands in the longer one. */
  function Up(j: nat, k: nat): (i: nat)
    ensures j <= i <= j + 1 && i != k
  {
    if j < k then j else j + 1
  }

  function WithJoins(f: Field, joins: bool): Field {
    f.(joins := joins)
  }

  /** m without field k.  The field after it shares a union with the one before
      it only if field k did with both. */
  function Without(m: Message, k: nat): (n: Message)
    requires k < |m.fields|
    ensures |n.fields| == |m.fields| - 1
  {
    Message(seq(|m.fields| - 1, j requires 0 <= j < |m.fields| - 1 =>
      if j == k then WithJoins(m.fields[k + 1], m.fields[k + 1].joins && m.fields[k].joins && m.fields[k].rule.ONEOF?)
      else m.fields[Up(j, k)]))
  }

  lemma FieldUp(m: Message, k: nat, j: nat)
    requires k < |m.fields| && j < |m.fields| - 1
    ensures exists joins :: Without(m, k).fields[j] == WithJoins(m.fields[Up(j, k)], joins)
    ensures Without(m, k).fields[j].rule == m.fields[Up(j, k)].rule && Without(m, k).fields[j].tag == m.fields[Up(j, k)].tag
    ensures j != k ==> Without(m, k).fields[j] == m.fields[Up(j, k)]
    ensures j == k ==> (Without(m, k).fields[j].joins <==> m.fields[k + 1].joins && m.fields[k].joins && m.fields[k].rule.ONEOF?)
  {
    assert m.fields[Up(j, k)] == WithJoins(m.fields[Up(j, k)], m.fields[Up(j, k)].joins);
  }

  predicate JoinsAt(m: Message, i: nat) {
    0 < i < |m.fields| && Joins(m, i)
  }

  /** Field k has a slot of its own. */
  predicate Alone(m: Message, k: nat)
    requires k < |m.fields|
  {
    !JoinsAt(m, k) && !JoinsAt(m, k + 1)
  }

  lemma JoinsUp(m: Message, k: nat, j: nat)
    requires k < |m.fields| && 0 < j < |m.fields| - 1
    ensures Joins(Without(m, k), j) <==> if j == k then JoinsAt(m, k) && JoinsAt(m, k + 1) else JoinsAt(m, Up(j, k))
  {
    FieldUp(m, k, j);
    FieldUp(m, k, j - 1);
    hide Without;
  }

  lemma {:induction false} SlotUp(m: Message, k: nat, j: nat)
    requires k < |m.fields| && j < |m.fields| - 1
    ensures SlotOf(Without(m, k), j) == SlotOf(m, Up(j, k)) - if j >= k && Alone(m, k) then 1 else 0
    decreases j
  {
    if j > 0 {
      JoinsUp(m, k, j);
      SlotUp(m, k, j - 1);
    }
    hide Without;
    assert k + 1 < |m.fields| ==> SlotOf(m, k + 1) == SlotOf(m, k) + if JoinsAt(m, k + 1) then 0 else 1;
    assert SlotOf(m, k) == if k == 0 then 0 else SlotOf(m, k - 1) + if JoinsAt(m, k) then 0 else 1;
    assert SlotOf(m, Up(j, k)) == if Up(j, k) == 0 then 0 else SlotOf(m, Up(j, k) - 1) + if JoinsAt(m, Up(j, k)) then 0 else 1;
    assert SlotOf(Without(m, k), j) == if j == 0 then 0 else SlotOf(Without(m, k), j - 1) + if Joins(Without(m, k), j) then 0 else 1;
  }

  /** The slots of the shorter descriptor: field k's own is dropped, and a union
      that held field k is empty. */
  function WithoutSlot(m: Message, a: seq<Slot>, k: nat): seq<Slot>
    requires k < |m.fields| && SlotOf(m, k) < |a|
  {
    var at := SlotOf(m, k);
    if Alone(m, k) then a[..at] + a[at + 1..]
    else if a[at].size == m.fields[k].tag then a[at := Slot(0, a[at].items)]
    else a
  }

  /** A union that held field k. */
  predicate Cleared(m: Message, a: seq<Slot>, k: nat, i: nat)
    requires k < |m.fields| && i < |m.fields| && SlotOf(m, i) < |a|
  {
    SlotOf(m, i) == SlotOf(m, k) && a[SlotOf(m, i)].size == m.fields[k].tag
  }

  lemma OtherSlots(m: Message, k: nat, i: nat)
    requires k < |m.fields| && i < |m.fields| && i != k && Alone(m, k)
    ensures if i < k then SlotOf(m, i) < SlotOf(m, k) else SlotOf(m, i) > SlotOf(m, k)
  {
    if i < k {
      SlotsAscendBy(m, i, k - 1);
      assert SlotOf(m, k) == SlotOf(m, k - 1) + 1;
    } else {
      assert SlotOf(m, k + 1) == SlotOf(m, k) + 1;
      SlotsAscendBy(m, k + 1, i);
    }
  }

  /** What the shorter structure has for field j. */
  lemma SlotIs(m: Message, a: seq<Slot>, k: nat, j: nat)
    requires k < |m.fields| && j < |m.fields| - 1 && |a| == SlotCount(m)
    ensures SlotOf(m, k) < |a| && SlotOf(m, Up(j, k)) < |a| && SlotOf(Without(m, k), j) < |WithoutSlot(m, a, k)|
    ensures Cleared(m, a, k, Up(j, k)) ==> !Alone(m, k)
    ensures var s := a[SlotOf(m, Up(j, k))];
      WithoutSlot(m, a, k)[SlotOf(Without(m, k), j)] == if Cleared(m, a, k, Up(j, k)) then Slot(0, s.items) else s
  {
    hide *;
    SlotsAscend(m, k, k);
    SlotsAscend(m, Up(j, k), Up(j, k));
    SlotUp(m, k, j);
    if Alone(m, k) {
      OtherSlots(m, k, Up(j, k));
      OrderUp(j, k);
    }
    SlotAt(m, a, k, Up(j, k), SlotOf(Without(m, k), j));
  }

  lemma OrderUp(j: nat, k: nat)
    ensures Up(j, k) < k <==> j < k
  {
  }

  lemma SlotAt(m: Message, a: seq<Slot>, k: nat, i: nat, at: int)
    requires k < |m.fields| && i < |m.fields| && SlotOf(m, k) < |a| && SlotOf(m, i) < |a|
    requires Alone(m, k) ==> SlotOf(m, i) != SlotOf(m, k)
    requires at == SlotOf(m, i) - if Alone(m, k) && SlotOf(m, i) > SlotOf(m, k) then 1 else 0
    ensures 0 <= at < |WithoutSlot(m, a, k)|
    ensures Cleared(m, a, k, i) ==> !Alone(m, k)
    ensures WithoutSlot(m, a, k)[at] == if Cleared(m, a, k, i) then Slot(0, a[SlotOf(m, i)].items) else a[SlotOf(m, i)]
  {
    hide SlotOf, Alone;
  }

  lemma CountUp(m: Message, a: seq<Slot>, k: nat)
    requires k < |m.fields| && |a| == SlotCount(m)
    ensures SlotOf(m, k) < |a| && |WithoutSlot(m, a, k)| == SlotCount(Without(m, k))
  {
    hide *;
    var last := |m.fields| - 1;
    SlotsAscend(m, k, k);
    CountIs(m);
    CountIs(Without(m, k));
    LastSlot(m, last);
    AloneIs(m, k);
    WithoutSize(m, a, k);
    if last > 0 {
      UpBack(last, k);
      UpBack(last - 1, k);
      SlotUp(m, k, last - 1);
    }
  }

  lemma AloneIs(m: Message, k: nat)
    requires k < |m.fields|
    ensures Alone(m, k) <==> !JoinsAt(m, k) && !JoinsAt(m, k + 1)
    ensures !JoinsAt(m, 0)
  {
  }

  lemma WithoutSize(m: Message, a: seq<Slot>, k: nat)
    requires k < |m.fields| && SlotOf(m, k) < |a|
    ensures |WithoutSlot(m, a, k)| == |a| - if Alone(m, k) then 1 else 0
  {
    hide SlotOf, Alone;
  }

  lemma CountIs(m: Message)
    ensures SlotCount(m) == if |m.fields| == 0 then 0 else SlotOf(m, |m.fields| - 1) + 1
  {
    hide SlotOf;
  }

  lemma LastSlot(m: Message, last: nat)
    requires last + 1 == |m.fields|
    ensures SlotOf(m, last) == if last == 0 then 0 else SlotOf(m, last - 1) + if JoinsAt(m, last) then 0 else 1
    ensures !JoinsAt(m, last + 1)
  {
  }

  // ----- Nothing but the layout depends on `joins` -----

  lemma FitsAlike(f: Field, joins: bool, s: Slot)
    ensures WellFormedField(WithJoins(f, joins)) <==> WellFormedField(f)
    ensures FitsSlot(WithJoins(f, joins), s) <==> FitsSlot(f, s)
  {
    var g := WithJoins(f, joins);
    assert forall v :: Fits(g, v) <==> Fits(f, v);
  }

  lemma ItemAlike(f: Field, joins: bool, v: Datum)
    requires Fits(f, v) && Fits(WithJoins(f, joins), v)
    ensures EncodeItem(WithJoins(f, joins), v) == EncodeItem(f, v) && ItemOf(WithJoins(f, joins), v) == ItemOf(f, v)
    ensures (IsDefault(WithJoins(f, joins), v) <==> IsDefault(f, v)) && (Valid(WithJoins(f, joins), v) <==> Valid(f, v))
    ensures Terminated(WithJoins(f, joins), v) <==> Terminated(f, v)
  {
  }

  lemma {:induction false} ItemsAlike(f: Field, joins: bool, items: seq<Datum>)
    requires forall k | 0 <= k < |items| :: Fits(f, items[k]) && Fits(WithJoins(f, joins), items[k])
    ensures EncodePacked(WithJoins(f, joins), items) == EncodePacked(f, items)
    ensures EncodeTagged(WithJoins(f, joins), items) == EncodeTagged(f, items)
    decreases |items|
  {
    if items != [] {
      ItemAlike(f, joins, items[0]);
      hide EncodeItem, Fits;
      ItemsAlike(f, joins, items[1..]);
    }
  }

  lemma FitsItems(f: Field, joins: bool, s: Slot)
    requires FitsSlot(f, s) && FitsSlot(WithJoins(f, joins), s)
    ensures !f.rule.ONEOF? || s.size == f.tag ==>
      forall k | 0 <= k < |s.items| :: Fits(f, s.items[k]) && Fits(WithJoins(f, joins), s.items[k])
  {
    hide Fits;
  }

  lemma SlotAlike(f: Field, joins: bool, s: Slot)
    requires FitsSlot(f, s)
    ensures var g := WithJoins(f, joins);
      && FitsSlot(g, s) && EncodeField(g, s) == EncodeField(f, s) && ViewSlot(g, s) == ViewSlot(f, s)
      && (ValidSlot(g, s) <==> ValidSlot(f, s)) && (TerminatedSlot(g, s) <==> TerminatedSlot(f, s))
  {
    FitsAlike(f, joins, s);
    FitsItems(f, joins, s);
    var g := WithJoins(f, joins);
    hide Fits, EncodeItem, ItemOf, IsDefault, Valid, Terminated;
    if !f.rule.ONEOF? || s.size == f.tag {
      forall k | 0 <= k < |s.items| ensures ItemOf(g, s.items[k]) == ItemOf(f, s.items[k])
        && (Valid(g, s.items[k]) <==> Valid(f, s.items[k])) && (Terminated(g, s.items[k]) <==> Terminated(f, s.items[k]))
        && EncodeItem(g, s.items[k]) == EncodeItem(f, s.items[k]) && (IsDefault(g, s.items[k]) <==> IsDefault(f, s.items[k]))
      {
        ItemAlike(f, joins, s.items[k]);
      }
      assert Present(g, s) == Present(f, s);
      if f.rule.REPEATED? && s.size <= f.arraySize {
        ItemsAlike(f, joins, s.items[..s.size]);
      }
    } else {
      assert Present(g, s) == [] && Present(f, s) == [];
    }
  }

  /** A union that holds another field says nothing of this one, full or empty. */
  lemma ClearedAlike(f: Field, s: Slot)
    requires WellFormedField(f) && FitsSlot(f, s) && f.rule.ONEOF? && s.size != f.tag
    ensures var t := Slot(0, s.items);
      && FitsSlot(f, t) && EncodeField(f, t) == EncodeField(f, s) && ViewSlot(f, t) == ViewSlot(f, s)
      && ValidSlot(f, t) && TerminatedSlot(f, t) && TerminatedSlot(f, s)
  {
    hide Fits, ItemOf, Valid, Terminated, WellFormedField;
    TagInRange(f);
    assert Present(f, Slot(0, s.items)) == [] && Present(f, s) == [];
  }

  // ----- The shorter message says the same of all its fields -----

  ghost predicate SameField(f: Field, s: Slot, g: Field, t: Slot) {
    && FitsSlot(f, s) && FitsSlot(g, t)
    && EncodeField(g, t) == EncodeField(f, s) && ViewSlot(g, t) == ViewSlot(f, s)
    && (ValidSlot(f, s) ==> ValidSlot(g, t)) && (TerminatedSlot(g, t) <==> TerminatedSlot(f, s))
  }

  lemma AlikeIsSame(f: Field, s: Slot, joins: bool, t: Slot)
    requires WellFormedField(f) && FitsSlot(f, s)
    requires t == s || (f.rule.ONEOF? && s.size != f.tag && t == Slot(0, s.items))
    ensures WellFormedField(WithJoins(f, joins)) && SameField(f, s, WithJoins(f, joins), t)
  {
    hide Fits, FitsSlot, EncodeField, ViewSlot, ValidSlot, TerminatedSlot, WellFormedField;
    FitsAlike(f, joins, s);
    if t != s {
      ClearedAlike(f, s);
    }
    SlotAlike(f, joins, t);
  }

  lemma FieldSame(m: Message, a: seq<Slot>, k: nat, j: nat)
    requires WellFormed(m) && FitsMessage(m, a) && k < |m.fields| && j < |m.fields| - 1
    ensures SlotOf(m, k) < |a| && SlotOf(m, Up(j, k)) < |a| && SlotOf(Without(m, k), j) < |WithoutSlot(m, a, k)|
    ensures WellFormedField(Without(m, k).fields[j]) && Without(m, k).fields[j].tag == m.fields[Up(j, k)].tag
    ensures SameField(m.fields[Up(j, k)], a[SlotOf(m, Up(j, k))], Without(m, k).fields[j], WithoutSlot(m, a, k)[SlotOf(Without(m, k), j)])
  {
    var i := Up(j, k);
    FieldUp(m, k, j);
    SlotIs(m, a, k, j);
    assert WellFormedField(m.fields[i]) && FitsSlot(m.fields[i], a[SlotOf(m, i)]) && m.fields[i].tag != m.fields[k].tag;
    var joins :| Without(m, k).fields[j] == WithJoins(m.fields[i], joins);
    if Cleared(m, a, k, i) {
      SharedSlot(m, if i < k then i else k, if i < k then k else i);
    }
    hide WellFormed, FitsMessage, Without, WithoutSlot, SlotOf, FitsSlot, WellFormedField, SameField, WithJoins, Alone;
    AlikeIsSame(m.fields[i], a[SlotOf(m, i)], joins, WithoutSlot(m, a, k)[SlotOf(Without(m, k), j)]);
  }

  lemma MakeWellFormed(m: Message, n: Message, k: nat)
    requires WellFormed(m) && k < |m.fields| && |n.fields| == |m.fields| - 1
    requires forall j | 0 <= j < |n.fields| :: WellFormedField(n.fields[j]) && n.fields[j].tag == m.fields[Up(j, k)].tag
    ensures WellFormed(n) && IndexOf(n, m.fields[k].tag).None?
  {
    hide WellFormedField;
    assert forall i, j | 0 <= i < j < |n.fields| :: Up(i, k) < Up(j, k) && Up(i, k) != k;
    if n.fields != [] {
      assert Up(|n.fields| - 1, k) != k;
    }
  }

  lemma MakeFits(n: Message, b: seq<Slot>)
    requires |b| == SlotCount(n)
    requires forall j | 0 <= j < |n.fields| :: SlotOf(n, j) < |b| && FitsSlot(n.fields[j], b[SlotOf(n, j)])
    ensures FitsMessage(n, b)
  {
    hide FitsSlot, SlotOf;
  }

  lemma SizeFits(m: Message, a: seq<Slot>)
    requires FitsMessage(m, a)
    ensures |a| == SlotCount(m)
  {
    hide FitsSlot, SlotOf;
  }

  lemma SameFits(f: Field, s: Slot, g: Field, t: Slot)
    requires SameField(f, s, g, t)
    ensures FitsSlot(f, s) && FitsSlot(g, t) && EncodeField(g, t) == EncodeField(f, s) && ViewSlot(g, t) == ViewSlot(f, s)
    ensures (ValidSlot(f, s) ==> ValidSlot(g, t)) && (TerminatedSlot(g, t) <==> TerminatedSlot(f, s))
  {
  }

  lemma ShorterFits(m: Message, a: seq<Slot>, k: nat)
    requires WellFormed(m) && FitsMessage(m, a) && k < |m.fields|
    ensures WellFormed(Without(m, k)) && IndexOf(Without(m, k), m.fields[k].tag).None?
    ensures SlotOf(m, k) < |a| && FitsMessage(Without(m, k), WithoutSlot(m, a, k))
  {
    hide *;
    var n := Without(m, k);
    SizeFits(m, a);
    CountUp(m, a, k);
    forall j | 0 <= j < |n.fields|
      ensures WellFormedField(n.fields[j]) && n.fields[j].tag == m.fields[Up(j, k)].tag
      ensures SlotOf(n, j) < |WithoutSlot(m, a, k)| && FitsSlot(n.fields[j], WithoutSlot(m, a, k)[SlotOf(n, j)])
    {
      FieldSame(m, a, k, j);
      SameFits(m.fields[Up(j, k)], a[SlotOf(m, Up(j, k))], n.fields[j], WithoutSlot(m, a, k)[SlotOf(n, j)]);
    }
    MakeWellFormed(m, n, k);
    MakeFits(n, WithoutSlot(m, a, k));
  }

  lemma UnionUp(m: Message, a: seq<Slot>, k: nat, j: nat)
    requires WellFormed(m) && FitsMessage(m, a) && k < |m.fields| && j < |m.fields| - 1 && UnionSound(m, a, Up(j, k))
    requires WellFormed(Without(m, k)) && SlotOf(m, k) < |a| && FitsMessage(Without(m, k), WithoutSlot(m, a, k))
    ensures UnionSound(Without(m, k), WithoutSlot(m, a, k), j)
  {
    hide *;
    var n, b, i := Without(m, k), WithoutSlot(m, a, k), Up(j, k);
    SizeFits(m, a);
    SizeFits(n, b);
    FieldUp(m, k, j);
    SlotIs(m, a, k, j);
    UnionIs(n, b, j);
    if m.fields[i].rule.ONEOF? && !Cleared(m, a, k, i) && a[SlotOf(m, i)].size != 0 {
      var h := UnionHolds(m, a, i);
      ClearedIs(m, a, k, i);
      var q := if h < k then h else h - 1;
      UpBack(h, k);
      FieldUp(m, k, q);
      SlotUp(m, k, q);
      SlotUp(m, k, j);
      OnlyIndex(n, q);
      OrderUp(q, k);
      OrderUp(j, k);
      if Alone(m, k) {
        OtherSlots(m, k, h);
        OtherSlots(m, k, i);
      }
    }
  }

  lemma ClearedIs(m: Message, a: seq<Slot>, k: nat, i: nat)
    requires k < |m.fields| && i < |m.fields| && SlotOf(m, i) < |a|
    ensures Cleared(m, a, k, i) <==> SlotOf(m, i) == SlotOf(m, k) && a[SlotOf(m, i)].size == m.fields[k].tag
  {
  }

  lemma UnionIs(m: Message, a: seq<Slot>, i: nat)
    requires FitsMessage(m, a) && i < |m.fields| && SlotOf(m, i) < |a|
    ensures UnionSound(m, a, i) <==> (m.fields[i].rule.ONEOF? && a[SlotOf(m, i)].size != 0 ==>
      IndexOf(m, a[SlotOf(m, i)].size).Some? && SlotOf(m, IndexOf(m, a[SlotOf(m, i)].size).value) == SlotOf(m, i))
  {
    hide SlotOf, FitsMessage, IndexOf;
  }

  /** The field that a union holds. */
  lemma UnionHolds(m: Message, a: seq<Slot>, i: nat) returns (h: nat)
    requires FitsMessage(m, a) && i < |m.fields| && SlotOf(m, i) < |a| && UnionSound(m, a, i)
    requires m.fields[i].rule.ONEOF? && a[SlotOf(m, i)].size != 0
    ensures h < |m.fields| && m.fields[h].tag == a[SlotOf(m, i)].size && SlotOf(m, h) == SlotOf(m, i)
  {
    hide SlotOf, FitsMessage;
    h := IndexOf(m, a[SlotOf(m, i)].size).value;
  }

  lemma ShorterIsValid(m: Message, a: seq<Slot>, k: nat)
    requires WellFormed(m) && FitsMessage(m, a) && ValidMessage(m, a) && k < |m.fields|
    requires WellFormed(Without(m, k)) && SlotOf(m, k) < |a| && FitsMessage(Without(m, k), WithoutSlot(m, a, k))
    ensures ValidMessage(Without(m, k), WithoutSlot(m, a, k))
  {
    var n := Without(m, k);
    assert forall i | 0 <= i < |m.fields| :: UnionSound(m, a, i) && ValidSlot(m.fields[i], a[SlotOf(m, i)]);
    hide WellFormed, FitsMessage, Without, WithoutSlot, SlotOf, UnionSound, ValidSlot;
    forall j | 0 <= j < |n.fields|
      ensures UnionSound(n, WithoutSlot(m, a, k), j) && ValidSlot(n.fields[j], WithoutSlot(m, a, k)[SlotOf(n, j)])
    {
      UnionUp(m, a, k, j);
      FieldSame(m, a, k, j);
    }
  }

  /** The longer message is written as the shorter one with field k in between. */
  lemma {:induction false} EncodeFromUp(m: Message, a: seq<Slot>, k: nat, i: nat)
    requires WellFormed(m) && FitsMessage(m, a) && k < |m.fields| && i <= |m.fields|
    requires SlotOf(m, k) < |a| && FitsMessage(Without(m, k), WithoutSlot(m, a, k))
    requires FitsSlot(m.fields[k], a[SlotOf(m, k)])
    ensures var n, b := Without(m, k), WithoutSlot(m, a, k);
      && (i <= k ==> EncodeFrom(m, a, i) == EncodeAround(n, b, i, k, EncodeField(m.fields[k], a[SlotOf(m, k)])))
      && (i > k ==> EncodeFrom(m, a, i) == EncodeFrom(n, b, i - 1))
    decreases |m.fields| - i
  {
    hide *;
    var n, b := Without(m, k), WithoutSlot(m, a, k);
    var unknown := EncodeField(m.fields[k], a[SlotOf(m, k)]);
    if i == |m.fields| {
      EncodeEnds(m, a);
      EncodeEnds(n, b);
    } else {
      EncodeFromUp(m, a, k, i + 1);
      EncodeStep(m, a, i);
      if i == k {
        AroundAt(n, b, k, unknown);
      } else {
        var j := if i < k then i else i - 1;
        UpBack(i, k);
        FieldSame(m, a, k, j);
        SameFits(m.fields[i], a[SlotOf(m, i)], n.fields[j], b[SlotOf(n, j)]);
        if i < k {
          AroundStep(n, b, j, k, unknown);
        } else {
          EncodeStep(n, b, j);
        }
      }
    }
  }

  lemma UpBack(i: nat, k: nat)
    ensures i < k ==> Up(i, k) == i
    ensures i > k ==> Up(i - 1, k) == i
  {
  }

  lemma AroundAt(n: Message, b: seq<Slot>, k: nat, unknown: Option<Bytes>)
    requires FitsMessage(n, b) && k <= |n.fields|
    ensures EncodeAround(n, b, k, k, unknown) == Then(unknown, EncodeFrom(n, b, k))
  {
    hide EncodeFrom;
  }

  lemma AroundStep(n: Message, b: seq<Slot>, j: nat, k: nat, unknown: Option<Bytes>)
    requires FitsMessage(n, b) && j < k <= |n.fields|
    ensures SlotOf(n, j) < |b| && FitsSlot(n.fields[j], b[SlotOf(n, j)])
    ensures EncodeAround(n, b, j, k, unknown)
         == Then(EncodeField(n.fields[j], b[SlotOf(n, j)]), EncodeAround(n, b, j + 1, k, unknown))
  {
    hide EncodeField, FitsSlot, SlotOf;
  }

  lemma EncodeEnds(m: Message, a: seq<Slot>)
    requires FitsMessage(m, a)
    ensures EncodeFrom(m, a, |m.fields|) == Some([])
  {
  }

  lemma EncodeStep(m: Message, a: seq<Slot>, i: nat)
    requires FitsMessage(m, a) && i < |m.fields|
    ensures SlotOf(m, i) < |a| && FitsSlot(m.fields[i], a[SlotOf(m, i)])
    ensures EncodeFrom(m, a, i) == Then(EncodeField(m.fields[i], a[SlotOf(m, i)]), EncodeFrom(m, a, i + 1))
  {
    hide EncodeField, FitsSlot, SlotOf;
  }

  lemma SkippedHere(n: Message, f: Field, x: Slot)
    requires WellFormed(n) && WellFormedField(f) && IndexOf(n, f.tag).None? && FitsSlot(f, x)
    requires EncodeField(f, x).Some? && |EncodeField(f, x).value| < Coding.LIMIT32
    ensures Skips(n, EncodeField(f, x).value)
  {
    hide WellFormed, WellFormedField, FitsSlot, FitsMessage, EncodeField, DecodeFields, IndexOf;
    forall d: seq<Slot>, seen: set<nat>, rest: Bytes | FitsMessage(n, d)
      ensures DecodeFields(n, d, seen, EncodeField(f, x).value + rest) == DecodeFields(n, d, seen, rest)
    {
      FieldSkips(n, d, seen, f, x, rest);
    }
  }

  ghost predicate OthersTerminated(m: Message, a: seq<Slot>, k: nat)
    requires FitsMessage(m, a)
  {
    forall i | 0 <= i < |m.fields| && i != k :: TerminatedSlot(m.fields[i], a[SlotOf(m, i)])
  }

  lemma TerminatedIs(n: Message, b: seq<Slot>)
    requires FitsMessage(n, b)
    ensures TerminatedFrom(n, b, 0) <==> forall j | 0 <= j < |n.fields| :: TerminatedAt(n, b, j)
  {
    hide TerminatedSlot, FitsSlot, SlotOf;
    if forall j | 0 <= j < |n.fields| :: TerminatedAt(n, b, j) {
      forall j | 0 <= j < |n.fields| ensures TerminatedSlot(n.fields[j], b[SlotOf(n, j)]) {
        assert TerminatedAt(n, b, j);
      }
    }
  }

  ghost predicate TerminatedAt(n: Message, b: seq<Slot>, j: nat)
    requires FitsMessage(n, b) && j < |n.fields|
  {
    TerminatedSlot(n.fields[j], b[SlotOf(n, j)])
  }

  lemma TerminatedUp(m: Message, a: seq<Slot>, k: nat, j: nat)
    requires WellFormed(m) && FitsMessage(m, a) && k < |m.fields| && j < |m.fields| - 1
    requires SlotOf(m, k) < |a| && FitsMessage(Without(m, k), WithoutSlot(m, a, k))
    ensures TerminatedAt(Without(m, k), WithoutSlot(m, a, k), j) <==> TerminatedAt(m, a, Up(j, k))
  {
    hide WellFormed, FitsMessage, Without, WithoutSlot, SlotOf, TerminatedSlot, SameField, FitsSlot;
    FieldSame(m, a, k, j);
    SameFits(m.fields[Up(j, k)], a[SlotOf(m, Up(j, k))], Without(m, k).fields[j], WithoutSlot(m, a, k)[SlotOf(Without(m, k), j)]);
  }

  lemma OthersUp(m: Message, a: seq<Slot>, k: nat)
    requires WellFormed(m) && FitsMessage(m, a) && k < |m.fields|
    requires SlotOf(m, k) < |a| && FitsMessage(Without(m, k), WithoutSlot(m, a, k))
    ensures TerminatedFrom(Without(m, k), WithoutSlot(m, a, k), 0) <==> OthersTerminated(m, a, k)
  {
    OthersAre(m, a, k);
    hide *;
    var n, b := Without(m, k), WithoutSlot(m, a, k);
    TerminatedIs(n, b);
    forall i | 0 <= i < |m.fields| && i != k && (forall j | 0 <= j < |n.fields| :: TerminatedAt(n, b, j)) ensures TerminatedAt(m, a, i) {
      var j := if i < k then i else i - 1;
      UpBack(i, k);
      TerminatedUp(m, a, k, j);
    }
    forall j | 0 <= j < |n.fields| && (forall i | 0 <= i < |m.fields| && i != k :: TerminatedAt(m, a, i)) ensures TerminatedAt(n, b, j) {
      TerminatedUp(m, a, k, j);
    }
  }

  lemma OthersAre(m: Message, a: seq<Slot>, k: nat)
    requires FitsMessage(m, a)
    ensures OthersTerminated(m, a, k) <==> forall i | 0 <= i < |m.fields| && i != k :: TerminatedAt(m, a, i)
  {
    hide TerminatedSlot, FitsSlot, SlotOf;
    if forall i | 0 <= i < |m.fields| && i != k :: TerminatedAt(m, a, i) {
      forall i | 0 <= i < |m.fields| && i != k ensures TerminatedSlot(m.fields[i], a[SlotOf(m, i)]) {
        assert TerminatedAt(m, a, i);
      }
    }
  }

  /** A decoder whose descriptor lacks a field reads a message that has it: it
      succeeds exactly when the strings of the other fields are terminated, and
      says the same of all of them. */
  lemma LackingFieldIsSkipped(m: Message, a: seq<Slot>, k: nat, d: seq<Slot>)
    requires WellFormed(m) && FitsMessage(m, a) && ValidMessage(m, a) && k < |m.fields|
    requires EncodeMessage(m, a).Some? && |EncodeMessage(m, a).value| < Coding.LIMIT32
    requires WellFormed(Without(m, k)) && FitsMessage(Without(m, k), d)
    ensures var n := Without(m, k);
      var r := DecodeMessage(n, d, EncodeMessage(m, a).value);
      && (r.Some? <==> OthersTerminated(m, a, k))
      && (r.Some? ==> forall j | 0 <= j < |m.fields| - 1 :: SaidUp(m, a, k, r.value, j))
  {
    var n, b, start := Without(m, k), WithoutSlot(m, a, k), SetDefaultsFrom(Without(m, k), d, 0);
    Here(m, a, k);
    var unknown := EncodeField(m.fields[k], a[SlotOf(m, k)]);
    assert EncodeMessage(m, a) == EncodeFrom(m, a, 0);
    var e := EncodeMessage(m, a).value;
    var r := DecodeMessage(n, d, e);
    assert r == DecodeFields(n, start, {}, e);
    hide *;
    ShorterFits(m, a, k);
    ShorterIsValid(m, a, k);
    EncodeFromUp(m, a, k, 0);
    MessageDefaultsAreFresh(n, d);
    FreshAwaits(n, start);
    PieceIsShorter(n, b, 0, k, unknown);
    SkippedHere(n, m.fields[k], a[SlotOf(m, k)]);
    FieldsReadAround(n, b, start, 0, {}, k, unknown);
    OthersUp(m, a, k);
    SaidBySame(m, a, k, r);
  }

  lemma {:induction false} PieceIsShorter(n: Message, b: seq<Slot>, j: nat, k: nat, unknown: Option<Bytes>)
    requires FitsMessage(n, b) && j <= k <= |n.fields| && EncodeAround(n, b, j, k, unknown).Some?
    ensures unknown.Some? && |unknown.value| <= |EncodeAround(n, b, j, k, unknown).value|
    decreases k - j
  {
    hide *;
    if j == k {
      AroundEnds(n, b, k, unknown);
    } else {
      AroundSplits(n, b, j, k, unknown);
      PieceIsShorter(n, b, j + 1, k, unknown);
    }
  }

  lemma SaidBySame(m: Message, a: seq<Slot>, k: nat, r: Option<seq<Slot>>)
    requires WellFormed(m) && FitsMessage(m, a) && k < |m.fields|
    requires SlotOf(m, k) < |a| && FitsMessage(Without(m, k), WithoutSlot(m, a, k))
    requires r.Some? ==> FitsMessage(Without(m, k), r.value)
    requires FieldsSaySame(Without(m, k), WithoutSlot(m, a, k), 0, r)
    ensures r.Some? <==> TerminatedFrom(Without(m, k), WithoutSlot(m, a, k), 0)
    ensures r.Some? ==> forall j | 0 <= j < |m.fields| - 1 :: SaidUp(m, a, k, r.value, j)
  {
    SaidBy(Without(m, k), WithoutSlot(m, a, k), r);
    hide *;
    if r.Some? {
      forall j | 0 <= j < |m.fields| - 1 ensures SaidUp(m, a, k, r.value, j) {
        SaidAt(m, a, k, r.value, j);
      }
    }
  }

  /** Field j of the result says what its field of the longer message says. */
  ghost predicate SaidUp(m: Message, a: seq<Slot>, k: nat, r: seq<Slot>, j: nat)
    requires FitsMessage(m, a) && k < |m.fields| && j < |m.fields| - 1 && FitsMessage(Without(m, k), r)
  {
    var n, i := Without(m, k), Up(j, k);
    ViewSlot(n.fields[j], r[SlotOf(n, j)]) == ViewSlot(m.fields[i], a[SlotOf(m, i)])
  }

  ghost predicate SaysAt(n: Message, b: seq<Slot>, r: seq<Slot>, j: nat)
    requires FitsMessage(n, b) && FitsMessage(n, r) && j < |n.fields|
  {
    ViewSlot(n.fields[j], r[SlotOf(n, j)]) == ViewSlot(n.fields[j], b[SlotOf(n, j)])
  }

  lemma SaidBy(n: Message, b: seq<Slot>, r: Option<seq<Slot>>)
    requires FitsMessage(n, b) && (r.Some? ==> FitsMessage(n, r.value)) && FieldsSaySame(n, b, 0, r)
    ensures r.Some? <==> TerminatedFrom(n, b, 0)
    ensures r.Some? ==> forall j | 0 <= j < |n.fields| :: SaysAt(n, b, r.value, j)
  {
    hide ViewSlot, FitsSlot, SlotOf, TerminatedFrom, UnionSound, ValidSlot;
  }

  lemma SaidAt(m: Message, a: seq<Slot>, k: nat, r: seq<Slot>, j: nat)
    requires WellFormed(m) && FitsMessage(m, a) && k < |m.fields| && j < |m.fields| - 1
    requires SlotOf(m, k) < |a| && FitsMessage(Without(m, k), WithoutSlot(m, a, k)) && FitsMessage(Without(m, k), r)
    requires SaysAt(Without(m, k), WithoutSlot(m, a, k), r, j)
    ensures SaidUp(m, a, k, r, j)
  {
    hide WellFormed, FitsMessage, Without, WithoutSlot, SlotOf, SameField, FitsSlot, ViewSlot;
    FieldSame(m, a, k, j);
    SameFits(m.fields[Up(j, k)], a[SlotOf(m, Up(j, k))], Without(m, k).fields[j], WithoutSlot(m, a, k)[SlotOf(Without(m, k), j)]);
  }

  // ----- What does not fit is refused -----

  /** Bytes of any length, as another version may have them: which are taken. */
  lemma LengthDecides(f: Field, old_: Datum, data: Bytes, rest: Bytes)
    requires WellFormedField(f) && Fits(f, old_) && |data| < Coding.LIMIT32
    ensures var r := DecodeItem(f, old_, Coding.LengthPrefixed(data) + rest);
      && (f.kind.BYTES? ==> (r.Some? <==> |data| <= f.dataSize - 4))
      && (f.kind.STRING? ==> (r.Some? <==> |data| < f.dataSize))
      && (f.kind.FIXED_LENGTH_BYTES? ==> (r.Some? <==> |data| == 0 || |data| == f.dataSize))
  {
    DelimitedRoundTrip(data, rest);
    hide Delimited, Coding.LengthPrefixed;
  }

  /** A packed array with more items than there is room for. */
  lemma {:induction false} OverfullIsRefused(f: Field, slot: Slot, items: seq<Datum>)
    requires WellFormedField(f) && f.rule.REPEATED? && Packable(f.kind) && FitsSlot(f, slot) && slot.size <= f.arraySize
    requires (forall k | 0 <= k < |items| :: Fits(f, items[k])) && EncodePacked(f, items).Some?
    requires slot.size + |items| > f.arraySize
    ensures DecodePacked(f, slot, EncodePacked(f, items).value) == None
    decreases |items|
  {
    var e := EncodeItem(f, items[0]).value;
    var rest := EncodePacked(f, items[1..]).value;
    assert EncodePacked(f, items).value == e + rest;
    hide EncodeItem, DecodeItem, EncodePacked, WellFormedField, Fits;
    if slot.size < f.arraySize {
      NumberReads(f, items[0], slot.items[slot.size], rest);
      assert (e + rest)[|e|..] == rest;
      OverfullIsRefused(f, Slot(slot.size + 1, slot.items[slot.size := items[0]]), items[1..]);
    }
    NumberReads(f, items[0], items[0], rest);
  }

  /** The deprecated groups and the codes that are not assigned. */
  lemma OtherWireTypes(wire: nat, s: Bytes)
    requires wire !in {0, 1, 2, 5}
    ensures SkippedField(wire, s) == None
  {
  }

  // ----- The bytes of a field, for each wire type -----

  function PlainField(kind: Kind, dataSize: nat): Field {
    Field(1, kind, REQUIRED, false, dataSize, 0, Message([]), None)
  }

  /** Field 1 as an int32, a fixed64, a string and a fixed32. */
  lemma FieldBytes()
    ensures EncodeOne(PlainField(VARINT, 4), Number(150)) == Some([0x08, 0x96, 0x01])
    ensures EncodeOne(PlainField(FIXED64, 8), Number(0x0807_0605_0403_0201)) == Some([0x09, 1, 2, 3, 4, 5, 6, 7, 8])
    ensures EncodeOne(PlainField(STRING, 3), Chars([0x68, 0x69, 0])) == Some([0x0A, 0x02, 0x68, 0x69])
    ensures EncodeOne(PlainField(FIXED32, 4), Number(0x0403_0201)) == Some([0x0D, 1, 2, 3, 4])
  {
    Coding.SomeBytes();
    Coding.VarintOfByte(0x08);
    Coding.VarintOfByte(0x09);
    Coding.VarintOfByte(0x0A);
    Coding.VarintOfByte(0x0D);
    HiThere();
    hide Coding.Varint, Coding.Fixed32, Coding.Fixed64, Coding.LengthPrefixed, UpToNul;
    var a, b, c, d := Coding.Varint(0x08), Coding.Varint(0x09), Coding.Varint(0x0A), Coding.Varint(0x0D);
    assert a + [0x96, 0x01] == [0x08, 0x96, 0x01] && d + [1, 2, 3, 4] == [0x0D, 1, 2, 3, 4];
    assert b + [1, 2, 3, 4, 5, 6, 7, 8] == [0x09, 1, 2, 3, 4, 5, 6, 7, 8];
    assert c + [2, 0x68, 0x69] == [0x0A, 0x02, 0x68, 0x69];
  }

  lemma HiThere()
    ensures UpToNul([0x68, 0x69, 0]) == [0x68, 0x69]
  {
    var chars: Bytes := [0x68, 0x69, 0];
    assert chars[1..] == [0x69, 0] && chars[1..][1..] == [0];
    assert UpToNul(chars[1..][1..]) == [];
    assert UpToNul(chars[1..]) == [0x69];
  }

  /** Field 1 as a negative int32, a sint32, and bytes. */
  lemma MoreFieldBytes()
    ensures EncodeOne(PlainField(VARINT, 4), Number(-1))
      == Some([0x08, 0xff, 0xff, 0xff, 0xff, 0xff, 0xff, 0xff, 0xff, 0xff, 0x01])
    ensures EncodeOne(PlainField(SVARINT, 4), Number(-3)) == Some([0x08, 0x05])
    ensures EncodeOne(PlainField(BYTES, 7), Counted(2, [0x68, 0x69, 7])) == Some([0x0A, 0x02, 0x68, 0x69])
  {
    Coding.SomeBytes();
    Coding.VarintOfByte(5);
    Coding.VarintOfByte(0x08);
    Coding.VarintOfByte(0x0A);
    MinusOne();
    hide Coding.Varint, Coding.LengthPrefixed;
    var a, b, all := Coding.Varint(0x08), Coding.Varint(0x0A), Coding.Varint(0xffff_ffff_ffff_ffff);
    assert a + all == [0x08, 0xff, 0xff, 0xff, 0xff, 0xff, 0xff, 0xff, 0xff, 0xff, 0x01];
    assert a + [0x05] == [0x08, 0x05] && b + [2, 0x68, 0x69] == [0x0A, 0x02, 0x68, 0x69];
    assert [0x68, 0x69, 7][..2] == [0x68, 0x69];
  }

  /** An array of the numbers 3 and 150: packed, and one by one. */
  lemma ArrayBytes()
    ensures EncodePacked(PlainField(VARINT, 4), [Number(3), Number(150)]) == Some([0x03, 0x96, 0x01])
    ensures EncodeTagged(PlainField(VARINT, 4), [Number(3), Number(150)]) == Some([0x08, 0x03, 0x08, 0x96, 0x01])
  {
    Coding.SomeBytes();
    Coding.VarintOfByte(3);
    Coding.VarintOfByte(0x08);
    var f, items := PlainField(VARINT, 4), [Number(3), Number(150)];
    assert items[1..] == [Number(150)] && items[1..][1..] == [];
    hide Coding.Varint;
    assert TagBytes(1, WT_VARINT) == [0x08];
    assert EncodeItem(f, Number(3)) == Some([0x03]) && EncodeItem(f, Number(150)) == Some([0x96, 0x01]);
    hide EncodeItem, TagBytes;
    assert EncodePacked(f, [Number(150)]) == Some([0x96, 0x01] + []);
    assert EncodeTagged(f, [Number(150)]) == Some([0x08] + ([0x96, 0x01] + []));
    assert [0x96, 0x01] + [] == [0x96, 0x01] && [0x08] + [0x96, 0x01] == [0x08, 0x96, 0x01];
    assert [0x03] + [0x96, 0x01] == [0x03, 0x96, 0x01];
    assert [0x08] + ([0x03] + [0x08, 0x96, 0x01]) == [0x08, 0x03, 0x08, 0x96, 0x01];
  }

  lemma MinusOne()
    ensures Coding.Varint(0xffff_ffff_ffff_ffff) == [0xff, 0xff, 0xff, 0xff, 0xff, 0xff, 0xff, 0xff, 0xff, 0x01]
  {
    hide Coding.Varint;
    PbVarint.AllOnes();
    PbVarint.Peel(0xffff_ffff_ffff_ffff);
    PbVarint.Peel(0x1ff_ffff_ffff_ffff);
    PbVarint.Peel(0x3_ffff_ffff_ffff);
    PbVarint.Peel(0x7ff_ffff_ffff);
    PbVarint.Peel(0xf_ffff_ffff);
  }

  /** A proto3 field at its default value is not written. */
  lemma DefaultsAreAbsent()
    ensures EncodeField(PlainField(VARINT, 4).(rule := SINGULAR), Slot(0, [Number(0)])) == Some([])
    ensures EncodeField(PlainField(STRING, 3).(rule := SINGULAR), Slot(0, [Chars([0, 0x68, 0])])) == Some([])
  {
  }
}
