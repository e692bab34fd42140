/** VersionEdit: one record of the manifest, as bytes. */
module VersionEdits {
  import opened DbFormat
  import opened Coding

  datatype FileMeta = FileMeta(number: nat, size: nat, smallest: Bytes, largest: Bytes)

  /** `deleted` is the std::set of level and number, in its order. */
  datatype VersionEdit = VersionEdit(
    comparator: Option<Bytes>, logNumber: Option<nat>, prevLogNumber: Option<nat>, nextFileNumber: Option<nat>,
    lastSequence: Option<nat>, compactPointers: seq<(nat, Bytes)>, deleted: seq<(nat, nat)>, newFiles: seq<(nat, FileMeta)>)

  const CLEAR := VersionEdit(None, None, None, None, None, [], [], [])

  const TAG_COMPARATOR := 1
  const TAG_LOG_NUMBER := 2
  const TAG_NEXT_FILE_NUMBER := 3
  const TAG_LAST_SEQUENCE := 4
  const TAG_COMPACT_POINTER := 5
  const TAG_DELETED_FILE := 6
  const TAG_NEW_FILE := 7
  const TAG_PREV_LOG_NUMBER := 9

  predicate PairBefore(a: (nat, nat), b: (nat, nat)) {
    a.0 < b.0 || (a.0 == b.0 && a.1 < b.1)
  }

  /** std::set insertion. */
  function InsertPair(s: seq<(nat, nat)>, x: (nat, nat)): seq<(nat, nat)> {
    if s == [] then [x]
    else if PairBefore(s[0], x) then [s[0]] + InsertPair(s[1..], x)
    else if PairBefore(x, s[0]) then [x] + s
    else s
  }

  ghost predicate Ascending(s: seq<(nat, nat)>) {
    forall i, j | 0 <= i < j < |s| :: PairBefore(s[i], s[j])
  }

  lemma {:induction false} InsertLast(s: seq<(nat, nat)>, x: (nat, nat))
    requires Ascending(s + [x])
    ensures InsertPair(s, x) == s + [x]
  {
    if s != [] {
      assert (s + [x])[|s|] == x && (s + [x])[0] == s[0];
      assert (s + [x])[1..] == s[1..] + [x];
      InsertLast(s[1..], x);
    }
  }

  // ----- One field -----

  datatype Item =
    | Comparator(name: Bytes)
    | LogNumber(n: nat)
    | PrevLogNumber(n: nat)
    | NextFileNumber(n: nat)
    | LastSequence(n: nat)
    | CompactPointer(level: nat, key: Bytes)
    | DeletedFile(level: nat, n: nat)
    | NewFile(level: nat, file: FileMeta)

  ghost predicate ItemFits(i: Item) {
    match i
    case Comparator(name) => |name| < LIMIT32
    case LogNumber(n) => n < LIMIT64
    case PrevLogNumber(n) => n < LIMIT64
    case NextFileNumber(n) => n < LIMIT64
    case LastSequence(n) => n < LIMIT64
    case CompactPointer(level, key) => level < NUM_LEVELS && |key| < LIMIT32
    case DeletedFile(level, n) => level < NUM_LEVELS && n < LIMIT64
    case NewFile(level, f) =>
      level < NUM_LEVELS && f.number < LIMIT64 && f.size < LIMIT64 && |f.smallest| < LIMIT32 && |f.largest| < LIMIT32
  }

  function TagOf(i: Item): nat {
    match i
    case Comparator(_) => TAG_COMPARATOR
    case LogNumber(_) => TAG_LOG_NUMBER
    case PrevLogNumber(_) => TAG_PREV_LOG_NUMBER
    case NextFileNumber(_) => TAG_NEXT_FILE_NUMBER
    case LastSequence(_) => TAG_LAST_SEQUENCE
    case CompactPointer(_, _) => TAG_COMPACT_POINTER
    case DeletedFile(_, _) => TAG_DELETED_FILE
    case NewFile(_, _) => TAG_NEW_FILE
  }

  /** The part of a field after its tag. */
  function Body(i: Item): Bytes {
    match i
    case Comparator(name) => LengthPrefixed(name)
    case LogNumber(n) => Varint(n)
    case PrevLogNumber(n) => Varint(n)
    case NextFileNumber(n) => Varint(n)
    case LastSequence(n) => Varint(n)
    case CompactPointer(level, key) => Varint(level) + LengthPrefixed(key)
    case DeletedFile(level, n) => Varint(level) + Varint(n)
    case NewFile(level, f) =>
      Varint(level) + (Varint(f.number) + (Varint(f.size) + (LengthPrefixed(f.smallest) + LengthPrefixed(f.largest))))
  }

  function ItemBytes(i: Item): Bytes {
    Varint(TagOf(i)) + Body(i)
  }

  lemma SmallVarints()
    ensures Varint(0) == [0] && Varint(1) == [1] && Varint(2) == [2] && Varint(3) == [3] && Varint(4) == [4] && Varint(5) == [5]
    ensures Varint(6) == [6] && Varint(7) == [7] && Varint(8) == [8] && Varint(9) == [9] && Varint(10) == [10] && Varint(100) == [100]
  {
  }

  /** One field of each kind as bytes. */
  lemma FieldBytes()
    ensures ItemBytes(Comparator([0x63])) == [1, 1, 0x63]
    ensures ItemBytes(LogNumber(9)) == [2, 9] && ItemBytes(NextFileNumber(10)) == [3, 10]
    ensures ItemBytes(LastSequence(8)) == [4, 8] && ItemBytes(PrevLogNumber(0)) == [9, 0]
    ensures ItemBytes(CompactPointer(1, [0x6B])) == [5, 1, 1, 0x6B] && ItemBytes(DeletedFile(2, 8)) == [6, 2, 8]
  {
    ShortPrefix([0x63]);
    ShortPrefix([0x6B]);
    SmallVarints();
    hide Varint, LengthPrefixed;
  }

  lemma NewFileBytes()
    ensures ItemBytes(NewFile(0, FileMeta(3, 100, [0x61], [0x62]))) == [7, 0, 3, 100, 1, 0x61, 1, 0x62]
  {
    ShortPrefix([0x61]);
    ShortPrefix([0x62]);
    SmallVarints();
    hide Varint, LengthPrefixed;
    var last := LengthPrefixed([0x61]) + LengthPrefixed([0x62]);
    assert last == [1, 0x61, 1, 0x62];
    assert Varint(3) + (Varint(100) + last) == [3, 100, 1, 0x61, 1, 0x62];
  }

  // ----- Parsing: a value and what is left of the input -----

  function Take32(s: Bytes): (r: Option<(nat, Bytes)>)
    ensures r.Some? ==> |r.value.1| < |s|
  {
    var v := GetVarint(s, 5);
    if v.None? then None else Some((v.value.0 % LIMIT32, s[v.value.1..]))
  }

  function Take64(s: Bytes): (r: Option<(nat, Bytes)>)
    ensures r.Some? ==> |r.value.1| < |s|
  {
    var v := GetVarint(s, 10);
    if v.None? then None else Some((v.value.0 % LIMIT64, s[v.value.1..]))
  }

  function TakeSlice(s: Bytes): (r: Option<(Bytes, Bytes)>)
    ensures r.Some? ==> |r.value.1| <= |s|
  {
    var v := GetLengthPrefixed(s);
    if v.None? || v.value.1 > |s| then None else Some((v.value.0, s[v.value.1..]))
  }

  function TakeLevel(s: Bytes): (r: Option<(nat, Bytes)>)
    ensures r.Some? ==> |r.value.1| < |s|
  {
    var v := Take32(s);
    if v.None? || v.value.0 >= NUM_LEVELS then None else v
  }

  lemma Take32Back(v: nat, rest: Bytes)
    requires v < LIMIT32
    ensures Take32(Varint(v) + rest) == Some((v, rest))
  {
    hide Varint, GetVarint;
    Sizes();
    VarintLength(v, 5);
    VarintRoundTrip(v, rest, 5);
  }

  lemma Take64Back(v: nat, rest: Bytes)
    requires v < LIMIT64
    ensures Take64(Varint(v) + rest) == Some((v, rest))
  {
    hide Varint, GetVarint;
    Sizes();
    VarintLength(v, 10);
    VarintRoundTrip(v, rest, 10);
  }

  lemma TakeSliceBack(s: Bytes, rest: Bytes)
    requires |s| < LIMIT32
    ensures TakeSlice(LengthPrefixed(s) + rest) == Some((s, rest))
  {
    hide LengthPrefixed, GetLengthPrefixed;
    LengthPrefixedRoundTrip(s, rest);
  }

  /** The field after its tag; None is a corruption. */
  function TakeField(tag: nat, s: Bytes): (r: Option<(Item, Bytes)>)
    ensures r.Some? ==> |r.value.1| <= |s|
  {
    if tag == TAG_COMPARATOR then
      var x := TakeSlice(s);
      if x.None? then None else Some((Comparator(x.value.0), x.value.1))
    else if tag == TAG_COMPACT_POINTER then
      var l := TakeLevel(s);
      if l.None? then None
      else
        var k := TakeSlice(l.value.1);
        if k.None? then None else Some((CompactPointer(l.value.0, k.value.0), k.value.1))
    else if tag == TAG_DELETED_FILE then
      var l := TakeLevel(s);
      if l.None? then None
      else
        var n := Take64(l.value.1);
        if n.None? then None else Some((DeletedFile(l.value.0, n.value.0), n.value.1))
    else if tag == TAG_NEW_FILE then TakeNewFile(s)
    else
      var n := Take64(s);
      if n.None? then None
      else if tag == TAG_LOG_NUMBER then Some((LogNumber(n.value.0), n.value.1))
      else if tag == TAG_PREV_LOG_NUMBER then Some((PrevLogNumber(n.value.0), n.value.1))
      else if tag == TAG_NEXT_FILE_NUMBER then Some((NextFileNumber(n.value.0), n.value.1))
      else if tag == TAG_LAST_SEQUENCE then Some((LastSequence(n.value.0), n.value.1))
      else None
  }

  function TakeNewFile(s: Bytes): (r: Option<(Item, Bytes)>)
    ensures r.Some? ==> |r.value.1| <= |s|
  {
    var l := TakeLevel(s);
    if l.None? then None
    else
      var number := Take64(l.value.1);
      if number.None? then None
      else
        var size := Take64(number.value.1);
        if size.None? then None
        else
          var smallest := TakeSlice(size.value.1);
          if smallest.None? then None
          else
            var largest := TakeSlice(smallest.value.1);
            if largest.None? then None
            else
              Some((NewFile(l.value.0, FileMeta(number.value.0, size.value.0, smallest.value.0, largest.value.0)), largest.value.1))
  }

  /** A field reads back, and leaves what follows it. */
  lemma FieldBack(i: Item, rest: Bytes)
    requires ItemFits(i)
    ensures var t := Take32(ItemBytes(i) + rest);
      t.Some? && t.value.0 == TagOf(i) && TakeField(TagOf(i), t.value.1) == Some((i, rest))
  {
    hide Varint, GetVarint, LengthPrefixed, GetLengthPrefixed, Take32, Take64, TakeSlice, TakeNewFile;
    match i
    case Comparator(name) =>
      Concat3(Varint(TAG_COMPARATOR), LengthPrefixed(name), rest);
      Take32Back(TAG_COMPARATOR, LengthPrefixed(name) + rest);
      TakeSliceBack(name, rest);
    case LogNumber(n) => NumberBack(TAG_LOG_NUMBER, n, rest);
    case PrevLogNumber(n) => NumberBack(TAG_PREV_LOG_NUMBER, n, rest);
    case NextFileNumber(n) => NumberBack(TAG_NEXT_FILE_NUMBER, n, rest);
    case LastSequence(n) => NumberBack(TAG_LAST_SEQUENCE, n, rest);
    case CompactPointer(level, key) =>
      var body := Varint(level) + LengthPrefixed(key);
      Concat3(Varint(TAG_COMPACT_POINTER), body, rest);
      Take32Back(TAG_COMPACT_POINTER, body + rest);
      Concat3(Varint(level), LengthPrefixed(key), rest);
      Take32Back(level, LengthPrefixed(key) + rest);
      TakeSliceBack(key, rest);
    case DeletedFile(level, n) =>
      var body := Varint(level) + Varint(n);
      Concat3(Varint(TAG_DELETED_FILE), body, rest);
      Take32Back(TAG_DELETED_FILE, body + rest);
      Concat3(Varint(level), Varint(n), rest);
      Take32Back(level, Varint(n) + rest);
      Take64Back(n, rest);
    case NewFile(level, f) =>
      var body := Varint(level) + (Varint(f.number) + (Varint(f.size) + (LengthPrefixed(f.smallest) + LengthPrefixed(f.largest))));
      Concat3(Varint(TAG_NEW_FILE), body, rest);
      Take32Back(TAG_NEW_FILE, body + rest);
      NewFileBack(level, f, rest);
  }

  lemma Concat3(a: Bytes, b: Bytes, c: Bytes)
    ensures (a + b) + c == a + (b + c)
  {
  }

  lemma NumberBack(tag: nat, n: nat, rest: Bytes)
    requires tag < LIMIT32 && n < LIMIT64
    ensures Take32((Varint(tag) + Varint(n)) + rest) == Some((tag, Varint(n) + rest))
    ensures Take64(Varint(n) + rest) == Some((n, rest))
  {
    hide *;
    Concat3(Varint(tag), Varint(n), rest);
    Take32Back(tag, Varint(n) + rest);
    Take64Back(n, rest);
  }

  lemma NewFileBack(level: nat, f: FileMeta, rest: Bytes)
    requires ItemFits(NewFile(level, f))
    ensures TakeNewFile((Varint(level) + (Varint(f.number) + (Varint(f.size) + (LengthPrefixed(f.smallest) + LengthPrefixed(f.largest))))) + rest)
         == Some((NewFile(level, f), rest))
  {
    hide Varint, LengthPrefixed, Take32, Take64, TakeSlice;
    var a, b, c, d, e := Varint(level), Varint(f.number), Varint(f.size), LengthPrefixed(f.smallest), LengthPrefixed(f.largest);
    Concat3(d, e, rest);
    Concat3(c, d + e, rest);
    Concat3(b, c + (d + e), rest);
    Concat3(a, b + (c + (d + e)), rest);
    Take32Back(level, b + (c + (d + (e + rest))));
    Take64Back(f.number, c + (d + (e + rest)));
    Take64Back(f.size, d + (e + rest));
    TakeSliceBack(f.smallest, e + rest);
    TakeSliceBack(f.largest, rest);
  }

  // ----- Whole edits -----

  function AddItem(e: VersionEdit, i: Item): VersionEdit {
    match i
    case Comparator(name) => e.(comparator := Some(name))
    case LogNumber(n) => e.(logNumber := Some(n))
    case PrevLogNumber(n) => e.(prevLogNumber := Some(n))
    case NextFileNumber(n) => e.(nextFileNumber := Some(n))
    case LastSequence(n) => e.(lastSequence := Some(n))
    case CompactPointer(level, key) => e.(compactPointers := e.compactPointers + [(level, key)])
    case DeletedFile(level, n) => e.(deleted := InsertPair(e.deleted, (level, n)))
    case NewFile(level, f) => e.(newFiles := e.newFiles + [(level, f)])
  }

  /** DecodeFrom's loop: `e` is what has been read so far. */
  function DecodeRest(e: VersionEdit, input: Bytes): Option<VersionEdit>
    decreases |input|
  {
    var tag := Take32(input);
    if tag.None? then (if input == [] then Some(e) else None)
    else
      var field := TakeField(tag.value.0, tag.value.1);
      if field.None? then None else DecodeRest(AddItem(e, field.value.0), field.value.1)
  }

  function Decode(input: Bytes): Option<VersionEdit> {
    DecodeRest(CLEAR, input)
  }

  method DecodeFrom(src: Bytes) returns (r: Option<VersionEdit>)
    ensures r == Decode(src)
  {
    hide TakeField, Take32, AddItem;
    var input, e := src, CLEAR;
    var tag := Take32(input);
    while tag.Some?
      invariant tag == Take32(input)
      invariant Decode(src) == DecodeRest(e, input)
      decreases |input|
    {
      var field := TakeField(tag.value.0, tag.value.1);
      if field.None? {
        return None;
      }
      e := AddItem(e, field.value.0);
      input := field.value.1;
      tag := Take32(input);
    }
    r := if input == [] then Some(e) else None;
  }

  function ItemsBytes(items: seq<Item>): Bytes {
    if items == [] then [] else ItemBytes(items[0]) + ItemsBytes(items[1..])
  }

  function AddItems(e: VersionEdit, items: seq<Item>): VersionEdit
    decreases |items|
  {
    if items == [] then e else AddItems(AddItem(e, items[0]), items[1..])
  }

  lemma {:induction false} ItemsBack(e: VersionEdit, items: seq<Item>)
    requires forall i | i in items :: ItemFits(i)
    ensures DecodeRest(e, ItemsBytes(items)) == Some(AddItems(e, items))
    decreases |items|
  {
    hide TakeField, ItemBytes, AddItem, ItemFits;
    if items == [] {
      NoTag();
    } else {
      FieldBack(items[0], ItemsBytes(items[1..]));
      assert items == [items[0]] + items[1..];
      ItemsBack(AddItem(e, items[0]), items[1..]);
    }
  }

  lemma NoTag()
    ensures Take32([]) == None
  {
  }

  // ----- What is refused -----

  lemma CutParts(a: Bytes, b: Bytes, m: nat)
    requires m < |a| + |b|
    ensures (a + b)[..m] == if m < |a| then a[..m] else a + b[..m - |a|]
  {
  }

  lemma TakesCut(v: nat, m: nat)
    requires m < |Varint(v)|
    ensures Take32(Varint(v)[..m]) == None && Take64(Varint(v)[..m]) == None && TakeLevel(Varint(v)[..m]) == None
  {
    hide Varint, GetVarint;
    VarintCut(v, m, 5);
    VarintCut(v, m, 10);
  }

  lemma TakeSliceCut(s: Bytes, m: nat)
    requires |s| < LIMIT32 && m < |LengthPrefixed(s)|
    ensures TakeSlice(LengthPrefixed(s)[..m]) == None
  {
    hide LengthPrefixed, GetLengthPrefixed;
    LengthPrefixedCut(s, m);
  }

  /** What is left of a level and what follows it. */
  lemma LevelCut(level: nat, b: Bytes, m: nat)
    requires level < NUM_LEVELS && m < |Varint(level)| + |b|
    ensures var t := TakeLevel((Varint(level) + b)[..m]);
      t == if m < |Varint(level)| then None else Some((level, b[..m - |Varint(level)|]))
  {
    hide Varint, Take32;
    CutParts(Varint(level), b, m);
    if m < |Varint(level)| {
      TakesCut(level, m);
    } else {
      Take32Back(level, b[..m - |Varint(level)|]);
    }
  }

  lemma NumberCut(n: nat, b: Bytes, m: nat)
    requires n < LIMIT64 && m < |Varint(n)| + |b|
    ensures var t := Take64((Varint(n) + b)[..m]);
      t == if m < |Varint(n)| then None else Some((n, b[..m - |Varint(n)|]))
  {
    hide Varint, Take64;
    CutParts(Varint(n), b, m);
    if m < |Varint(n)| {
      TakesCut(n, m);
    } else {
      Take64Back(n, b[..m - |Varint(n)|]);
    }
  }

  lemma SliceCut(s: Bytes, b: Bytes, m: nat)
    requires |s| < LIMIT32 && m < |LengthPrefixed(s)| + |b|
    ensures var t := TakeSlice((LengthPrefixed(s) + b)[..m]);
      t == if m < |LengthPrefixed(s)| then None else Some((s, b[..m - |LengthPrefixed(s)|]))
  {
    hide LengthPrefixed, TakeSlice;
    CutParts(LengthPrefixed(s), b, m);
    if m < |LengthPrefixed(s)| {
      TakeSliceCut(s, m);
    } else {
      TakeSliceBack(s, b[..m - |LengthPrefixed(s)|]);
    }
  }

  lemma NewFileCut(level: nat, f: FileMeta, m: nat)
    requires ItemFits(NewFile(level, f))
    requires m < |Varint(level)| + (|Varint(f.number)| + (|Varint(f.size)| + (|LengthPrefixed(f.smallest)| + |LengthPrefixed(f.largest)|)))
    ensures TakeNewFile((Varint(level) + (Varint(f.number) + (Varint(f.size) + (LengthPrefixed(f.smallest) + LengthPrefixed(f.largest)))))[..m])
         == None
  {
    hide Varint, LengthPrefixed, TakeLevel, Take64, TakeSlice;
    var a, b, c, d, e := Varint(level), Varint(f.number), Varint(f.size), LengthPrefixed(f.smallest), LengthPrefixed(f.largest);
    LevelCut(level, b + (c + (d + e)), m);
    if m >= |a| {
      NumberCut(f.number, c + (d + e), m - |a|);
      if m >= |a| + |b| {
        NumberCut(f.size, d + e, m - |a| - |b|);
        if m >= |a| + |b| + |c| {
          SliceCut(f.smallest, e, m - |a| - |b| - |c|);
          if m >= |a| + |b| + |c| + |d| {
            TakeSliceCut(f.largest, m - |a| - |b| - |c| - |d|);
          }
        }
      }
    }
  }

  lemma BodyCut(i: Item, m: nat)
    requires ItemFits(i) && m < |Body(i)|
    ensures TakeField(TagOf(i), Body(i)[..m]) == None
  {
    hide Varint, LengthPrefixed, TakeLevel, Take64, TakeSlice, TakeNewFile;
    match i
    case Comparator(name) => TakeSliceCut(name, m);
    case LogNumber(n) => TakesCut(n, m);
    case PrevLogNumber(n) => TakesCut(n, m);
    case NextFileNumber(n) => TakesCut(n, m);
    case LastSequence(n) => TakesCut(n, m);
    case CompactPointer(level, key) =>
      LevelCut(level, LengthPrefixed(key), m);
      if m >= |Varint(level)| {
        TakeSliceCut(key, m - |Varint(level)|);
      }
    case DeletedFile(level, n) =>
      LevelCut(level, Varint(n), m);
      if m >= |Varint(level)| {
        TakesCut(n, m - |Varint(level)|);
      }
    case NewFile(level, f) => NewFileCut(level, f, m);
  }

  lemma {:induction false} ItemsThen(e: VersionEdit, items: seq<Item>, rest: Bytes)
    requires forall i | i in items :: ItemFits(i)
    ensures DecodeRest(e, ItemsBytes(items) + rest) == DecodeRest(AddItems(e, items), rest)
    decreases |items|
  {
    hide TakeField, ItemBytes, AddItem, ItemFits, Take32;
    if items == [] {
      assert ItemsBytes(items) + rest == rest;
    } else {
      Concat3(ItemBytes(items[0]), ItemsBytes(items[1..]), rest);
      FieldBack(items[0], ItemsBytes(items[1..]) + rest);
      assert items == [items[0]] + items[1..];
      ItemsThen(AddItem(e, items[0]), items[1..], rest);
    }
  }

  lemma TagIsByte(i: Item)
    ensures |Varint(TagOf(i))| == 1 && TagOf(i) < LIMIT32
  {
    VarintOfByte(TagOf(i));
    hide Varint;
  }

  /** A field that is cut off does not decode. */
  lemma FieldCut(e: VersionEdit, i: Item, m: nat)
    requires ItemFits(i) && 0 < m < |ItemBytes(i)|
    ensures DecodeRest(e, ItemBytes(i)[..m]) == None
  {
    TagIsByte(i);
    hide Body, ItemFits, TakeField, Take32, Varint, TagOf, AddItem;
    CutParts(Varint(TagOf(i)), Body(i), m);
    Take32Back(TagOf(i), Body(i)[..m - 1]);
    BodyCut(i, m - 1);
  }

  /** Nor does an edit that ends in one. */
  lemma CutEditIsRefused(items: seq<Item>, i: Item, m: nat)
    requires (forall x | x in items :: ItemFits(x)) && ItemFits(i) && 0 < m < |ItemBytes(i)|
    ensures Decode(ItemsBytes(items) + ItemBytes(i)[..m]) == None
  {
    hide ItemsBytes, ItemBytes, ItemFits, DecodeRest, AddItems;
    ItemsThen(CLEAR, items, ItemBytes(i)[..m]);
    FieldCut(AddItems(CLEAR, items), i, m);
  }

  /** Nor does one with a tag that is not known, or a level there is not. */
  lemma UnknownFieldIsRefused(items: seq<Item>, tag: nat, level: nat, rest: Bytes)
    requires (forall x | x in items :: ItemFits(x)) && tag < LIMIT32 && level < LIMIT32
    ensures tag !in {1, 2, 3, 4, 5, 6, 7, 9} ==> Decode(ItemsBytes(items) + (Varint(tag) + rest)) == None
    ensures tag in {5, 6, 7} && level >= 7 ==> Decode(ItemsBytes(items) + (Varint(tag) + (Varint(level) + rest))) == None
  {
    ItemsThen(CLEAR, items, Varint(tag) + rest);
    ItemsThen(CLEAR, items, Varint(tag) + (Varint(level) + rest));
    Take32Back(tag, rest);
    Take32Back(tag, Varint(level) + rest);
    Take32Back(level, rest);
    hide ItemsBytes, ItemFits, Take32, Take64, Varint, TakeSlice;
  }

  // ----- The fields of an edit, in the order they are written -----

  function OptionalItem(n: Option<nat>, tag: nat): seq<Item> {
    if n.None? then []
    else if tag == TAG_LOG_NUMBER then [LogNumber(n.value)]
    else if tag == TAG_PREV_LOG_NUMBER then [PrevLogNumber(n.value)]
    else if tag == TAG_NEXT_FILE_NUMBER then [NextFileNumber(n.value)]
    else [LastSequence(n.value)]
  }

  function ComparatorItem(e: VersionEdit): seq<Item> {
    if e.comparator.None? then [] else [Comparator(e.comparator.value)]
  }

  function HeadItems(e: VersionEdit): seq<Item> {
    ComparatorItem(e)
    + (OptionalItem(e.logNumber, TAG_LOG_NUMBER)
    + (OptionalItem(e.prevLogNumber, TAG_PREV_LOG_NUMBER)
    + (OptionalItem(e.nextFileNumber, TAG_NEXT_FILE_NUMBER) + OptionalItem(e.lastSequence, TAG_LAST_SEQUENCE))))
  }

  function PointerItems(ps: seq<(nat, Bytes)>): (r: seq<Item>)
    ensures |r| == |ps|
  {
    seq(|ps|, i requires 0 <= i < |ps| => CompactPointer(ps[i].0, ps[i].1))
  }

  function DeletedItems(ds: seq<(nat, nat)>): (r: seq<Item>)
    ensures |r| == |ds|
  {
    seq(|ds|, i requires 0 <= i < |ds| => DeletedFile(ds[i].0, ds[i].1))
  }

  function NewFileItems(fs: seq<(nat, FileMeta)>): (r: seq<Item>)
    ensures |r| == |fs|
  {
    seq(|fs|, i requires 0 <= i < |fs| => NewFile(fs[i].0, fs[i].1))
  }

  function Items(e: VersionEdit): seq<Item> {
    HeadItems(e) + (PointerItems(e.compactPointers) + (DeletedItems(e.deleted) + NewFileItems(e.newFiles)))
  }

  function Encode(e: VersionEdit): Bytes {
    ItemsBytes(Items(e))
  }

  ghost predicate Fits(e: VersionEdit) {
    (forall i | i in Items(e) :: ItemFits(i)) && Ascending(e.deleted)
  }

  lemma {:induction false} AddItemsConcat(e: VersionEdit, a: seq<Item>, b: seq<Item>)
    ensures AddItems(e, a + b) == AddItems(AddItems(e, a), b)
    decreases |a|
  {
    hide AddItem;
    if a == [] {
      assert a + b == b;
    } else {
      assert (a + b)[1..] == a[1..] + b;
      AddItemsConcat(AddItem(e, a[0]), a[1..], b);
    }
  }

  lemma {:induction false} AddPointers(e: VersionEdit, ps: seq<(nat, Bytes)>)
    ensures AddItems(e, PointerItems(ps)) == e.(compactPointers := e.compactPointers + ps)
    decreases |ps|
  {
    if ps == [] {
      assert e.compactPointers + ps == e.compactPointers;
    } else {
      assert PointerItems(ps)[1..] == PointerItems(ps[1..]);
      AddPointers(AddItem(e, PointerItems(ps)[0]), ps[1..]);
      assert (e.compactPointers + [ps[0]]) + ps[1..] == e.compactPointers + ps;
    }
  }

  lemma {:induction false} AddNewFiles(e: VersionEdit, fs: seq<(nat, FileMeta)>)
    ensures AddItems(e, NewFileItems(fs)) == e.(newFiles := e.newFiles + fs)
    decreases |fs|
  {
    if fs == [] {
      assert e.newFiles + fs == e.newFiles;
    } else {
      assert NewFileItems(fs)[1..] == NewFileItems(fs[1..]);
      AddNewFiles(AddItem(e, NewFileItems(fs)[0]), fs[1..]);
      assert (e.newFiles + [fs[0]]) + fs[1..] == e.newFiles + fs;
    }
  }

  lemma {:induction false} AddDeleted(e: VersionEdit, ds: seq<(nat, nat)>)
    requires Ascending(e.deleted + ds)
    ensures AddItems(e, DeletedItems(ds)) == e.(deleted := e.deleted + ds)
    decreases |ds|
  {
    if ds == [] {
      assert e.deleted + ds == e.deleted;
    } else {
      assert DeletedItems(ds)[1..] == DeletedItems(ds[1..]);
      assert (e.deleted + [ds[0]]) + ds[1..] == e.deleted + ds;
      AscendingPrefix(e.deleted + [ds[0]], ds[1..]);
      InsertLast(e.deleted, ds[0]);
      AddDeleted(AddItem(e, DeletedItems(ds)[0]), ds[1..]);
    }
  }

  lemma AscendingPrefix(a: seq<(nat, nat)>, b: seq<(nat, nat)>)
    requires Ascending(a + b)
    ensures Ascending(a)
  {
    assert forall i | 0 <= i < |a| :: a[i] == (a + b)[i];
  }

  lemma AddHead(e: VersionEdit)
    ensures AddItems(CLEAR, HeadItems(e))
         == VersionEdit(e.comparator, e.logNumber, e.prevLogNumber, e.nextFileNumber, e.lastSequence, [], [], [])
  {
    hide AddItems, OptionalItem;
    var a := ComparatorItem(e);
    var b, c := OptionalItem(e.logNumber, TAG_LOG_NUMBER), OptionalItem(e.prevLogNumber, TAG_PREV_LOG_NUMBER);
    var d, f := OptionalItem(e.nextFileNumber, TAG_NEXT_FILE_NUMBER), OptionalItem(e.lastSequence, TAG_LAST_SEQUENCE);
    AddItemsConcat(CLEAR, a, b + (c + (d + f)));
    AddAtMostOne(CLEAR, a);
    var e1 := CLEAR.(comparator := e.comparator);
    AddItemsConcat(e1, b, c + (d + f));
    AddOptional(e1, e.logNumber, TAG_LOG_NUMBER);
    var e2 := e1.(logNumber := e.logNumber);
    AddItemsConcat(e2, c, d + f);
    AddOptional(e2, e.prevLogNumber, TAG_PREV_LOG_NUMBER);
    var e3 := e2.(prevLogNumber := e.prevLogNumber);
    AddItemsConcat(e3, d, f);
    AddOptional(e3, e.nextFileNumber, TAG_NEXT_FILE_NUMBER);
    AddOptional(e3.(nextFileNumber := e.nextFileNumber), e.lastSequence, TAG_LAST_SEQUENCE);
  }

  lemma AddOptional(e: VersionEdit, n: Option<nat>, tag: nat)
    ensures AddItems(e, OptionalItem(n, tag))
         == if n.None? then e
            else if tag == TAG_LOG_NUMBER then e.(logNumber := n)
            else if tag == TAG_PREV_LOG_NUMBER then e.(prevLogNumber := n)
            else if tag == TAG_NEXT_FILE_NUMBER then e.(nextFileNumber := n)
            else e.(lastSequence := n)
  {
    AddAtMostOne(e, OptionalItem(n, tag));
  }

  lemma AddAtMostOne(e: VersionEdit, a: seq<Item>)
    requires |a| <= 1
    ensures AddItems(e, a) == if a == [] then e else AddItem(e, a[0])
  {
  }

  /** Decoding an encoded edit gives it back. */
  lemma EditRoundTrip(e: VersionEdit)
    requires Fits(e)
    ensures Decode(Encode(e)) == Some(e)
  {
    hide DecodeRest, ItemsBytes, HeadItems, PointerItems, DeletedItems, NewFileItems, AddItems, ItemFits;
    ItemsBack(CLEAR, Items(e));
    var p, d, n := PointerItems(e.compactPointers), DeletedItems(e.deleted), NewFileItems(e.newFiles);
    AddItemsConcat(CLEAR, HeadItems(e), p + (d + n));
    AddHead(e);
    var e0 := VersionEdit(e.comparator, e.logNumber, e.prevLogNumber, e.nextFileNumber, e.lastSequence, [], [], []);
    AddItemsConcat(e0, p, d + n);
    AddPointers(e0, e.compactPointers);
    assert [] + e.compactPointers == e.compactPointers && [] + e.deleted == e.deleted && [] + e.newFiles == e.newFiles;
    var e1 := e0.(compactPointers := e.compactPointers);
    AddItemsConcat(e1, d, n);
    AddDeleted(e1, e.deleted);
    AddNewFiles(e1.(deleted := e.deleted), e.newFiles);
  }

  // ----- EncodeTo -----

  lemma {:induction false} ItemsBytesConcat(a: seq<Item>, b: seq<Item>)
    ensures ItemsBytes(a + b) == ItemsBytes(a) + ItemsBytes(b)
  {
    hide ItemBytes;
    if a == [] {
      assert a + b == b;
    } else {
      assert (a + b)[1..] == a[1..] + b;
      ItemsBytesConcat(a[1..], b);
    }
  }

  lemma ItemsBytesOne(a: seq<Item>, i: Item)
    ensures ItemsBytes(a + [i]) == ItemsBytes(a) + ItemBytes(i)
  {
    hide ItemBytes;
    ItemsBytesConcat(a, [i]);
    assert [i][1..] == [];
    assert ItemBytes(i) + [] == ItemBytes(i);
  }

  /** Appends one field. */
  method Put(dst: Bytes, ghost written: seq<Item>, i: Item) returns (r: Bytes)
    requires dst == ItemsBytes(written)
    ensures r == ItemsBytes(written + [i])
  {
    hide ItemBytes, ItemsBytes;
    ItemsBytesOne(written, i);
    r := dst + ItemBytes(i);
  }

  method EncodeTo(e: VersionEdit) returns (dst: Bytes)
    ensures dst == Encode(e)
  {
    hide ItemBytes, ItemsBytes;
    dst := [];
    ghost var a, b := ComparatorItem(e), OptionalItem(e.logNumber, TAG_LOG_NUMBER);
    ghost var c, d := OptionalItem(e.prevLogNumber, TAG_PREV_LOG_NUMBER), OptionalItem(e.nextFileNumber, TAG_NEXT_FILE_NUMBER);
    ghost var f := OptionalItem(e.lastSequence, TAG_LAST_SEQUENCE);
    Nothing();
    if e.comparator.Some? {
      dst := Put(dst, [], Comparator(e.comparator.value));
      assert [] + [Comparator(e.comparator.value)] == a;
    }
    assert dst == ItemsBytes(a);
    if e.logNumber.Some? {
      dst := Put(dst, a, LogNumber(e.logNumber.value));
    }
    assert a + [] == a;
    assert dst == ItemsBytes(a + b);
    if e.prevLogNumber.Some? {
      dst := Put(dst, a + b, PrevLogNumber(e.prevLogNumber.value));
    }
    assert (a + b) + [] == a + b;
    assert dst == ItemsBytes((a + b) + c);
    if e.nextFileNumber.Some? {
      dst := Put(dst, (a + b) + c, NextFileNumber(e.nextFileNumber.value));
    }
    assert ((a + b) + c) + [] == (a + b) + c;
    assert dst == ItemsBytes(((a + b) + c) + d);
    if e.lastSequence.Some? {
      dst := Put(dst, ((a + b) + c) + d, LastSequence(e.lastSequence.value));
    }
    assert (((a + b) + c) + d) + [] == ((a + b) + c) + d;
    assert dst == ItemsBytes((((a + b) + c) + d) + f);
    Reassociated(a, b, c, d, f);
    dst := EncodeLists(e, dst);
  }

  lemma Reassociated(a: seq<Item>, b: seq<Item>, c: seq<Item>, d: seq<Item>, f: seq<Item>)
    ensures (((a + b) + c) + d) + f == a + (b + (c + (d + f)))
  {
  }

  /** The three loops of EncodeTo. */
  method EncodeLists(e: VersionEdit, head: Bytes) returns (dst: Bytes)
    requires head == ItemsBytes(HeadItems(e))
    ensures dst == Encode(e)
  {
    hide ItemBytes, ItemsBytes, HeadItems;
    dst := head;
    var p, d, n := PointerItems(e.compactPointers), DeletedItems(e.deleted), NewFileItems(e.newFiles);
    ghost var h := HeadItems(e);
    assert h + p[..0] == h;
    for i := 0 to |e.compactPointers|
      invariant dst == ItemsBytes(h + p[..i])
    {
      dst := dst + ItemBytes(CompactPointer(e.compactPointers[i].0, e.compactPointers[i].1));
      ItemsBytesOne(h + p[..i], p[i]);
      assert (h + p[..i]) + [p[i]] == h + p[..i + 1];
    }
    assert h + p[..|p|] == (h + p) + d[..0];
    for i := 0 to |e.deleted|
      invariant dst == ItemsBytes((h + p) + d[..i])
    {
      dst := dst + ItemBytes(DeletedFile(e.deleted[i].0, e.deleted[i].1));
      ItemsBytesOne((h + p) + d[..i], d[i]);
      assert ((h + p) + d[..i]) + [d[i]] == (h + p) + d[..i + 1];
    }
    assert (h + p) + d[..|d|] == ((h + p) + d) + n[..0];
    for i := 0 to |e.newFiles|
      invariant dst == ItemsBytes(((h + p) + d) + n[..i])
    {
      dst := dst + ItemBytes(NewFile(e.newFiles[i].0, e.newFiles[i].1));
      ItemsBytesOne(((h + p) + d) + n[..i], n[i]);
      assert (((h + p) + d) + n[..i]) + [n[i]] == ((h + p) + d) + n[..i + 1];
    }
    assert ((h + p) + d) + n[..|n|] == h + (p + (d + n));
  }

  lemma Nothing()
    ensures ItemsBytes([]) == []
  {
  }
}
