/** The memtable on encoded entries (memtable.cc), down to the bytes that
    `Add` lays out and `Get` takes apart.  The table is the lowest level of the
    skip list, in order. */
module MemTables {
  import opened DbFormat
  import opened Coding
  import opened Comparator

  datatype Record = Record(user: Bytes, seqno: nat, kind: ValueType, value: Bytes)

  datatype GetResult = Missing | Deleted | Found(value: Bytes)

  /** The entry that the LSM modules have for a record. */
  ghost function EntryOf(r: Record): Entry {
    Entry(InternalKey(Embed(r.user), r.seqno, r.kind), r.value)
  }

  /** `(s << 8) | type` */
  function Tag(seqno: nat, kind: ValueType): nat {
    seqno * 256 + if kind.TypeValue? then 1 else 0
  }

  predicate Sound(r: Record) {
    r.seqno <= MAX_SEQUENCE && |r.user| + 8 < LIMIT32 && |r.value| < LIMIT32
  }

  function EncodeRecord(r: Record): Bytes
    requires Sound(r)
  {
    LengthPrefixed(EncodeKey(r.user, Tag(r.seqno, r.kind))) + LengthPrefixed(r.value)
  }

  /** Key "k" and value "v" at sequence number 5, as a value and as a deletion. */
  lemma EntryBytes()
    ensures EncodeRecord(Record([0x6B], 5, TypeValue, [0x76])) == [9, 0x6B, 1, 5, 0, 0, 0, 0, 0, 0, 1, 0x76]
    ensures EncodeRecord(Record([0x6B], 5, TypeDeletion, [])) == [9, 0x6B, 0, 5, 0, 0, 0, 0, 0, 0, 0]
  {
    var k: Bytes := [0x6B];
    assert Fixed64(1281) == [1, 5, 0, 0, 0, 0, 0, 0] && Fixed64(1280) == [0, 5, 0, 0, 0, 0, 0, 0];
    ShortPrefix(k + Fixed64(1281));
    ShortPrefix(k + Fixed64(1280));
    ShortPrefix([0x76]);
    ShortPrefix([]);
    hide LengthPrefixed, Fixed64;
  }

  /** The first length-prefixed slice of an entry. */
  function KeyOf(entry: Bytes): Bytes {
    var p := GetLengthPrefixed(entry);
    if p.None? then [] else p.value.0
  }

  /** The second one. */
  function ValueOf(entry: Bytes): Bytes {
    var p := GetLengthPrefixed(entry);
    if p.None? then [] else KeyOf(entry[p.value.1..])
  }

  /** MemTable::KeyComparator */
  predicate EntryBefore(a: Bytes, b: Bytes) {
    InternalBefore(KeyOf(a), KeyOf(b))
  }

  lemma RecordReads(r: Record)
    requires Sound(r)
    ensures KeyOf(EncodeRecord(r)) == EncodeKey(r.user, Tag(r.seqno, r.kind)) && ValueOf(EncodeRecord(r)) == r.value
  {
    hide GetLengthPrefixed, LengthPrefixed, EncodeKey;
    var k := EncodeKey(r.user, Tag(r.seqno, r.kind));
    KeyParts(r.user, Tag(r.seqno, r.kind));
    LengthPrefixedRoundTrip(k, LengthPrefixed(r.value));
    LengthPrefixedRoundTrip(r.value, []);
    assert LengthPrefixed(r.value) + [] == LengthPrefixed(r.value);
    assert EncodeRecord(r)[|LengthPrefixed(k)|..] == LengthPrefixed(r.value);
  }

  /** Encoded entries are ordered like the keys they stand for. */
  lemma RecordOrder(r: Record, q: Record)
    requires Sound(r) && Sound(q)
    ensures EntryBefore(EncodeRecord(r), EncodeRecord(q)) <==> Less(EntryOf(r).key, EntryOf(q).key)
  {
    hide InternalBefore, EncodeKey, KeyOf, EncodeRecord;
    RecordReads(r);
    RecordReads(q);
    InternalBeforeIsLess(r.user, q.user, r.seqno, q.seqno, r.kind, q.kind);
  }

  /** LookupKey::memtable_key */
  function MemtableKey(user: Bytes, s: nat): Bytes
    requires s <= MAX_SEQUENCE
  {
    LengthPrefixed(EncodeKey(user, Tag(s, TypeValue)))
  }

  lemma LookupOrder(r: Record, user: Bytes, s: nat)
    requires Sound(r) && s <= MAX_SEQUENCE && |user| + 8 < LIMIT32
    ensures EntryBefore(EncodeRecord(r), MemtableKey(user, s)) <==> Less(EntryOf(r).key, LookupKey(Embed(user), s))
  {
    hide InternalBefore, EncodeKey, EncodeRecord, GetLengthPrefixed, LengthPrefixed;
    RecordReads(r);
    var k := EncodeKey(user, Tag(s, TypeValue));
    KeyParts(user, Tag(s, TypeValue));
    LengthPrefixedRoundTrip(k, []);
    assert LengthPrefixed(k) + [] == LengthPrefixed(k);
    InternalBeforeIsLess(r.user, user, r.seqno, s, r.kind, TypeValue);
  }

  class MemTable {
    var table: seq<Bytes>
    ghost var records: seq<Record>

    ghost predicate Valid()
      reads this
    {
      Encodes(records, table) && Sorted(records)
    }

    ghost function Contents(): set<Entry>
      reads this
    {
      Entries(records)
    }

    constructor ()
      ensures Valid() && Contents() == {}
    {
      table, records := [], [];
    }

    /** Table::Iterator::Seek: the first entry that is not before the target. */
    method Seek(target: Bytes) returns (i: nat)
      requires Valid()
      ensures i <= |table| && (i < |table| ==> !EntryBefore(table[i], target))
      ensures forall j | 0 <= j < i :: EntryBefore(table[j], target)
    {
      hide EntryBefore;
      i := 0;
      while i < |table| && EntryBefore(table[i], target)
        invariant i <= |table|
        invariant forall j | 0 <= j < i :: EntryBefore(table[j], target)
      {
        i := i + 1;
      }
    }

    /** Add; nothing equal to the key may be in the table. */
    method Add(s: nat, kind: ValueType, key: Bytes, value: Bytes)
      requires Valid() && Sound(Record(key, s, kind, value))
      requires forall e | e in Contents() :: e.key != EntryOf(Record(key, s, kind, value)).key
      modifies this
      ensures Valid() && Contents() == old(Contents()) + {EntryOf(Record(key, s, kind, value))}
    {
      var buf := LengthPrefixed(EncodeKey(key, Tag(s, kind))) + LengthPrefixed(value);
      ghost var r := Record(key, s, kind, value);
      var i := Seek(buf);
      Placed(records, table, r, i);
      table := table[..i] + [buf] + table[i..];
      records := records[..i] + [r] + records[i..];
    }

    /** Get: the newest entry of the key at or below s decides. */
    method Get(user: Bytes, s: nat) returns (result: GetResult)
      requires Valid() && s <= MAX_SEQUENCE && |user| + 8 < LIMIT32
      ensures result.Missing? <==> forall e | e in Contents() :: !Visible(e, Embed(user), s)
      ensures !result.Missing? ==>
        exists e :: Newest(Contents(), Embed(user), s, e) && Outcome(e) == if result.Found? then Some(result.value) else None
      ensures Unique(Contents()) ==>
        ReadAt(Contents(), Embed(user), s) == if result.Found? then Some(result.value) else None
      ensures Unique(Contents()) ==> result == Seen(Contents(), user, s)
    {
      var i := Seek(MemtableKey(user, s));
      FirstAtLookup(records, table, user, s, i);
      hide *;
      result := Missing;
      if i < |table| {
        var entry := table[i];
        RecordParts(records, table, i, user);
        // The sequence number was skipped over by the seek.
        if UserPart(KeyOf(entry)) == user {
          if PackedPart(KeyOf(entry)) % 256 == 1 {
            result := Found(ValueOf(entry));
          } else {
            result := Deleted;
          }
        }
      }
      Answered(records, user, s, i, result);
    }
  }

  function PackedPart(k: Bytes): nat {
    if |k| >= 8 then ExtractPacked(k) else 0
  }

  ghost function Entries(records: seq<Record>): set<Entry> {
    set r | r in records :: EntryOf(r)
  }

  /** What the entries say of a user key at a sequence number. */
  ghost function Seen(E: set<Entry>, user: Bytes, s: nat): GetResult {
    if exists e :: Newest(E, Embed(user), s, e) then
      var e :| Newest(E, Embed(user), s, e);
      if e.key.kind.TypeValue? then Found(e.value) else Deleted
    else Missing
  }

  lemma SeenNewest(E: set<Entry>, user: Bytes, s: nat, e: Entry)
    requires Unique(E) && Newest(E, Embed(user), s, e)
    ensures Seen(E, user, s) == if e.key.kind.TypeValue? then Found(e.value) else Deleted
  {
    hide Embed;
  }

  lemma SeenNothing(E: set<Entry>, user: Bytes, s: nat)
    requires forall e | e in E :: !Visible(e, Embed(user), s)
    ensures Seen(E, user, s) == Missing
  {
    hide Embed;
  }

  /** Two sets with the same newest entry say the same. */
  lemma SeenAlike(E: set<Entry>, F: set<Entry>, user: Bytes, s: nat, t: nat)
    requires Unique(E) && Unique(F)
    requires forall e :: Newest(E, Embed(user), s, e) <==> Newest(F, Embed(user), t, e)
    ensures Seen(E, user, s) == Seen(F, user, t)
  {
    hide Embed, Newest;
    if e :| Newest(E, Embed(user), s, e) {
      SeenNewest(E, user, s, e);
      SeenNewest(F, user, t, e);
    }
  }

  /** What Get finds in the bytes of an entry. */
  lemma RecordParts(records: seq<Record>, table: seq<Bytes>, i: nat, user: Bytes)
    requires Encodes(records, table) && i < |records|
    ensures UserPart(KeyOf(table[i])) == records[i].user && ValueOf(table[i]) == records[i].value
    ensures PackedPart(KeyOf(table[i])) % 256 == if records[i].kind.TypeValue? then 1 else 0
    ensures Embed(records[i].user) == Embed(user) <==> records[i].user == user
  {
    assert Sound(records[i]) && table[i] == EncodeRecord(records[i]);
    hide *;
    RecordReads(records[i]);
    TagType(records[i].seqno, records[i].kind);
    KeyParts(records[i].user, Tag(records[i].seqno, records[i].kind));
    EmbedInOrder(records[i].user, user);
    Parts(KeyOf(table[i]));
  }

  lemma TagType(seqno: nat, kind: ValueType)
    ensures Tag(seqno, kind) % 256 == if kind.TypeValue? then 1 else 0
    ensures seqno <= MAX_SEQUENCE ==> Tag(seqno, kind) < LIMIT64
  {
  }

  lemma Parts(k: Bytes)
    requires |k| >= 8
    ensures UserPart(k) == ExtractUserKey(k) && PackedPart(k) == ExtractPacked(k)
  {
  }

  lemma Answered(records: seq<Record>, user: Bytes, s: nat, i: nat, result: GetResult)
    requires i <= |records| && LandsOn(records, user, s, i)
    requires i < |records| ==> (Embed(records[i].user) == Embed(user) <==> records[i].user == user)
    requires result == if i == |records| || records[i].user != user then Missing
                       else if records[i].kind.TypeValue? then Found(records[i].value) else Deleted
    ensures result.Missing? <==> forall e | e in Entries(records) :: !Visible(e, Embed(user), s)
    ensures !result.Missing? ==> exists e ::
      Newest(Entries(records), Embed(user), s, e) && Outcome(e) == if result.Found? then Some(result.value) else None
    ensures Unique(Entries(records)) ==>
      ReadAt(Entries(records), Embed(user), s) == if result.Found? then Some(result.value) else None
    ensures Unique(Entries(records)) ==> result == Seen(Entries(records), user, s)
  {
    hide Embed, Unique, Seen;
    if i < |records| && records[i].user == user {
      assert records[i] in records && EntryOf(records[i]) in Entries(records);
      assert Newest(Entries(records), Embed(user), s, EntryOf(records[i]));
      if Unique(Entries(records)) {
        ReadOfNewest(Entries(records), Embed(user), s, EntryOf(records[i]));
        SeenNewest(Entries(records), user, s, EntryOf(records[i]));
      }
    } else {
      ReadOfNothing(Entries(records), Embed(user), s);
      SeenNothing(Entries(records), user, s);
    }
  }

  ghost predicate Sorted(records: seq<Record>) {
    forall i, j | 0 <= i < j < |records| :: Less(EntryOf(records[i]).key, EntryOf(records[j]).key)
  }

  ghost predicate Encodes(records: seq<Record>, table: seq<Bytes>) {
    |table| == |records| && forall i | 0 <= i < |records| :: Sound(records[i]) && table[i] == EncodeRecord(records[i])
  }

  /** A record goes before the first that is not before it. */
  lemma Placed(records: seq<Record>, table: seq<Bytes>, r: Record, i: nat)
    requires Sorted(records) && Encodes(records, table) && Sound(r) && i <= |records|
    requires forall e | e in Entries(records) :: e.key != EntryOf(r).key
    requires forall j | 0 <= j < i :: EntryBefore(table[j], EncodeRecord(r))
    requires i < |table| ==> !EntryBefore(table[i], EncodeRecord(r))
    ensures Sorted(records[..i] + [r] + records[i..])
    ensures Encodes(records[..i] + [r] + records[i..], table[..i] + [EncodeRecord(r)] + table[i..])
    ensures Entries(records[..i] + [r] + records[i..]) == Entries(records) + {EntryOf(r)}
  {
    hide EncodeRecord, EntryBefore, Sound, EntryOf, Less;
    forall j | 0 <= j < |records|
      ensures EntryBefore(table[j], EncodeRecord(r)) <==> Less(EntryOf(records[j]).key, EntryOf(r).key)
      ensures EntryOf(records[j]).key != EntryOf(r).key
    {
      RecordOrder(records[j], r);
      assert records[j] in records && EntryOf(records[j]) in Entries(records);
    }
    PlacedInOrder(records, r, i);
    PlacedEntries(records, r, i);
  }

  lemma PlacedInOrder(records: seq<Record>, r: Record, i: nat)
    requires Sorted(records) && i <= |records|
    requires forall j | 0 <= j < |records| :: EntryOf(records[j]).key != EntryOf(r).key
    requires forall j | 0 <= j < i :: Less(EntryOf(records[j]).key, EntryOf(r).key)
    requires i < |records| ==> !Less(EntryOf(records[i]).key, EntryOf(r).key)
    ensures Sorted(records[..i] + [r] + records[i..])
  {
    hide Embed;
    forall j | i <= j < |records| ensures Less(EntryOf(r).key, EntryOf(records[j]).key) {
      assert j > i ==> Less(EntryOf(records[i]).key, EntryOf(records[j]).key);
    }
    hide Less, EntryOf;
  }

  lemma PlacedEntries(records: seq<Record>, r: Record, i: nat)
    requires i <= |records|
    ensures Entries(records[..i] + [r] + records[i..]) == Entries(records) + {EntryOf(r)}
  {
    hide EntryOf;
    var more := records[..i] + [r] + records[i..];
    assert records == records[..i] + records[i..];
    assert forall q :: q in more <==> q == r || q in records;
  }

  /** The entry a lookup lands on is the newest that it may see, if it has the
      user key at all. */
  ghost predicate LandsOn(records: seq<Record>, user: Bytes, s: nat, i: nat)
    requires i <= |records|
  {
    if i < |records| && Embed(records[i].user) == Embed(user) then
      Newest(Entries(records), Embed(user), s, EntryOf(records[i]))
    else forall e | e in Entries(records) :: !Visible(e, Embed(user), s)
  }

  lemma FirstAtLookup(records: seq<Record>, table: seq<Bytes>, user: Bytes, s: nat, i: nat)
    requires Sorted(records) && Encodes(records, table) && s <= MAX_SEQUENCE && |user| + 8 < LIMIT32 && i <= |records|
    requires forall j | 0 <= j < i :: EntryBefore(table[j], MemtableKey(user, s))
    requires i < |table| ==> !EntryBefore(table[i], MemtableKey(user, s))
    ensures LandsOn(records, user, s, i)
  {
    var keys := seq(|records|, k requires 0 <= k < |records| => EntryOf(records[k]).key);
    forall j | 0 <= j < |records|
      ensures Less(keys[j], LookupKey(Embed(user), s)) <==> EntryBefore(table[j], MemtableKey(user, s))
    {
      LookupOrder(records[j], user, s);
    }
    hide EntryBefore, Embed, MemtableKey;
    FirstKey(keys, Embed(user), s, i);
    hide Less;
    forall e | e in Entries(records) ensures exists k :: 0 <= k < |keys| && keys[k] == e.key && EntryOf(records[k]) == e {
      var r :| r in records && EntryOf(r) == e;
      var k :| 0 <= k < |records| && records[k] == r;
      assert keys[k] == e.key;
    }
    if i < |records| {
      assert records[i] in records;
    }
  }

  /** Among keys in order, the first at or after a lookup key. */
  lemma FirstKey(keys: seq<InternalKey>, user: UserKey, s: nat, i: nat)
    requires forall a, b | 0 <= a < b < |keys| :: Less(keys[a], keys[b])
    requires i <= |keys| && forall j | 0 <= j < i :: Less(keys[j], LookupKey(user, s))
    requires i < |keys| ==> !Less(keys[i], LookupKey(user, s))
    ensures if i < |keys| && keys[i].user == user then
        keys[i].seqno <= s && forall k | 0 <= k < |keys| && keys[k].user == user && keys[k].seqno <= s :: keys[k].seqno <= keys[i].seqno
      else forall k | 0 <= k < |keys| && keys[k].user == user :: keys[k].seqno > s
  {
    forall k | i < k < |keys| && keys[k].user == user
      ensures keys[i].user <= user && (keys[i].user == user ==> keys[k].seqno <= keys[i].seqno)
    {
      assert Less(keys[i], keys[k]);
    }
  }
}
