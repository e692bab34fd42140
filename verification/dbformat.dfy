/** Internal keys, entries and what a read at a sequence number means.

    A user key is an element of a countable total order: byte strings under a
    comparator.  Every countable total order embeds in the reals, and nothing
    below does arithmetic on keys, so a user key is a `real` here.  Module
    `Comparator` gives the embedding for the bytewise order explicitly. */
module DbFormat {

  type UserKey = real

  newtype byte = b: int | 0 <= b < 256

  type Bytes = seq<byte>

  type Value = Bytes

  datatype Option<+T> = None | Some(value: T)

  // kTypeDeletion is 0 and kTypeValue is 1 on disk.
  datatype ValueType = TypeDeletion | TypeValue

  const NUM_LEVELS := 7
  const MAX_MEM_COMPACT_LEVEL := 2
  const MAX_SEQUENCE := 0xFF_FFFF_FFFF_FFFF

  datatype InternalKey = InternalKey(user: UserKey, seqno: nat, kind: ValueType)

  /** PackSequenceAndType: the sequence number shifted over the type byte. */
  function Pack(k: InternalKey): nat {
    k.seqno * 256 + if k.kind.TypeValue? then 1 else 0
  }

  /** InternalKeyComparator::Compare(a, b) < 0: user keys ascending, then
      packed sequence and type descending. */
  predicate Less(a: InternalKey, b: InternalKey) {
    a.user < b.user || (a.user == b.user && Pack(a) > Pack(b))
  }

  /** The internal key a lookup of `user` at sequence `s` seeks to. */
  function LookupKey(user: UserKey, s: nat): InternalKey {
    InternalKey(user, s, TypeValue)
  }

  datatype Entry = Entry(key: InternalKey, value: Value)

  ghost predicate SortedEntries(es: seq<Entry>) {
    forall i, j | 0 <= i < j < |es| :: Less(es[i].key, es[j].key)
  }

  ghost function Contents(es: seq<Entry>): set<Entry> {
    set e | e in es
  }

  // ----- Operations of a write batch -----

  datatype Op = PutOp(key: UserKey, value: Value) | DeleteOp(key: UserKey)

  function OpEntry(op: Op, seqno: nat): Entry {
    match op
    case PutOp(k, value) => Entry(InternalKey(k, seqno, TypeValue), value)
    case DeleteOp(k) => Entry(InternalKey(k, seqno, TypeDeletion), [])
  }

  // ----- The specification: newest entry at or below the snapshot wins -----

  ghost predicate Visible(e: Entry, k: UserKey, s: nat) {
    e.key.user == k && e.key.seqno <= s
  }

  ghost predicate Newest(E: set<Entry>, k: UserKey, s: nat, e: Entry) {
    && e in E && Visible(e, k, s)
    && forall o | o in E && Visible(o, k, s) :: o.key.seqno <= e.key.seqno
  }

  /** No two entries of one user key carry the same sequence number. */
  ghost predicate Unique(E: set<Entry>) {
    forall a, b | a in E && b in E && a.key.user == b.key.user && a.key.seqno == b.key.seqno :: a == b
  }

  ghost function ReadAt(E: set<Entry>, k: UserKey, s: nat): Option<Value> {
    if exists e :: Newest(E, k, s, e) && e.key.kind.TypeValue? then
      var e :| Newest(E, k, s, e) && e.key.kind.TypeValue?; Some(e.value)
    else None
  }

  /** Every entry of A is newer than every entry of B with the same user key. */
  ghost predicate Newer(A: set<Entry>, B: set<Entry>) {
    forall a, b | a in A && b in B && a.key.user == b.key.user :: a.key.seqno > b.key.seqno
  }

  function Outcome(e: Entry): Option<Value> {
    if e.key.kind.TypeValue? then Some(e.value) else None
  }

  lemma ReadOfNewest(E: set<Entry>, k: UserKey, s: nat, e: Entry)
    requires Unique(E) && Newest(E, k, s, e)
    ensures ReadAt(E, k, s) == Outcome(e)
  {
    forall o | Newest(E, k, s, o) ensures o == e {
      assert o.key.seqno <= e.key.seqno;
    }
  }

  lemma ReadOfNothing(E: set<Entry>, k: UserKey, s: nat)
    requires forall e | e in E :: !Visible(e, k, s)
    ensures ReadAt(E, k, s) == None
  {
  }

  /** A set with a visible entry has a newest visible one. */
  lemma {:induction false} NewestExists(E: set<Entry>, k: UserKey, s: nat, w: Entry) returns (e: Entry)
    requires w in E && Visible(w, k, s)
    ensures Newest(E, k, s, e)
    decreases |E|
  {
    if forall o | o in E && Visible(o, k, s) :: o.key.seqno <= w.key.seqno {
      e := w;
    } else {
      var o :| o in E && Visible(o, k, s) && o.key.seqno > w.key.seqno;
      e := NewestExists(E - {w}, k, s, o);
    }
  }

  /** Two sets in which the same entries are newest read alike. */
  lemma SameNewestSameRead(E: set<Entry>, F: set<Entry>, k: UserKey, s: nat)
    requires Unique(E) && Unique(F)
    requires forall e :: Newest(E, k, s, e) ==> Newest(F, k, s, e)
    requires forall f | f in F && Visible(f, k, s) :: f in E
    ensures ReadAt(E, k, s) == ReadAt(F, k, s)
  {
    if e :| e in E && Visible(e, k, s) {
      var n := NewestExists(E, k, s, e);
      ReadOfNewest(E, k, s, n);
      ReadOfNewest(F, k, s, n);
    }
  }

  /** Reading through a newer part first: a hit there is the answer, a miss
      leaves the older part to decide. */
  lemma ReadThrough(A: set<Entry>, B: set<Entry>, k: UserKey, s: nat)
    requires Newer(A, B) && Unique(A + B)
    ensures (exists a :: Newest(A, k, s, a)) ==> ReadAt(A + B, k, s) == ReadAt(A, k, s)
    ensures (forall a | a in A :: !Visible(a, k, s)) ==> ReadAt(A + B, k, s) == ReadAt(B, k, s)
  {
    if a :| Newest(A, k, s, a) {
      assert Newest(A + B, k, s, a);
      ReadOfNewest(A, k, s, a);
      ReadOfNewest(A + B, k, s, a);
    }
    if forall a | a in A :: !Visible(a, k, s) {
      forall e ensures Newest(A + B, k, s, e) <==> Newest(B, k, s, e) {
      }
      SameNewestSameRead(A + B, B, k, s);
    }
  }
}
