/** DBIter: from a sorted run of internal entries to the user keys live at one
    sequence number, forwards and backwards. */
module DBIterator {
  import opened DbFormat
  import opened Iterators

  // ----- Live entries -----

  predicate VisibleAt(es: seq<Entry>, s: nat, i: int) {
    0 <= i < |es| && es[i].key.seqno <= s
  }

  /** Entry i is the newest visible entry of its user key, and a value. */
  ghost predicate LiveAt(es: seq<Entry>, s: nat, i: int) {
    && VisibleAt(es, s, i)
    && es[i].key.kind.TypeValue?
    && forall j | 0 <= j < i && VisibleAt(es, s, j) :: es[j].key.user < es[i].key.user
  }

  lemma SortedUsers(es: seq<Entry>, i: int, j: int)
    requires SortedEntries(es)
    requires 0 <= i <= j < |es|
    ensures es[i].key.user <= es[j].key.user
  {
  }

  /** A live entry is what a read of its user key returns. */
  lemma LiveIsRead(es: seq<Entry>, s: nat, i: int)
    requires SortedEntries(es) && LiveAt(es, s, i)
    ensures ReadAt(Contents(es), es[i].key.user, s) == Some(es[i].value)
  {
    var E, k, e := Contents(es), es[i].key.user, es[i];
    forall o | o in E && Visible(o, k, s) ensures o.key.seqno <= e.key.seqno {
      var j :| 0 <= j < |es| && es[j] == o;
      assert VisibleAt(es, s, j);
    }
    assert Newest(E, k, s, e);
    forall o | Newest(E, k, s, o) && o.key.kind.TypeValue? ensures o == e {
      var j :| 0 <= j < |es| && es[j] == o;
      assert VisibleAt(es, s, j);
    }
  }

  /** ... and every read that finds a value has its live entry. */
  lemma ReadIsLive(es: seq<Entry>, s: nat, k: UserKey) returns (i: int)
    requires SortedEntries(es)
    requires ReadAt(Contents(es), k, s).Some?
    ensures LiveAt(es, s, i) && es[i].key.user == k
  {
    var E := Contents(es);
    var e :| Newest(E, k, s, e) && e.key.kind.TypeValue?;
    i :| 0 <= i < |es| && es[i] == e;
    forall j | 0 <= j < i && VisibleAt(es, s, j) ensures es[j].key.user < es[i].key.user {
      assert es[j] in E && Less(es[j].key, es[i].key);
      assert Visible(es[j], k, s) ==> es[j].key.seqno <= es[i].key.seqno;
    }
  }

  // ----- The specification: a cursor on the map of live user keys -----

  /** `at` is the least live key that is above the bound (or not below it, when
      not strict); None when there is none. */
  ghost predicate LeastLive(es: seq<Entry>, s: nat, bound: UserKey, strict: bool, at: Option<UserKey>) {
    && (at.Some? ==> ReadAt(Contents(es), at.value, s).Some? && (bound < at.value || (!strict && bound == at.value)))
    && forall k | ReadAt(Contents(es), k, s).Some? && (bound < k || (!strict && bound == k)) ::
         at.Some? && at.value <= k
  }

  ghost predicate GreatestLive(es: seq<Entry>, s: nat, bound: UserKey, at: Option<UserKey>) {
    && (at.Some? ==> ReadAt(Contents(es), at.value, s).Some? && at.value < bound)
    && forall k | ReadAt(Contents(es), k, s).Some? && k < bound :: at.Some? && k <= at.value
  }

  ghost predicate FirstLive(es: seq<Entry>, s: nat, at: Option<UserKey>) {
    && (at.Some? ==> ReadAt(Contents(es), at.value, s).Some?)
    && forall k | ReadAt(Contents(es), k, s).Some? :: at.Some? && at.value <= k
  }

  ghost predicate LastLive(es: seq<Entry>, s: nat, at: Option<UserKey>) {
    && (at.Some? ==> ReadAt(Contents(es), at.value, s).Some?)
    && forall k | ReadAt(Contents(es), k, s).Some? :: at.Some? && k <= at.value
  }

  // ----- The same in terms of entry indices -----

  ghost predicate Hidden(skipping: bool, skip: Option<UserKey>, u: UserKey) {
    skipping && skip.Some? && u <= skip.value
  }

  /** i is the first live index from `start` on that is not hidden; |es| when
      there is none. */
  ghost predicate NextLive(es: seq<Entry>, s: nat, start: nat, skipping: bool, skip: Option<UserKey>, i: nat) {
    && start <= i <= |es|
    && (i < |es| ==> LiveAt(es, s, i) && !Hidden(skipping, skip, es[i].key.user))
    && forall l | start <= l < i && LiveAt(es, s, l) :: Hidden(skipping, skip, es[l].key.user)
  }

  /** l is the last live index below `end`; -1 when there is none. */
  ghost predicate PrevLive(es: seq<Entry>, s: nat, end: nat, l: int) {
    && -1 <= l < end
    && (l >= 0 ==> LiveAt(es, s, l))
    && forall i | l < i < end :: !LiveAt(es, s, i)
  }

  /** FindNextUserEntry may start at `start`: what is visible before it is
      either of smaller user keys or already being skipped. */
  ghost predicate MayFindNext(es: seq<Entry>, s: nat, start: nat, skipping: bool, skip: Option<UserKey>) {
    && (skipping ==> skip.Some?)
    && (start < |es| ==> forall j | 0 <= j < start && VisibleAt(es, s, j) ::
          es[j].key.user < es[start].key.user || Hidden(skipping, skip, es[j].key.user))
    && (skipping ==> forall j | start <= j < |es| && VisibleAt(es, s, j) :: skip.value <= es[j].key.user)
  }

  /** Where the underlying iterator stands while moving backwards: on the last
      visible entry of smaller user keys, or invalid when there is none. */
  ghost predicate BeforeKey(es: seq<Entry>, s: nat, at: nat, saved: UserKey) {
    && at <= |es|
    && (at < |es| ==> VisibleAt(es, s, at) && es[at].key.user < saved)
    && forall j | 0 <= j < |es| && VisibleAt(es, s, j) && es[j].key.user < saved :: at < |es| && j <= at
  }

  /** A live index reached forwards answers for the least live user key. */
  lemma NextLiveIsLeast(es: seq<Entry>, s: nat, bound: UserKey, strict: bool, i: nat)
    requires SortedEntries(es) && i <= |es|
    requires i < |es| ==> LiveAt(es, s, i) && (bound < es[i].key.user || (!strict && bound == es[i].key.user))
    requires forall l | 0 <= l < i && LiveAt(es, s, l) :: es[l].key.user < bound || (strict && es[l].key.user == bound)
    ensures LeastLive(es, s, bound, strict, if i < |es| then Some(es[i].key.user) else None)
  {
    if i < |es| {
      LiveIsRead(es, s, i);
    }
    forall k | ReadAt(Contents(es), k, s).Some? && (bound < k || (!strict && bound == k))
      ensures i < |es| && es[i].key.user <= k
    {
      var l := ReadIsLive(es, s, k);
      SortedUsers(es, i, l);
    }
  }

  lemma NextLiveIsFirst(es: seq<Entry>, s: nat, i: nat)
    requires SortedEntries(es) && NextLive(es, s, 0, false, None, i)
    ensures FirstLive(es, s, if i < |es| then Some(es[i].key.user) else None)
  {
    if i < |es| {
      LiveIsRead(es, s, i);
    }
    forall k | ReadAt(Contents(es), k, s).Some? ensures i < |es| && es[i].key.user <= k {
      var l := ReadIsLive(es, s, k);
      SortedUsers(es, i, l);
    }
  }

  /** ... and one reached backwards for the greatest. */
  lemma PrevLiveIsGreatest(es: seq<Entry>, s: nat, bound: UserKey, end: nat, l: int)
    requires SortedEntries(es) && end <= |es| && PrevLive(es, s, end, l)
    requires forall j | 0 <= j < end && VisibleAt(es, s, j) :: es[j].key.user < bound
    requires forall j | end <= j < |es| && VisibleAt(es, s, j) :: bound <= es[j].key.user
    ensures GreatestLive(es, s, bound, if l >= 0 then Some(es[l].key.user) else None)
  {
    if l >= 0 {
      LiveIsRead(es, s, l);
    }
    forall k | ReadAt(Contents(es), k, s).Some? && k < bound ensures l >= 0 && k <= es[l].key.user {
      var i := ReadIsLive(es, s, k);
      SortedUsers(es, i, l);
    }
  }

  lemma PrevLiveIsLast(es: seq<Entry>, s: nat, l: int)
    requires SortedEntries(es) && PrevLive(es, s, |es|, l)
    ensures LastLive(es, s, if l >= 0 then Some(es[l].key.user) else None)
  {
    if l >= 0 {
      LiveIsRead(es, s, l);
    }
    forall k | ReadAt(Contents(es), k, s).Some? ensures l >= 0 && k <= es[l].key.user {
      var i := ReadIsLive(es, s, k);
      SortedUsers(es, i, l);
    }
  }

  /** Going backwards, w is the newest visible entry of its key once an entry
      of a smaller key comes before it. */
  lemma WholeKeySeen(es: seq<Entry>, s: nat, i: nat, w: nat)
    requires SortedEntries(es) && i < w < |es|
    requires VisibleAt(es, s, i) && VisibleAt(es, s, w) && es[w].key.kind.TypeValue?
    requires es[i].key.user < es[w].key.user
    requires forall j | i < j < w :: !VisibleAt(es, s, j)
    ensures LiveAt(es, s, w) && BeforeKey(es, s, i, es[w].key.user)
    ensures forall l | i < l < w :: !LiveAt(es, s, l)
  {
    forall j | 0 <= j <= i ensures es[j].key.user < es[w].key.user {
      SortedUsers(es, j, i);
    }
    forall j | 0 <= j < |es| && VisibleAt(es, s, j) && es[j].key.user < es[w].key.user ensures j <= i {
      if i < j {
        SortedUsers(es, w, j);
      }
    }
  }

  /** What the entries after index c, up to `start`, have told a backwards scan:
      `kind` is that of the last visible one, w, and every live one but w has
      been passed over for good. */
  ghost predicate Scanned(es: seq<Entry>, s: nat, c: int, start: nat, kind: ValueType, w: nat) {
    && -1 <= c <= start < |es|
    && (kind.TypeValue? ==>
          && c < w <= start && VisibleAt(es, s, w) && es[w].key.kind.TypeValue?
          && forall j | c < j < w :: !VisibleAt(es, s, j))
    && forall l | c < l <= start && LiveAt(es, s, l) :: kind.TypeValue? && l == w
  }

  lemma ScanVisible(es: seq<Entry>, s: nat, i: nat, start: nat, kind: ValueType, w: nat)
    requires SortedEntries(es) && Scanned(es, s, i, start, kind, w) && VisibleAt(es, s, i)
    requires kind.TypeValue? ==> es[w].key.user <= es[i].key.user
    ensures Scanned(es, s, i - 1, start, es[i].key.kind, i)
  {
    forall l | i < l <= start ensures !LiveAt(es, s, l) {
    }
  }

  lemma ScanStarts(es: seq<Entry>, s: nat, start: nat)
    requires start < |es|
    ensures Scanned(es, s, start, start, TypeDeletion, 0)
  {
  }

  lemma ScanInvisible(es: seq<Entry>, s: nat, i: nat, start: nat, kind: ValueType, w: nat)
    requires Scanned(es, s, i, start, kind, w) && !VisibleAt(es, s, i)
    ensures Scanned(es, s, i - 1, start, kind, w)
  {
  }

  lemma NoneBefore(es: seq<Entry>, s: nat)
    ensures PrevLive(es, s, 0, -1)
  {
  }

  /** The beginning of the run: what is left is the newest of its key. */
  lemma ScanDone(es: seq<Entry>, s: nat, start: nat, kind: ValueType, w: nat)
    requires SortedEntries(es) && Scanned(es, s, -1, start, kind, w)
    ensures kind.TypeValue? ==> LiveAt(es, s, w) && BeforeKey(es, s, |es|, es[w].key.user)
    ensures PrevLive(es, s, start + 1, if kind.TypeValue? then w else -1)
  {
    if kind.TypeValue? {
      forall j | 0 <= j < |es| && VisibleAt(es, s, j) && es[j].key.user < es[w].key.user ensures false {
        if w < j {
          SortedUsers(es, w, j);
        }
      }
    }
  }

  /** An entry of a smaller key: w is the newest of its key. */
  lemma ScanStops(es: seq<Entry>, s: nat, i: nat, start: nat, w: nat)
    requires SortedEntries(es) && Scanned(es, s, i, start, TypeValue, w) && VisibleAt(es, s, i)
    requires es[i].key.user < es[w].key.user
    ensures LiveAt(es, s, w) && BeforeKey(es, s, i, es[w].key.user)
    ensures PrevLive(es, s, start + 1, w)
  {
    WholeKeySeen(es, s, i, w);
  }

  datatype Direction = Forward | Reverse

  class DBIter {
    const iter: Cursor
    const sequence: nat
    var savedKey: Option<UserKey>
    var savedValue: Value
    var direction: Direction
    var valid: bool
    /** The index of the entry that key() and value() are taken from. */
    ghost var live: nat

    ghost predicate Valid()
      reads this, iter
    {
      && iter.at <= |iter.entries|
      && SortedEntries(iter.entries)
      && (valid ==> LiveAt(iter.entries, sequence, live))
      && (valid && direction.Forward? ==> live == iter.at)
      && (valid && direction.Reverse? ==>
            && savedKey == Some(iter.entries[live].key.user)
            && savedValue == iter.entries[live].value
            && BeforeKey(iter.entries, sequence, iter.at, savedKey.value))
    }

    function Key(): UserKey
      requires Valid() && valid
      reads this, iter
    {
      if direction.Forward? then iter.entries[iter.at].key.user else savedKey.value
    }

    function CurrentValue(): Value
      requires Valid() && valid
      reads this, iter
    {
      if direction.Forward? then iter.entries[iter.at].value else savedValue
    }

    /** The abstract state: the user key the iterator stands on. */
    ghost function At(): Option<UserKey>
      requires Valid()
      reads this, iter
    {
      if valid then Some(Key()) else None
    }

    constructor (entries: seq<Entry>, s: nat)
      requires SortedEntries(entries)
      ensures Valid() && fresh(iter) && iter.entries == entries && sequence == s && At() == None
    {
      iter := new Cursor(entries);
      sequence := s;
      savedKey, savedValue, direction, valid := None, [], Forward, false;
    }

    /** key() and value() are a read of the entries at the sequence number. */
    lemma KeyAndValueAreRead()
      requires Valid() && valid
      ensures ReadAt(Contents(iter.entries), Key(), sequence) == Some(CurrentValue())
    {
      LiveIsRead(iter.entries, sequence, live);
    }

    method FindNextUserEntry(skipFirst: bool)
      requires iter.at < |iter.entries| && SortedEntries(iter.entries)
      requires direction.Forward?
      requires MayFindNext(iter.entries, sequence, iter.at, skipFirst, savedKey)
      modifies this`savedKey, this`valid, this`live, iter`at
      ensures Valid()
      ensures NextLive(iter.entries, sequence, old(iter.at), skipFirst, old(savedKey), iter.at)
      ensures valid <==> iter.at < |iter.entries|
      ensures valid ==> live == iter.at
    {
      var skipping := skipFirst;
      while iter.at < |iter.entries|
        invariant iter.at <= |iter.entries| && old(iter.at) <= iter.at
        invariant MayFindNext(iter.entries, sequence, iter.at, skipping, savedKey)
        invariant forall l | old(iter.at) <= l < iter.at && LiveAt(iter.entries, sequence, l) ::
                    Hidden(skipFirst, old(savedKey), iter.entries[l].key.user)
        invariant forall l | iter.at <= l < |iter.entries| && LiveAt(iter.entries, sequence, l) ::
                    Hidden(skipFirst, old(savedKey), iter.entries[l].key.user) <==> Hidden(skipping, savedKey, iter.entries[l].key.user)
        decreases |iter.entries| - iter.at
      {
        ghost var i := iter.at;
        var ikey := iter.entries[iter.at].key;
        if ikey.seqno <= sequence {
          assert VisibleAt(iter.entries, sequence, i);
          match ikey.kind {
            case TypeDeletion =>
              // All upcoming entries for this key are hidden by this deletion.
              savedKey := Some(ikey.user);
              skipping := true;
            case TypeValue =>
              if skipping && ikey.user <= savedKey.value {
                // Entry hidden.
              } else {
                valid := true;
                live := iter.at;
                savedKey := None;
                return;
              }
          }
        }
        iter.Next();
      }
      savedKey := None;
      valid := false;
    }

    /** Goes back to the last live entry at or before the current position. */
    method FindPrevUserEntry()
      requires iter.at <= |iter.entries| && SortedEntries(iter.entries)
      requires direction.Reverse?
      modifies this`savedKey, this`savedValue, this`valid, this`live, this`direction, iter`at
      ensures Valid()
      ensures var end := if old(iter.at) < |iter.entries| then old(iter.at) + 1 else 0;
        PrevLive(iter.entries, sequence, end, if valid then live else -1)
      ensures valid ==> direction.Reverse?
    {
      hide Scanned, LiveAt, PrevLive, BeforeKey, SortedEntries;
      ghost var es, start := iter.entries, iter.at;
      ghost var w: nat := 0;
      var valueType := TypeDeletion;
      if iter.Valid() {
        ScanStarts(es, sequence, start);
        while true
          invariant iter.at <= start < |es| && direction.Reverse?
          invariant Scanned(es, sequence, iter.at, start, valueType, w)
          invariant valueType.TypeValue? ==> w < |es| && savedKey == Some(es[w].key.user) && savedValue == es[w].value
          decreases iter.at
        {
          ghost var i := iter.at;
          var ikey := iter.entries[iter.at].key;
          if ikey.seqno <= sequence {
            if valueType != TypeDeletion && ikey.user < savedKey.value {
              // A non-deleted value in entries for previous keys.
              ScanStops(es, sequence, i, start, w);
              break;
            }
            ScanVisible(es, sequence, i, start, valueType, w);
            valueType := ikey.kind;
            w := i;
            if valueType == TypeDeletion {
              savedKey := None;
              savedValue := [];
            } else {
              savedKey := Some(ikey.user);
              savedValue := iter.entries[iter.at].value;
            }
          } else {
            ScanInvisible(es, sequence, i, start, valueType, w);
          }
          iter.Prev();
          if !iter.Valid() {
            ScanDone(es, sequence, start, valueType, w);
            break;
          }
        }
      } else {
        NoneBefore(es, sequence);
      }
      if valueType == TypeDeletion {
        valid := false;
        savedKey := None;
        savedValue := [];
        direction := Forward;
      } else {
        valid := true;
        live := w;
      }
    }

    method Next()
      requires Valid() && valid
      modifies this, iter
      ensures Valid()
      ensures LeastLive(iter.entries, sequence, old(Key()), true, At())
    {
      ghost var es, key := iter.entries, Key();
      if direction == Reverse {
        direction := Forward;
        // iter stands just before the entries for this key.
        if !iter.Valid() {
          iter.SeekToFirst();
        } else {
          iter.Next();
        }
        if !iter.Valid() {
          // The source gives up here, but the entries for this key are ahead.
          assert false;
        }
      } else {
        savedKey := Some(iter.entries[iter.at].key.user);
      }
      FindNextUserEntry(true);
      NextLiveIsLeast(es, sequence, key, true, iter.at);
    }

    method Prev()
      requires Valid() && valid
      modifies this, iter
      ensures Valid()
      ensures GreatestLive(iter.entries, sequence, old(Key()), At())
    {
      ghost var es, key := iter.entries, Key();
      if direction == Forward {
        // Scan backwards until the key changes.
        savedKey := Some(iter.entries[iter.at].key.user);
        while true
          invariant iter.at < |es| && key <= es[iter.at].key.user && savedKey == Some(key)
          decreases iter.at
        {
          iter.Prev();
          if !iter.Valid() {
            valid := false;
            savedKey := None;
            savedValue := [];
            PrevLiveIsGreatest(es, sequence, key, 0, -1);
            return;
          }
          if iter.entries[iter.at].key.user < savedKey.value {
            break;
          }
        }
        direction := Reverse;
      }
      ghost var end := if iter.at < |es| then iter.at + 1 else 0;
      FindPrevUserEntry();
      PrevLiveIsGreatest(es, sequence, key, end, if valid then live else -1);
    }

    method Seek(target: UserKey)
      requires Valid()
      modifies this, iter
      ensures Valid()
      ensures LeastLive(iter.entries, sequence, target, false, At())
    {
      direction := Forward;
      savedValue := [];
      savedKey := None;
      iter.Seek(LookupKey(target, sequence));
      if iter.Valid() {
        FindNextUserEntry(false);
      } else {
        valid := false;
      }
      NextLiveIsLeast(iter.entries, sequence, target, false, iter.at);
    }

    method SeekToFirst()
      requires Valid()
      modifies this, iter
      ensures Valid()
      ensures FirstLive(iter.entries, sequence, At())
    {
      direction := Forward;
      savedKey := None;
      savedValue := [];
      iter.SeekToFirst();
      if iter.Valid() {
        FindNextUserEntry(false);
      } else {
        valid := false;
      }
      NextLiveIsFirst(iter.entries, sequence, iter.at);
    }

    method SeekToLast()
      requires Valid()
      modifies this, iter
      ensures Valid()
      ensures LastLive(iter.entries, sequence, At())
    {
      direction := Reverse;
      savedValue := [];
      iter.SeekToLast();
      FindPrevUserEntry();
      PrevLiveIsLast(iter.entries, sequence, if valid then live else -1);
    }
  }
}
