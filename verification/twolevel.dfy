/** TwoLevelIterator: an index of block handles and the blocks they name, as one
    run.  A block may be empty. */
module TwoLevel {
  import opened DbFormat
  import opened Iterators

  type BlockFunction = map<Bytes, seq<Entry>>

  ghost predicate Known(index: seq<Entry>, f: BlockFunction) {
    forall i | 0 <= i < |index| :: index[i].value in f
  }

  /** The blocks one after the other. */
  ghost function Flat(index: seq<Entry>, f: BlockFunction): seq<Entry>
    requires Known(index, f)
  {
    if index == [] then [] else Flat(index[..|index| - 1], f) + f[index[|index| - 1].value]
  }

  /** Where block i starts in the concatenation. */
  ghost function Offset(index: seq<Entry>, f: BlockFunction, i: nat): nat
    requires Known(index, f) && i <= |index|
  {
    |Flat(index[..i], f)|
  }

  lemma OffsetStep(index: seq<Entry>, f: BlockFunction, i: nat)
    requires Known(index, f) && i < |index|
    ensures Offset(index, f, i + 1) == Offset(index, f, i) + |f[index[i].value]|
    ensures Offset(index, f, 0) == 0 && Offset(index, f, |index|) == |Flat(index, f)|
  {
    assert index[..i + 1][..i] == index[..i];
    assert index[..|index|] == index;
  }

  lemma OffsetEnds(index: seq<Entry>, f: BlockFunction)
    requires Known(index, f)
    ensures Offset(index, f, 0) == 0 && Offset(index, f, |index|) == |Flat(index, f)|
  {
    assert index[..|index|] == index;
  }

  lemma {:induction false} OffsetMonotone(index: seq<Entry>, f: BlockFunction, i: nat, j: nat)
    requires Known(index, f) && i <= j <= |index|
    ensures Offset(index, f, i) <= Offset(index, f, j)
  {
    if i < j {
      OffsetMonotone(index, f, i, j - 1);
      OffsetStep(index, f, j - 1);
    }
  }

  /** Entry p of block i is entry Offset(i) + p of the concatenation. */
  lemma {:induction false} FlatAt(index: seq<Entry>, f: BlockFunction, i: nat, p: nat)
    requires Known(index, f) && i < |index| && p < |f[index[i].value]|
    ensures Offset(index, f, i) + p < |Flat(index, f)|
    ensures Flat(index, f)[Offset(index, f, i) + p] == f[index[i].value][p]
  {
    var n := |index| - 1;
    var front := index[..n];
    assert front[..i] == index[..i];
    if i < n {
      FlatAt(front, f, i, p);
    }
  }

  /** Every entry of the concatenation is in some block. */
  lemma {:induction false} BlockOf(index: seq<Entry>, f: BlockFunction, at: nat) returns (i: nat, p: nat)
    requires Known(index, f) && at < |Flat(index, f)|
    ensures i < |index| && p < |f[index[i].value]| && at == Offset(index, f, i) + p
  {
    var n := |index| - 1;
    var front := index[..n];
    if at < |Flat(front, f)| {
      i, p := BlockOf(front, f, at);
      assert front[..i] == index[..i];
    } else {
      i, p := n, at - |Flat(front, f)|;
    }
  }

  /** What a table promises of its index: an index key lies at or above the keys
      of its block and below those of the blocks after it. */
  ghost predicate Separated(index: seq<Entry>, f: BlockFunction)
    requires Known(index, f)
  {
    && (forall i, p | 0 <= i < |index| && 0 <= p < |f[index[i].value]| :: !Less(index[i].key, f[index[i].value][p].key))
    && forall i, j, p | 0 <= i < j < |index| && 0 <= p < |f[index[j].value]| :: Less(index[i].key, f[index[j].value][p].key)
  }

  lemma BlockBelow(index: seq<Entry>, f: BlockFunction, i: nat, b: nat, q: nat, target: InternalKey)
    requires Known(index, f) && Separated(index, f)
    requires b < i <= |index| && q < |f[index[b].value]| && Less(index[b].key, target)
    ensures Less(f[index[b].value][q].key, target)
  {
    LessTransitive(f[index[b].value][q].key, index[b].key, target);
  }

  lemma BlockAbove(index: seq<Entry>, f: BlockFunction, i: nat, b: nat, q: nat, target: InternalKey)
    requires Known(index, f) && Separated(index, f)
    requires i < b < |index| && q < |f[index[b].value]| && !Less(index[i].key, target)
    ensures !Less(f[index[b].value][q].key, target)
  {
    LessTransitive(target, index[i].key, f[index[b].value][q].key);
  }

  /** Seeking in the index and then in its block finds the place in the whole
      run: the first entry not before the target, possibly in a later block. */
  lemma SeekLands(index: seq<Entry>, f: BlockFunction, i: nat, p: nat, target: InternalKey)
    requires Known(index, f) && Separated(index, f)
    requires i <= |index| && (forall j | 0 <= j < i :: Less(index[j].key, target))
    requires i < |index| ==> !Less(index[i].key, target)
    requires if i < |index| then p <= |f[index[i].value]| else p == 0
    requires i < |index| ==> forall q | 0 <= q < p :: Less(f[index[i].value][q].key, target)
    requires i < |index| && p < |f[index[i].value]| ==> !Less(f[index[i].value][p].key, target)
    ensures var at := Offset(index, f, i) + p;
      && at <= |Flat(index, f)|
      && (forall j | 0 <= j < at :: Less(Flat(index, f)[j].key, target))
      && (at < |Flat(index, f)| ==> !Less(Flat(index, f)[at].key, target))
  {
    hide Flat, Offset, Separated, Less;
    var flat, at := Flat(index, f), Offset(index, f, i) + p;
    OffsetEnds(index, f);
    if i < |index| {
      OffsetStep(index, f, i);
      OffsetMonotone(index, f, i + 1, |index|);
    }
    forall j | 0 <= j < |flat| ensures if j < at then Less(flat[j].key, target) else j == at ==> !Less(flat[j].key, target) {
      var b, q := BlockOf(index, f, j);
      FlatAt(index, f, b, q);
      if b < i {
        OffsetStep(index, f, b);
        OffsetMonotone(index, f, b + 1, i);
        BlockBelow(index, f, i, b, q, target);
      } else if b > i {
        OffsetMonotone(index, f, i + 1, b);
        BlockAbove(index, f, i, b, q, target);
      }
    }
  }

  /** The concatenation of the blocks of a table is a sorted run: what a merging
      iterator requires of its children. */
  lemma FlatIsSorted(index: seq<Entry>, f: BlockFunction)
    requires Known(index, f) && Separated(index, f)
    requires forall i | 0 <= i < |index| :: SortedEntries(f[index[i].value])
    ensures SortedEntries(Flat(index, f))
  {
    hide Flat, Offset;
    forall i, j | 0 <= i < j < |Flat(index, f)|
      ensures Less(Flat(index, f)[i].key, Flat(index, f)[j].key)
    {
      var a, p := BlockOf(index, f, i);
      var b, q := BlockOf(index, f, j);
      FlatAt(index, f, a, p);
      FlatAt(index, f, b, q);
      if b < a {
        OffsetStep(index, f, b);
        OffsetMonotone(index, f, b + 1, a);
        assert false;
      } else if a < b {
        LessTransitive(f[index[a].value][p].key, index[a].key, f[index[b].value][q].key);
      }
    }
  }

  class TwoLevelIterator {
    const indexIter: Cursor
    const blockFunction: BlockFunction
    var dataIter: Cursor?
    var dataBlockHandle: Bytes

    /** The parts fit: a data iterator belongs to the block the index is on. */
    ghost predicate Fits()
      reads this, indexIter, dataIter
    {
      && Known(indexIter.entries, blockFunction)
      && indexIter.at <= |indexIter.entries|
      && dataIter != indexIter
      && (dataIter != null ==>
            && indexIter.at < |indexIter.entries|
            && dataBlockHandle == indexIter.entries[indexIter.at].value
            && dataIter.entries == blockFunction[dataBlockHandle]
            && dataIter.at <= |dataIter.entries|)
    }

    ghost predicate Valid()
      reads this, indexIter, dataIter
    {
      Fits() && (dataIter != null ==> dataIter.Valid())
    }

    ghost function Whole(): seq<Entry>
      requires Known(indexIter.entries, blockFunction)
    {
      Flat(indexIter.entries, blockFunction)
    }

    ghost function Start(i: nat): nat
      requires Known(indexIter.entries, blockFunction) && i <= |indexIter.entries|
    {
      Offset(indexIter.entries, blockFunction, i)
    }

    /** The abstract state: an index into the concatenation, |Whole()| when the
        iterator is not valid. */
    ghost function Position(): nat
      requires Valid()
      reads this, indexIter, dataIter
    {
      if dataIter == null then |Whole()| else Start(indexIter.at) + dataIter.at
    }

    constructor (index: seq<Entry>, f: BlockFunction)
      requires Known(index, f)
      ensures Valid() && fresh(indexIter) && indexIter.entries == index && blockFunction == f
      ensures Position() == |Whole()|
    {
      indexIter := new Cursor(index);
      blockFunction := f;
      dataIter := null;
      dataBlockHandle := [];
    }

    /** key() and value() are those of the current entry of the whole run. */
    lemma EntryIsCurrent()
      requires Valid() && dataIter != null
      ensures Position() < |Whole()| && dataIter.entries[dataIter.at] == Whole()[Position()]
    {
      FlatAt(indexIter.entries, blockFunction, indexIter.at, dataIter.at);
    }

    method InitDataBlock()
      requires Known(indexIter.entries, blockFunction) && indexIter.at <= |indexIter.entries|
      requires dataIter != indexIter
      requires dataIter != null ==> dataBlockHandle in blockFunction && dataIter.entries == blockFunction[dataBlockHandle]
      modifies this
      ensures indexIter.Valid() <==> dataIter != null
      ensures dataIter == old(dataIter) || dataIter == null || fresh(dataIter)
      ensures dataIter != null ==>
        dataBlockHandle == indexIter.entries[indexIter.at].value && dataIter.entries == blockFunction[dataBlockHandle]
    {
      if !indexIter.Valid() {
        dataIter := null;
      } else {
        var handle := indexIter.entries[indexIter.at].value;
        if dataIter != null && handle == dataBlockHandle {
          // The data iterator is already constructed with this handle.
        } else {
          dataBlockHandle := handle;
          dataIter := new Cursor(blockFunction[handle]);
        }
      }
    }

    ghost function Data(): set<object>
      reads this
    {
      if dataIter == null then {} else {dataIter}
    }

    /** The position that is meant while the data iterator may be at the end of
        its block. */
    ghost function Ahead(): nat
      requires Fits()
      reads this, indexIter, dataIter
    {
      if dataIter == null then |Whole()| else Start(indexIter.at) + dataIter.at
    }

    method SkipEmptyDataBlocksForward()
      requires Fits() && (dataIter == null ==> !indexIter.Valid())
      modifies this, indexIter, Data()
      ensures Valid() && Position() == old(Ahead())
      ensures dataIter == old(dataIter) || dataIter == null || fresh(dataIter)
    {
      ghost var target := Ahead();
      while dataIter == null || !dataIter.Valid()
        invariant Fits() && (dataIter == null ==> !indexIter.Valid())
        invariant Ahead() == target
        invariant dataIter == old(dataIter) || dataIter == null || fresh(dataIter)
        decreases |indexIter.entries| - indexIter.at
      {
        // Move to the next block.
        if !indexIter.Valid() {
          dataIter := null;
          return;
        }
        OffsetStep(indexIter.entries, blockFunction, indexIter.at);
        OffsetEnds(indexIter.entries, blockFunction);
        indexIter.Next();
        InitDataBlock();
        if dataIter != null {
          dataIter.SeekToFirst();
        }
      }
    }

    /** The last position before the end of the blocks up to the current one. */
    method SkipEmptyDataBlocksBackward(ghost end: nat)
      requires Fits() && end <= |Whole()|
      requires dataIter == null ==> !indexIter.Valid() && end == 0
      requires dataIter != null ==> end == Start(indexIter.at) + if dataIter.Valid() then dataIter.at + 1 else 0
      modifies this, indexIter, Data()
      ensures Valid() && Position() == if end == 0 then |Whole()| else end - 1
      ensures dataIter == old(dataIter) || dataIter == null || fresh(dataIter)
    {
      while dataIter == null || !dataIter.Valid()
        invariant Fits()
        invariant dataIter == null ==> !indexIter.Valid() && end == 0
        invariant dataIter != null ==> end == Start(indexIter.at) + if dataIter.Valid() then dataIter.at + 1 else 0
        invariant dataIter == old(dataIter) || dataIter == null || fresh(dataIter)
        decreases if indexIter.Valid() then indexIter.at + 1 else 0
      {
        // Move to the previous block.
        if !indexIter.Valid() {
          dataIter := null;
          return;
        }
        OffsetEnds(indexIter.entries, blockFunction);
        if indexIter.at > 0 {
          OffsetStep(indexIter.entries, blockFunction, indexIter.at - 1);
        }
        indexIter.Prev();
        InitDataBlock();
        if dataIter != null {
          dataIter.SeekToLast();
        }
      }
    }

    method SeekToFirst()
      requires Valid()
      modifies this, indexIter, Data()
      ensures Valid() && Position() == 0
    {
      OffsetEnds(indexIter.entries, blockFunction);
      indexIter.SeekToFirst();
      InitDataBlock();
      if dataIter != null {
        dataIter.SeekToFirst();
      }
      SkipEmptyDataBlocksForward();
    }

    method SeekToLast()
      requires Valid()
      modifies this, indexIter, Data()
      ensures Valid() && Position() == if |Whole()| == 0 then 0 else |Whole()| - 1
    {
      OffsetEnds(indexIter.entries, blockFunction);
      indexIter.SeekToLast();
      InitDataBlock();
      if dataIter != null {
        OffsetStep(indexIter.entries, blockFunction, indexIter.at);
        dataIter.SeekToLast();
      }
      SkipEmptyDataBlocksBackward(|Whole()|);
    }

    method Next()
      requires Valid() && dataIter != null
      modifies this, indexIter, Data()
      ensures Valid() && Position() == old(Position()) + 1
    {
      dataIter.Next();
      SkipEmptyDataBlocksForward();
    }

    method Prev()
      requires Valid() && dataIter != null
      modifies this, indexIter, Data()
      ensures Valid() && Position() == if old(Position()) == 0 then |Whole()| else old(Position()) - 1
    {
      EntryIsCurrent();
      ghost var end := Position();
      dataIter.Prev();
      SkipEmptyDataBlocksBackward(end);
    }

    /** As Cursor.Seek on the whole run, given what the table promises. */
    method Seek(target: InternalKey)
      requires Valid() && Separated(indexIter.entries, blockFunction)
      modifies this, indexIter, Data()
      ensures Valid() && Position() <= |Whole()|
      ensures forall j | 0 <= j < Position() :: Less(Whole()[j].key, target)
      ensures Position() < |Whole()| ==> !Less(Whole()[Position()].key, target)
    {
      indexIter.Seek(target);
      InitDataBlock();
      if dataIter != null {
        dataIter.Seek(target);
      }
      OffsetEnds(indexIter.entries, blockFunction);
      SeekLands(indexIter.entries, blockFunction, indexIter.at, if dataIter == null then 0 else dataIter.at, target);
      SkipEmptyDataBlocksForward();
    }
  }
}
