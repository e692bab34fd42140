/** The bit set of required fields in pb_decode_noinit: two 32-bit words, a bit
    for each of the first 64 required fields, and the test at the end. */
module PbRequired {
  import opened PbWire
  import Coding

  const ALL_BITS := 0xFFFF_FFFF

  /** The word of n bits whose bit k says whether lo + k is in the set. */
  function WordOf(seen: set<nat>, lo: nat, n: nat): (w: nat)
    ensures w < Pow2(n)
    decreases n
  {
    if n == 0 then 0 else (if lo in seen then 1 else 0) + 2 * WordOf(seen, lo + 1, n - 1)
  }

  lemma OrOne(w: nat)
    ensures BitOr(w, 1) == 1 + 2 * (w / 2)
  {
  }

  /** `word | (1 << k)` adds an element. */
  lemma {:induction false} SetsBit(seen: set<nat>, lo: nat, n: nat, k: nat)
    requires k < n
    ensures BitOr(WordOf(seen, lo, n), Pow2(k)) == WordOf(seen + {lo + k}, lo, n)
    decreases n
  {
    var w, rest := WordOf(seen, lo, n), WordOf(seen, lo + 1, n - 1);
    assert w / 2 == rest && w % 2 == if lo in seen then 1 else 0;
    if k == 0 {
      Untouched(seen, {lo}, lo + 1, n - 1);
      OrOne(w);
    } else {
      SetsBit(seen, lo + 1, n - 1, k - 1);
      assert lo + 1 + (k - 1) == lo + k;
      hide BitOr;
      OrEven(w, Pow2(k - 1));
    }
  }

  lemma {:induction false} Untouched(seen: set<nat>, more: set<nat>, lo: nat, n: nat)
    requires forall k | lo <= k < lo + n :: k !in more
    ensures WordOf(seen + more, lo, n) == WordOf(seen, lo, n)
    decreases n
  {
    if n > 0 {
      Untouched(seen, more, lo + 1, n - 1);
    }
  }

  /** The low k bits are all set exactly when those elements are all there. */
  lemma {:induction false} LowBits(seen: set<nat>, lo: nat, n: nat, k: nat)
    requires k <= n && forall r | lo + k <= r < lo + n :: r !in seen
    ensures WordOf(seen, lo, n) == Pow2(k) - 1 <==> forall r | lo <= r < lo + k :: r in seen
    decreases n
  {
    if k == 0 {
      NoBits(seen, lo, n);
    } else {
      LowBits(seen, lo + 1, n - 1, k - 1);
      assert (forall r | lo <= r < lo + k :: r in seen)
        <==> lo in seen && forall r | lo + 1 <= r < lo + k :: r in seen;
    }
  }

  lemma {:induction false} NoBits(seen: set<nat>, lo: nat, n: nat)
    requires forall r | lo <= r < lo + n :: r !in seen
    ensures WordOf(seen, lo, n) == 0
    decreases n
  {
    if n > 0 {
      NoBits(seen, lo + 1, n - 1);
    }
  }

  /** `allbits >> (32 - k)` */
  lemma ShiftedOnes(k: nat)
    requires k <= 32
    ensures ALL_BITS / Pow2(32 - k) == Pow2(k) - 1
  {
    Powers();
    PowersMultiply(k, 32 - k);
    Quotient(Pow2(k), Pow2(32 - k));
  }

  lemma {:induction false} PowersMultiply(a: nat, b: nat)
    ensures Pow2(a) * Pow2(b) == Pow2(a + b)
  {
    if a > 0 {
      PowersMultiply(a - 1, b);
    }
  }

  lemma Quotient(a: nat, b: nat)
    requires a > 0 && b > 0
    ensures (a * b - 1) / b == a - 1
  {
    var x := a * b - 1;
    assert x == b * (a - 1) + (b - 1);
    Coding.ModUnique(x, b, a - 1, b - 1);
    assert b * (x / b) == b * (a - 1);
    if x / b != a - 1 {
      Coding.Multiples(b, x / b - (a - 1));
    }
  }

  ghost predicate Holds(fieldsSeen: seq<nat>, seen: set<nat>) {
    |fieldsSeen| == 2 && fieldsSeen[0] == WordOf(seen, 0, 32) && fieldsSeen[1] == WordOf(seen, 32, 32)
  }

  /** Setting the bit of a required field. */
  method See(fieldsSeen: seq<nat>, ghost seen: set<nat>, index: nat) returns (r: seq<nat>)
    requires Holds(fieldsSeen, seen) && index < 64
    ensures Holds(r, seen + {index})
  {
    hide WordOf, BitOr, Pow2;
    var word, bit := index / 32, index % 32;
    var tmp := BitOr(fieldsSeen[word], Pow2(bit));
    r := fieldsSeen[word := tmp];
    if index < 32 {
      SetsBit(seen, 0, 32, index);
      Untouched(seen, {index}, 32, 32);
    } else {
      SetsBit(seen, 32, 32, index - 32);
      Untouched(seen, {index}, 0, 32);
      assert 32 + (index - 32) == index;
    }
  }

  /** The check of the words: whole ones first, then the bits that remain. */
  method AllSeen(fieldsSeen: seq<nat>, ghost seen: set<nat>, count: nat) returns (ok: bool)
    requires Holds(fieldsSeen, seen) && count <= 64
    requires forall r | r in seen :: r < count
    ensures ok <==> forall r | 0 <= r < count :: r in seen
  {
    Powers();
    hide WordOf, Pow2;
    var i := 0;
    while i < count / 32
      invariant i <= count / 32
      invariant forall r | 0 <= r < 32 * i :: r in seen
    {
      LowBits(seen, 32 * i, 32, 32);
      if fieldsSeen[i] != ALL_BITS {
        return false;
      }
      i := i + 1;
    }
    if count % 32 != 0 {
      LowBits(seen, 32 * i, 32, count % 32);
      ShiftedOnes(count % 32);
      if fieldsSeen[count / 32] != ALL_BITS / Pow2(32 - count % 32) {
        return false;
      }
    }
    ok := true;
  }
}
