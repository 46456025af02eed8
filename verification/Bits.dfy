/** 32-bit words, bit by bit. */
module Bits {
  type Word = bv32

  const ALL: Word := 0xFFFF_FFFF

  function Mask(n: nat): Word
    requires n < 32
  {
    (1 as Word) << (n as bv6)
  }

  /** The words have a bit in common. */
  predicate Meets(w: Word, a: Word) {
    w & a != 0
  }

  predicate Has(w: Word, n: nat)
    requires n < 32
  {
    Meets(w, Mask(n))
  }

  function Shifted(k: bv6): Word
    requires k < 32
  {
    (1 as Word) << k
  }

  lemma MaskIs(n: nat) returns (k: bv6)
    requires n < 32
    ensures k < 32 && k as nat == n && Mask(n) == Shifted(k)
  {
    k := n as bv6;
  }

  lemma ShiftsMeet(a: bv6, b: bv6)
    requires a < 32 && b < 32
    ensures Meets(Shifted(a), Shifted(b)) <==> a == b
  {
  }

  lemma MasksMeet(n: nat, k: nat)
    requires n < 32 && k < 32
    ensures Meets(Mask(n), Mask(k)) <==> n == k
  {
    var a := MaskIs(n);
    var b := MaskIs(k);
    hide Mask, Meets, Shifted;
    ShiftsMeet(a, b);
  }

  /** Setting a bit sets it and no other. */
  lemma OrHas(w: Word, n: nat, k: nat)
    requires n < 32 && k < 32
    ensures Has(w | Mask(n), k) == (k == n || Has(w, k))
  {
    hide Mask, Meets;
    MasksMeet(n, k);
    OrMeets(w, Mask(n), Mask(k));
  }

  /** Clearing a bit clears it and no other. */
  lemma AndNotHas(w: Word, n: nat, k: nat)
    requires n < 32 && k < 32
    ensures Has(w & !Mask(n), k) == (k != n && Has(w, k))
  {
    hide Mask, Meets, Has;
    AndNotMask(w, n, k);
    HasIs(w, k);
    HasIs(w & !Mask(n), k);
  }

  /** The word with bit `n` set or cleared. */
  function Put(w: Word, n: nat, v: bool): Word
    requires n < 32
  {
    if v then w | Mask(n) else w & !Mask(n)
  }

  lemma PutHas(w: Word, n: nat, v: bool, k: nat)
    requires n < 32 && k < 32
    ensures Has(Put(w, n, v), k) == if k == n then v else Has(w, k)
  {
    hide Has, Mask;
    if v {
      OrHas(w, n, k);
    } else {
      AndNotHas(w, n, k);
    }
  }

  lemma HasIs(w: Word, n: nat)
    requires n < 32
    ensures Has(w, n) == Meets(w, Mask(n))
  {
  }

  lemma AndNotMask(w: Word, n: nat, k: nat)
    requires n < 32 && k < 32
    ensures Meets(w & !Mask(n), Mask(k)) == (k != n && Meets(w, Mask(k)))
  {
    hide Mask, Meets;
    MasksMeet(n, k);
    if n == k {
      AndNotSelf(w, Mask(n));
    } else {
      AndNotMeets(w, Mask(n), Mask(k));
    }
  }

  lemma OrMeets(w: Word, a: Word, b: Word)
    ensures Meets(w | a, b) <==> Meets(w, b) || Meets(a, b)
  {
    OrAnd(w, a, b);
  }

  lemma OrAnd(w: Word, a: Word, b: Word)
    ensures (w | a) & b != 0 <==> w & b != 0 || a & b != 0
  {
  }

  lemma AndNotSelf(w: Word, a: Word)
    ensures !Meets(w & !a, a)
  {
  }

  lemma AndNotMeets(w: Word, a: Word, b: Word)
    requires !Meets(a, b)
    ensures Meets(w & !a, b) <==> Meets(w, b)
  {
  }

  lemma AllHas(n: nat)
    requires n < 32
    ensures Has(ALL, n)
  {
    var k := MaskIs(n);
    hide Mask;
    AllMeets(k);
  }

  lemma AllMeets(k: bv6)
    requires k < 32
    ensures Meets(ALL, Shifted(k))
  {
  }

  /** Words with the same bits are the same. */
  lemma SameWord(v: Word, w: Word)
    requires forall n :: 0 <= n < 32 ==> Has(v, n) == Has(w, n)
    ensures v == w
  {
    hide Has, Low, SameBelow;
    SameLow(v, w, 32, 32);
    LowAll(v, w);
  }

  /** The lowest `k` bits. */
  function Low(k: bv6): Word
    requires k <= 32
  {
    if k == 32 then ALL else ((1 as Word) << k) - 1
  }

  predicate SameBelow(v: Word, w: Word, k: bv6)
    requires k <= 32
  {
    !Meets(v ^ w, Low(k))
  }

  lemma {:induction false} SameLow(v: Word, w: Word, n: nat, k: bv6)
    requires k <= 32 && k as nat == n && forall i :: 0 <= i < n ==> Has(v, i) == Has(w, i)
    ensures SameBelow(v, w, k)
    decreases n
  {
    hide SameBelow, Mask, Meets, Shifted;
    if n == 0 {
      Zero(k);
      LowNone(v, w);
    } else {
      var j := MaskIs(n - 1);
      Next(j, k);
      assert Has(v, n - 1) == Has(w, n - 1);
      SameLow(v, w, n - 1, j);
      LowStep(v, w, j);
    }
  }

  lemma Zero(k: bv6)
    requires k as nat == 0
    ensures k == 0
  {
  }

  lemma Next(j: bv6, k: bv6)
    requires j < 32 && k <= 32 && k as nat == j as nat + 1
    ensures k == j + 1
  {
  }

  lemma LowNone(v: Word, w: Word)
    ensures SameBelow(v, w, 0)
  {
  }

  lemma LowStep(v: Word, w: Word, k: bv6)
    requires k < 32 && SameBelow(v, w, k)
    requires Meets(v, Shifted(k)) == Meets(w, Shifted(k))
    ensures SameBelow(v, w, k + 1)
  {
  }

  lemma LowAll(v: Word, w: Word)
    requires SameBelow(v, w, 32)
    ensures v == w
  {
  }
}
