/** AlignValueUp, as the bit operations it is made of, and what they come to. */
module Alignment {
  import opened Bytes

  function Pow2(k: nat): (p: nat)
    ensures p >= 1
  {
    if k == 0 then 1 else 2 * Pow2(k - 1)
  }

  /** The bitwise conjunction of the w low-order bits. */
  function And(x: nat, y: nat, w: nat): nat
    decreases w, x
  {
    if w == 0 then 0
    else (if x % 2 == 1 && y % 2 == 1 then 1 else 0) + 2 * And(x / 2, y / 2, w - 1)
  }

  /** The bitwise complement of a w-bit number. */
  function Not(x: nat, w: nat): nat
    requires x < Pow2(w)
  {
    Pow2(w) - 1 - x
  }

  /** Rounding up in size_t arithmetic: (value + alignment - 1) & ~(alignment - 1). */
  function AlignValueUp(value: nat, alignment: nat): nat {
    QwordIsPow2();
    And((value + alignment + QWORD - 1) % QWORD, Not((alignment + QWORD - 1) % QWORD, 64), 64)
  }

  lemma {:induction false} Pow2Sum(a: nat, b: nat)
    ensures Pow2(a + b) == Pow2(a) * Pow2(b)
  {
    if a != 0 {
      Pow2Sum(a - 1, b);
      assert Pow2(a + b) == 2 * Pow2(a - 1 + b);
    }
  }

  lemma QwordIsPow2()
    ensures Pow2(64) == QWORD
  {
    assert Pow2(8) == 256;
    Pow2Sum(8, 8);
    Pow2Sum(16, 16);
    Pow2Sum(32, 32);
  }

  lemma {:induction false} Pow2Grows(k: nat, w: nat)
    requires k <= w
    ensures Pow2(k) <= Pow2(w)
  {
    if k < w {
      Pow2Grows(k, w - 1);
    }
  }

  /** x without its k low bits. */
  function Cleared(x: nat, k: nat): nat
    decreases k, x
  {
    if k == 0 then x else 2 * Cleared(x / 2, k - 1)
  }

  /** What the k low bits are taken off: x divided by 2^k. */
  function Shifted(x: nat, k: nat): nat
    decreases k, x
  {
    if k == 0 then x else Shifted(x / 2, k - 1)
  }

  lemma {:induction false} ClearedIs(x: nat, k: nat)
    ensures Cleared(x, k) == Pow2(k) * Shifted(x, k) && Cleared(x, k) <= x < Cleared(x, k) + Pow2(k)
  {
    if k != 0 {
      ClearedIs(x / 2, k - 1);
      Associate(2, Pow2(k - 1), Shifted(x / 2, k - 1));
    }
  }

  lemma Associate(a: nat, b: nat, c: nat)
    ensures a * (b * c) == a * b * c
  {
  }

  lemma {:induction false} AndOnes(x: nat, w: nat)
    requires x < Pow2(w)
    ensures And(x, Pow2(w) - 1, w) == x
  {
    if w != 0 {
      AndOnes(x / 2, w - 1);
      assert (Pow2(w) - 1) / 2 == Pow2(w - 1) - 1;
    }
  }

  /** Masking with all but the k low bits clears those. */
  lemma {:induction false} AndHighBits(x: nat, k: nat, w: nat)
    requires k <= w && x < Pow2(w) && Pow2(k) <= Pow2(w)
    ensures And(x, Pow2(w) - Pow2(k), w) == Cleared(x, k)
  {
    if k == 0 {
      AndOnes(x, w);
    } else {
      Pow2Grows(k - 1, w - 1);
      AndHighBits(x / 2, k - 1, w - 1);
      assert (Pow2(w) - Pow2(k)) / 2 == Pow2(w - 1) - Pow2(k - 1) && (Pow2(w) - Pow2(k)) % 2 == 0;
    }
  }

  lemma WithoutWrap(value: nat, a: nat)
    requires value < DWORD && 0 < a < DWORD
    ensures (value + a + QWORD - 1) % QWORD == value + a - 1 && (a + QWORD - 1) % QWORD == a - 1
  {
  }

  lemma Pow2Below(k: nat)
    requires k <= 31
    ensures Pow2(k) < DWORD && Pow2(k) <= Pow2(64)
  {
    assert Pow2(8) == 256;
    Pow2Sum(8, 8);
    Pow2Sum(16, 16);
    assert Pow2(32) == 2 * Pow2(31);
    Pow2Grows(k, 31);
    Pow2Grows(k, 64);
  }

  /** For a power of two, AlignValueUp clears the low bits of the value plus the alignment minus one. */
  lemma AlignedIs(value: nat, k: nat, a: nat)
    requires value < DWORD && k <= 31 && a == Pow2(k)
    ensures AlignValueUp(value, a) == Cleared(value + a - 1, k)
  {
    QwordIsPow2();
    Pow2Below(k);
    AndHighBits(value + a - 1, k, 64);
    WithoutWrap(value, a);
  }

  /** r is a times something. */
  ghost predicate Multiple(r: nat, a: nat) {
    exists q: nat :: r == Times(a, q)
  }

  function Times(a: nat, q: nat): nat {
    a * q
  }

  lemma TimesGrows(a: nat, x: nat, y: nat)
    requires x <= y
    ensures Times(a, x) <= Times(a, y)
  {
    Distribute(a, x, y - x);
    assert a * (y - x) >= 0;
  }

  lemma LeastAbove(v: nat, a: nat, q: nat, n: nat)
    requires a > 0 && Times(a, q) <= v + a - 1 && v <= Times(a, n)
    ensures Times(a, q) <= Times(a, n)
  {
    if q > n {
      TimesGrows(a, n + 1, q);
      Distribute(a, n, 1);
      assert false;
    } else {
      TimesGrows(a, q, n);
    }
  }

  lemma NextMultiple(v: nat, k: nat, a: nat, r: nat)
    requires a == Pow2(k) && r == Cleared(v + a - 1, k)
    ensures Multiple(r, a) && v <= r < v + a
    ensures forall m: nat :: Multiple(m, a) && v <= m ==> r <= m
  {
    var x := v + a - 1;
    ClearedIs(x, k);
    assert r == Times(a, Shifted(x, k));
    forall m: nat | Multiple(m, a) && v <= m
      ensures r <= m
    {
      var n: nat :| m == Times(a, n);
      LeastAbove(v, a, Shifted(x, k), n);
    }
  }

  /** For a power-of-two alignment the result is the least multiple that is not below the value, and it fits
      in a DWORD when value + alignment - 1 does. */
  lemma AlignIsLeastMultiple(value: nat, k: nat, a: nat)
    requires value < DWORD && k <= 31 && a == Pow2(k)
    ensures Multiple(AlignValueUp(value, a), a) && value <= AlignValueUp(value, a) < value + a
    ensures forall m: nat :: Multiple(m, a) && value <= m ==> AlignValueUp(value, a) <= m
    ensures value + a - 1 < DWORD ==> AlignValueUp(value, a) < DWORD
  {
    AlignedIs(value, k, a);
    NextMultiple(value, k, a, Cleared(value + a - 1, k));
  }
}
