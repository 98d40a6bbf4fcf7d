/**
 Powers of two, shifts and quotients, without division by variables.
 */
module Shifts {

  /** x >> pwr for q == 1 << pwr, by repeated subtraction. */
  function Quot(x: nat, q: nat): nat
    requires 0 < q
  {
    if x < q then 0 else 1 + Quot(x - q, q)
  }

  lemma {:induction false} QuotMono(x: nat, y: nat, q: nat)
    requires x <= y && 0 < q
    ensures Quot(x, q) <= Quot(y, q)
  {
    if q <= x {
      QuotMono(x - q, y - q, q);
    }
  }

  lemma QuotStep(len: nat, s: nat, q: nat)
    requires 0 < q <= s <= len
    ensures Quot(len - s, q) + 1 <= Quot(len, q)
  {
    QuotMono(len - s, len - q, q);
  }

  /** fls (m) - 1 */
  function Log2(m: nat): nat
    requires 0 < m
  {
    if m < 2 then 0 else 1 + Log2(m / 2)
  }

  function Pow2(k: nat): (q: nat)
    ensures 0 < q
  {
    if k == 0 then 1 else 2 * Pow2(k - 1)
  }

  function Shr(x: nat, k: nat): nat {
    if k == 0 then x else Shr(x / 2, k - 1)
  }

  lemma {:induction false} QuotHalf(x: nat, h: nat)
    requires 0 < h
    ensures Quot(x / 2, h) == Quot(x, 2 * h)
    decreases x
  {
    if 2 * h <= x {
      QuotHalf(x - 2 * h, h);
      assert (x - 2 * h) / 2 == x / 2 - h;
    }
  }

  lemma {:induction false} ShrIsQuot(x: nat, k: nat)
    ensures Shr(x, k) == Quot(x, Pow2(k))
    decreases k
  {
    if k == 0 {
      QuotByOne(x);
    } else {
      ShrIsQuot(x / 2, k - 1);
      QuotHalf(x, Pow2(k - 1));
    }
  }

  lemma {:induction false} QuotByOne(x: nat)
    ensures Quot(x, 1) == x
  {
    if x != 0 {
      QuotByOne(x - 1);
    }
  }

  lemma {:induction false} Log2Bounds(m: nat)
    requires 0 < m
    ensures Pow2(Log2(m)) <= m < 2 * Pow2(Log2(m))
  {
    if 2 <= m {
      Log2Bounds(m / 2);
    }
  }

  lemma {:induction false} Pow2Multiple(k: nat)
    ensures 2 <= k ==> Pow2(k) % 4 == 0
    ensures 3 <= k ==> Pow2(k) % 8 == 0
  {
    if 3 < k {
      Pow2Multiple(k - 1);
      DoubleMultiple(Pow2(k - 1));
    } else {
      SmallPowers();
    }
  }

  lemma DoubleMultiple(x: nat)
    requires x % 8 == 0
    ensures 2 * x % 8 == 0 && 2 * x % 4 == 0
  {
  }

  lemma SmallPowers()
    ensures Pow2(0) == 1 && Pow2(1) == 2 && Pow2(2) == 4 && Pow2(3) == 8
  {
    assert Pow2(1) == 2 * Pow2(0);
    assert Pow2(2) == 2 * Pow2(1);
    assert Pow2(3) == 2 * Pow2(2);
  }

  lemma {:induction false} Log2Mono(a: nat, b: nat)
    requires 0 < a <= b
    ensures Log2(a) <= Log2(b)
  {
    if 2 <= a {
      Log2Mono(a / 2, b / 2);
    }
  }

  lemma {:induction false} Pow2Mono(a: nat, b: nat)
    requires a <= b
    ensures Pow2(a) <= Pow2(b)
    decreases b
  {
    if a < b {
      Pow2Mono(a, b - 1);
    }
  }
}
