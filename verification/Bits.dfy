/**
Bitwise operations on naturals, written out bit by bit, and the few facts the
code generator, the page arithmetic and the field extraction need about them.
*/
module Bits {

  function Pow2(n: nat): (p: nat)
    ensures p > 0
  {
    if n == 0 then 1 else 2 * Pow2(n - 1)
  }

  lemma {:induction false} Pow2Add(m: nat, n: nat)
    ensures Pow2(m + n) == Pow2(m) * Pow2(n)
  {
    if m > 0 { Pow2Add(m - 1, n); }
  }

  lemma Pow2Table()
    ensures Pow2(12) == 0x1000 && Pow2(20) == 0x10_0000 && Pow2(32) == 0x1_0000_0000
    ensures Pow2(64) == 0x1_0000_0000_0000_0000
  {
    assert Pow2(4) == 16;
    Pow2Add(4, 4);
    Pow2Add(8, 4);
    Pow2Add(12, 8);
    Pow2Add(20, 12);
    Pow2Add(32, 32);
  }

  function BitAnd(a: nat, b: nat): nat
    decreases a
  {
    if a == 0 || b == 0 then 0
    else (if a % 2 == 1 && b % 2 == 1 then 1 else 0) + 2 * BitAnd(a / 2, b / 2)
  }

  function BitOr(a: nat, b: nat): nat
    decreases a + b
  {
    if a == 0 then b
    else if b == 0 then a
    else (if a % 2 == 1 || b % 2 == 1 then 1 else 0) + 2 * BitOr(a / 2, b / 2)
  }

  /** Splitting off the lowest bit commutes with taking the low `k` bits. */
  lemma ModPow2(a: nat, k: nat)
    requires k > 0
    ensures a % Pow2(k) == a % 2 + 2 * ((a / 2) % Pow2(k - 1))
  {
    var p := Pow2(k - 1);
    var q, r := (a / 2) / p, (a / 2) % p;
    assert a == (2 * p) * q + (a % 2 + 2 * r) by {
      assert a / 2 == p * q + r;
      assert 2 * (p * q) == (2 * p) * q;
    }
    DivModUnique(a, 2 * p, q, a % 2 + 2 * r);
  }

  lemma MulAtLeast(d: nat, k: int)
    requires k >= 1
    ensures d * k >= d
  {
  }

  lemma DivModUnique(a: nat, d: nat, q: nat, r: nat)
    requires d > 0 && r < d && a == d * q + r
    ensures a / d == q && a % d == r
  {
    var q', r' := a / d, a % d;
    assert a == d * q' + r' && r' < d;
    assert d * (q - q') == d * q - d * q';
    assert d * (q' - q) == d * q' - d * q;
    if q > q' {
      MulAtLeast(d, q - q');
    } else if q < q' {
      MulAtLeast(d, q' - q);
    }
  }

  /** The low `k` bits of `a`, taken one at a time. */
  function LowBits(a: nat, k: nat): nat {
    if k == 0 then 0 else a % 2 + 2 * LowBits(a / 2, k - 1)
  }

  lemma {:induction false} LowBitsIsMod(a: nat, k: nat)
    ensures LowBits(a, k) == a % Pow2(k)
  {
    if k > 0 {
      LowBitsIsMod(a / 2, k - 1);
      ModPow2(a, k);
    }
  }

  lemma AndStep(a: nat, b: nat)
    ensures BitAnd(a, b) == (if a % 2 == 1 && b % 2 == 1 then 1 else 0) + 2 * BitAnd(a / 2, b / 2)
  {
  }

  lemma {:induction false} AndLowBits(a: nat, k: nat)
    ensures BitAnd(a, Pow2(k) - 1) == LowBits(a, k)
    decreases k
  {
    if k > 0 {
      AndLowBits(a / 2, k - 1);
      var p := Pow2(k - 1);
      assert (2 * p - 1) / 2 == p - 1 && (2 * p - 1) % 2 == 1;
      AndStep(a, 2 * p - 1);
    }
  }

  /** `a & (2^k - 1)` is the remainder modulo `2^k`. */
  lemma AndLowMask(a: nat, k: nat)
    ensures BitAnd(a, Pow2(k) - 1) == a % Pow2(k)
  {
    AndLowBits(a, k);
    LowBitsIsMod(a, k);
  }

  lemma {:induction false} AndHighBits(a: nat, k: nat, n: nat)
    requires k <= n && a < Pow2(n)
    ensures Pow2(k) <= Pow2(n)
    ensures BitAnd(a, Pow2(n) - Pow2(k)) == a - LowBits(a, k)
    decreases n
  {
    if k == 0 {
      AndLowBits(a, n);
      AllBits(a, n);
    } else {
      AndHighBits(a / 2, k - 1, n - 1);
      var b := Pow2(n - 1) - Pow2(k - 1);
      assert (2 * b) / 2 == b && (2 * b) % 2 == 0;
      AndStep(a, 2 * b);
    }
  }

  lemma {:induction false} AllBits(a: nat, n: nat)
    requires a < Pow2(n)
    ensures LowBits(a, n) == a
  {
    if n > 0 { AllBits(a / 2, n - 1); }
  }

  /** `a & (2^n - 2^k)` clears the low `k` bits of an `n`-bit number. */
  lemma AndHighMask(a: nat, k: nat, n: nat)
    requires k <= n && a < Pow2(n)
    ensures Pow2(k) <= Pow2(n)
    ensures BitAnd(a, Pow2(n) - Pow2(k)) == a - a % Pow2(k)
  {
    AndHighBits(a, k, n);
    LowBitsIsMod(a, k);
  }

  lemma {:induction false} OrBound(a: nat, b: nat, n: nat)
    requires a < Pow2(n) && b < Pow2(n)
    ensures BitOr(a, b) < Pow2(n)
    decreases n
  {
    if a != 0 && b != 0 {
      OrBound(a / 2, b / 2, n - 1);
    }
  }

  lemma {:induction false} OrCommutes(a: nat, b: nat)
    ensures BitOr(a, b) == BitOr(b, a)
    decreases a + b
  {
    if a != 0 && b != 0 { OrCommutes(a / 2, b / 2); }
  }

  lemma {:induction false} AndBound(a: nat, b: nat)
    ensures BitAnd(a, b) <= a
    decreases a
  {
    if a != 0 && b != 0 { AndBound(a / 2, b / 2); }
  }

  lemma OrStep(a: nat, b: nat)
    ensures BitOr(a, b) == (if a % 2 == 1 || b % 2 == 1 then 1 else 0) + 2 * BitOr(a / 2, b / 2)
  {
  }

  /** Bits that do not overlap are added by `|`. */
  lemma {:induction false} OrDisjoint(hi: nat, lo: nat, k: nat)
    requires lo < Pow2(k)
    ensures BitOr(hi * Pow2(k), lo) == hi * Pow2(k) + lo
    ensures BitOr(lo, hi * Pow2(k)) == hi * Pow2(k) + lo
    decreases k
  {
    if k > 0 {
      OrDisjoint(hi, lo / 2, k - 1);
      DoubledShift(hi, k);
      OrDoubled(hi * Pow2(k - 1), lo);
    }
    OrCommutes(hi * Pow2(k), lo);
  }

  lemma DoubledShift(hi: nat, k: nat)
    requires k > 0
    ensures hi * Pow2(k) == 2 * (hi * Pow2(k - 1))
  {
    assert Pow2(k) == 2 * Pow2(k - 1);
  }

  lemma OrDoubled(h: nat, lo: nat)
    requires BitOr(h, lo / 2) == h + lo / 2
    ensures BitOr(2 * h, lo) == 2 * h + lo
  {
    assert (2 * h) / 2 == h && (2 * h) % 2 == 0;
    OrStep(2 * h, lo);
    hide BitOr;
  }

  /** Logical shift right, one bit at a time. */
  function Shr(a: nat, k: nat): nat
    decreases k
  {
    if k == 0 then a else Shr(a / 2, k - 1)
  }

  lemma HalveThenDivide(a: nat, p: nat)
    requires p > 0
    ensures (a / 2) / p == a / (2 * p)
  {
    var h := a / 2;
    var q, r := h / p, h % p;
    QuotientNonNegative(h, p);
    assert h == p * q + r && r < p;
    assert 2 * (p * q) == (2 * p) * q;
    DivModUnique(a, 2 * p, q, 2 * r + a % 2);
  }

  lemma QuotientNonNegative(a: nat, d: nat)
    requires d > 0
    ensures a / d >= 0
  {
  }

  lemma {:induction false} ShrIsDiv(a: nat, k: nat)
    ensures Shr(a, k) == a / Pow2(k)
    decreases k
  {
    if k > 0 {
      ShrIsDiv(a / 2, k - 1);
      HalveThenDivide(a, Pow2(k - 1));
    }
  }
}
