/** Powers of two and the bitwise operators of C on natural numbers. */
module Bits {

  const TWO32: nat := 0x1_0000_0000
  const TWO64: nat := 0x1_0000_0000_0000_0000
  const PAGE_SIZE: nat := 4096

  type Byte = b: int | 0 <= b < 256

  function Min(a: int, b: int): int { if a < b then a else b }
  function Max(a: int, b: int): int { if a > b then a else b }

  function Pow2(k: nat): (r: nat)
    ensures r > 0
  {
    if k == 0 then 1 else 2 * Pow2(k - 1)
  }

  /** The numbers from lo up to, but not including, hi. */
  function Range(lo: nat, hi: nat): (r: set<nat>)
    ensures forall x :: x in r <==> lo <= x < hi
    ensures |r| == if lo <= hi then hi - lo else 0
  {
    if hi <= lo then {} else Range(lo, hi - 1) + {hi - 1}
  }

  /** Whether bit i of a is set. */
  predicate Bit(a: nat, i: nat) {
    if i == 0 then a % 2 == 1 else Bit(a / 2, i - 1)
  }

  function Xor(a: nat, b: nat): nat
    decreases a + b
  {
    if a == 0 && b == 0 then 0
    else 2 * Xor(a / 2, b / 2) + (if a % 2 != b % 2 then 1 else 0)
  }

  function And(a: nat, b: nat): nat {
    if a == 0 then 0
    else 2 * And(a / 2, b / 2) + (if a % 2 == 1 && b % 2 == 1 then 1 else 0)
  }

  function Or(a: nat, b: nat): nat
    decreases a + b
  {
    if a == 0 && b == 0 then 0
    else 2 * Or(a / 2, b / 2) + (if a % 2 == 1 || b % 2 == 1 then 1 else 0)
  }

  lemma {:induction false} Pow2Adds(j: nat, k: nat)
    ensures Pow2(j + k) == Pow2(j) * Pow2(k)
  {
    if j > 0 {
      Pow2Adds(j - 1, k);
      assert Pow2(j + k) == 2 * Pow2(j - 1 + k);
    }
  }

  lemma Pow2Monotone(j: nat, k: nat)
    requires j <= k
    ensures Pow2(j) <= Pow2(k)
  {
    Pow2Adds(j, k - j);
    assert Pow2(j) * Pow2(k - j) >= Pow2(j) * 1;
  }

  lemma PowersOfTwo()
    ensures Pow2(8) == 0x100 && Pow2(16) == 0x1_0000 && Pow2(32) == 0x1_0000_0000 && Pow2(64) == TWO64
  {
    assert Pow2(4) == 16;
    Pow2Adds(4, 4);
    Pow2Adds(8, 8);
    Pow2Adds(16, 16);
    Pow2Adds(32, 32);
  }

  lemma MulMonotone(x: int, y: int, d: nat)
    ensures x <= y ==> x * d <= y * d
  {
    if x <= y {
      assert y * d - x * d == (y - x) * d;
    }
  }

  /** Product, quotient and remainder of naturals, by names that can be kept closed. */
  function Mul(x: nat, y: nat): nat { x * y }

  function Quot(x: nat, n: nat): nat
    requires n > 0
  {
    x / n
  }

  function Rem(x: nat, n: nat): nat
    requires n > 0
  {
    x % n
  }

  lemma MulAssociates(x: int, y: int, z: int)
    ensures x * (y * z) == (x * y) * z
  {
  }

  /** Halving commutes with dividing by a power of two. */
  lemma HalfThenDivide(a: nat, d: nat)
    requires d > 0
    ensures (a / 2) / d == a / (2 * d)
    ensures a % (2 * d) == 2 * ((a / 2) % d) + a % 2
  {
    var h := a / 2;
    var q, m := h / d, h % d;
    assert a == 2 * (q * d + m) + a % 2;
    assert a == q * (2 * d) + (2 * m + a % 2);
    DivModUnique(a, 2 * d, q, 2 * m + a % 2);
  }

  lemma DivModUnique(a: int, d: int, q: int, m: int)
    requires d > 0 && 0 <= m < d && a == q * d + m
    ensures a / d == q && a % d == m
  {
    var e := a / d - q;
    assert a == (a / d) * d + a % d;
    assert e * d == m - a % d by { assert (a / d - q) * d == (a / d) * d - q * d; }
    NoSmallMultiple(e, d);
  }

  /** The only multiple of d strictly between -d and d is zero. */
  lemma QuotRem(x: nat, n: nat)
    requires n > 0
    ensures x == Mul(Quot(x, n), n) + Rem(x, n) && Rem(x, n) < n
  {
  }

  lemma QuotRemUnique(x: nat, n: nat, q: nat, m: nat)
    requires m < n && x == Mul(q, n) + m
    ensures Quot(x, n) == q && Rem(x, n) == m
  {
    DivModUnique(x, n, q, m);
  }

  lemma NoSmallMultiple(e: int, d: int)
    requires d > 0 && -d < e * d < d
    ensures e == 0
  {
  }

  /** Bit i is the parity of a divided by 2^i. */
  lemma {:induction false} BitIsParity(a: nat, i: nat)
    ensures Bit(a, i) <==> (a / Pow2(i)) % 2 == 1
  {
    if i > 0 {
      BitIsParity(a / 2, i - 1);
      HalfThenDivide(a, Pow2(i - 1));
    }
  }

  lemma {:induction false} XorZero(a: nat)
    ensures Xor(a, 0) == a
  {
    if a > 0 { XorZero(a / 2); }
  }

  /** Exclusive-or with a single bit adds or subtracts that power of two. */
  lemma {:induction false} XorSingleBit(a: nat, k: nat)
    ensures Bit(a, k) ==> a >= Pow2(k)
    ensures Xor(a, Pow2(k)) == if Bit(a, k) then a - Pow2(k) else a + Pow2(k)
  {
    if k == 0 {
      XorZero(a / 2);
    } else {
      XorSingleBit(a / 2, k - 1);
      assert Pow2(k) / 2 == Pow2(k - 1) && Pow2(k) % 2 == 0;
    }
  }

  lemma {:induction false} AndSelf(a: nat)
    ensures And(a, a) == a
  {
    if a > 0 { AndSelf(a / 2); }
  }

  /** A number and its single-bit flip agree, under "and", on the smaller of the two. */
  lemma {:induction false} AndOfFlip(a: nat, k: nat)
    ensures And(Xor(a, Pow2(k)), a) == if Bit(a, k) then Xor(a, Pow2(k)) else a
  {
    var x := Xor(a, Pow2(k));
    FlipHalves(a, k);
    if k == 0 {
      AndSelf(a / 2);
    } else {
      AndOfFlip(a / 2, k - 1);
    }
  }

  /** Flipping bit k flips bit k - 1 of the half, or the parity. */
  lemma FlipHalves(a: nat, k: nat)
    ensures var x := Xor(a, Pow2(k));
            if k == 0 then x / 2 == a / 2 && x % 2 != a % 2
            else x / 2 == Xor(a / 2, Pow2(k - 1)) && x % 2 == a % 2
  {
    if k == 0 {
      XorZero(a / 2);
    } else {
      assert Pow2(k) / 2 == Pow2(k - 1) && Pow2(k) % 2 == 0;
    }
  }

  lemma AndDouble(x: nat, m: nat)
    ensures And(x, 2 * m) == 2 * And(x / 2, m)
    ensures And(x, 2 * m + 1) == 2 * And(x / 2, m) + x % 2
  {
    assert (2 * m) / 2 == m && (2 * m) % 2 == 0 && (2 * m + 1) / 2 == m && (2 * m + 1) % 2 == 1;
  }

  lemma {:induction false} AndAllOnes(x: nat, n: nat)
    requires x < Pow2(n)
    ensures And(x, Pow2(n) - 1) == x
  {
    if n > 0 {
      AndDouble(x, Pow2(n - 1) - 1);
      AndAllOnes(x / 2, n - 1);
    }
  }

  /** Keeping the low n bits is the remainder modulo 2^n. */
  lemma {:induction false} AndLowMask(x: nat, n: nat)
    ensures And(x, Pow2(n) - 1) == Rem(x, Pow2(n))
  {
    hide And, Rem;
    if n == 0 {
      AndZero(x);
      assert Rem(x, 1) == 0 by { RemOne(x); }
    } else {
      var p := Pow2(n - 1);
      assert Pow2(n) == 2 * p;
      hide Pow2;
      AndLowMask(x / 2, n - 1);
      AndDouble(x, p - 1);
      assert Pow2(n) - 1 == 2 * (p - 1) + 1;
      RemDouble(x, p);
    }
  }

  lemma RemOne(x: nat)
    ensures Rem(x, 1) == 0
  {
  }

  lemma RemDouble(x: nat, p: nat)
    requires p > 0
    ensures Rem(x, 2 * p) == 2 * Rem(x / 2, p) + x % 2
  {
    HalfThenDivide(x, p);
  }

  lemma {:induction false} AndZero(x: nat)
    ensures And(x, 0) == 0
  {
    if x > 0 { AndZero(x / 2); }
  }

  /** Masking off the low k bits of an n-bit number rounds it down to a multiple of 2^k. */
  lemma {:induction false} AndHighMask(x: nat, n: nat, k: nat)
    requires k <= n && x < Pow2(n)
    ensures Pow2(k) <= Pow2(n) && And(x, Pow2(n) - Pow2(k)) == x - Rem(x, Pow2(k))
  {
    hide And, Rem;
    if k == 0 {
      AndAllOnes(x, n);
      RemOne(x);
    } else {
      var p, q := Pow2(n - 1), Pow2(k - 1);
      assert Pow2(n) == 2 * p && Pow2(k) == 2 * q;
      hide Pow2;
      AndHighMask(x / 2, n - 1, k - 1);
      AndDouble(x, p - q);
      assert Pow2(n) - Pow2(k) == 2 * (p - q);
      RemDouble(x, q);
    }
  }

  lemma DivisionBound(x: nat, m: nat, n: nat)
    requires n > 0 && x < Mul(m, n)
    ensures Quot(x, n) < m && Rem(x, n) < n && x == Mul(Quot(x, n), n) + Rem(x, n)
  {
    if x / n >= m {
      MulMonotone(m, x / n, n);
    }
  }

  lemma TwoDigits(base: nat, hi: nat, lo: nat, size: nat)
    requires hi < size && lo < base
    ensures Mul(hi, base) + lo < Mul(size, base) && Quot(Mul(hi, base) + lo, base) == hi
            && Rem(Mul(hi, base) + lo, base) == lo
  {
    MulMonotone(hi + 1, size, base);
    DivModUnique(hi * base + lo, base, hi, lo);
  }
}
