/** Finding the lowest set bit of a word. */
module Log2 {
  import opened Bits

  /** The number of zero bits below the lowest set bit. */
  function TrailingZeros(n: nat): (k: nat)
    requires n > 0
    decreases n
  {
    if n % 2 == 1 then 0 else 1 + TrailingZeros(n / 2)
  }

  /** The lowest set bit is set and 2^k is the largest power of two dividing n. */
  lemma {:induction false} TrailingZerosIs(n: nat)
    requires n > 0
    ensures n % Pow2(TrailingZeros(n)) == 0 && Bit(n, TrailingZeros(n))
    ensures forall i :: 0 <= i < TrailingZeros(n) ==> !Bit(n, i)
  {
    if n % 2 == 0 {
      TrailingZerosIs(n / 2);
      HalfThenDivide(n, Pow2(TrailingZeros(n / 2)));
    }
  }

  /** Dividing out 2^k takes k off the count. */
  lemma {:induction false} TrailingZerosShift(n: nat, k: nat)
    requires n > 0 && n % Pow2(k) == 0
    ensures n / Pow2(k) > 0 && TrailingZeros(n) == k + TrailingZeros(n / Pow2(k))
  {
    if k > 0 {
      HalfThenDivide(n, Pow2(k - 1));
      TrailingZerosShift(n / 2, k - 1);
    }
  }

  lemma {:induction false} TrailingZerosBelow(n: nat, k: nat)
    requires n > 0 && n % Pow2(k) != 0
    ensures TrailingZeros(n) < k
  {
    if k > 0 && n % 2 == 0 {
      HalfThenDivide(n, Pow2(k - 1));
      TrailingZerosBelow(n / 2, k - 1);
    }
  }

  /** One step of __ffs: skip k bits if the low k bits are all zero. */
  method FfsStep(num: nat, word: nat, k: nat, p: nat, ghost n: nat) returns (num': nat, word': nat)
    requires p == Pow2(k)
    requires word > 0 ==> n > 0 && num + TrailingZeros(word) == TrailingZeros(n) && TrailingZeros(word) < 2 * k
    ensures if word == 0 then word' == 0 && num' == num + k
            else word' > 0 && num' + TrailingZeros(word') == TrailingZeros(n) && TrailingZeros(word') < k
  {
    num', word' := num, word;
    DivModUnique(0, p, 0, 0);
    if word % p == 0 {
      if word > 0 { TrailingZerosShift(word, k); }
      num', word' := num + k, word / p;
    } else {
      TrailingZerosBelow(word, k);
    }
  }

  /** __ffs on a 64-bit word: the position of the lowest set bit, and 63 for the word 0. */
  method Ffs(word: nat) returns (num: nat)
    requires word < TWO64
    ensures num == if word == 0 then 63 else TrailingZeros(word)
  {
    if word > 0 { FewerThan64(word); }
    assert Pow2(1) == 2 && Pow2(2) == 4 && Pow2(4) == 16;
    PowersOfTwo();
    var w;
    num, w := FfsStep(0, word, 32, 0x1_0000_0000, word);
    num, w := FfsStep(num, w, 16, 0x1_0000, word);
    num, w := FfsStep(num, w, 8, 0x100, word);
    num, w := FfsStep(num, w, 4, 0x10, word);
    num, w := FfsStep(num, w, 2, 4, word);
    if w % 2 == 0 {
      num := num + 1;
    }
  }

  lemma FewerThan64(n: nat)
    requires 0 < n < TWO64
    ensures TrailingZeros(n) < 64
  {
    PowersOfTwo();
    TrailingZerosBelow(n, 64);
  }

  /** The number of bits of n without leading zeros. */
  function BitLength(n: nat): nat {
    if n == 0 then 0 else 1 + BitLength(n / 2)
  }

  lemma {:induction false} BitLengthBound(n: nat, k: nat)
    ensures BitLength(n) <= k <==> n < Pow2(k)
  {
    if n > 0 && k > 0 {
      BitLengthBound(n / 2, k - 1);
    }
  }

  lemma {:induction false} BitLengthShift(n: nat, k: nat)
    requires n > 0
    ensures Mul(n, Pow2(k)) > 0 && BitLength(Mul(n, Pow2(k))) == BitLength(n) + k
  {
    if k == 0 {
      assert Mul(n, 1) == n;
    } else {
      BitLengthShift(n, k - 1);
      MulDouble(n, Pow2(k - 1));
      hide Mul;
      var h := Mul(n, Pow2(k - 1));
      assert Mul(n, Pow2(k)) == 2 * h;
    }
  }

  lemma MulDouble(n: nat, p: nat)
    ensures Mul(n, 2 * p) == 2 * Mul(n, p)
  {
  }

  lemma {:induction false} BitLengthOnes(k: nat)
    ensures BitLength(Pow2(k) - 1) == k
  {
    if k > 0 {
      BitLengthOnes(k - 1);
      assert (Pow2(k) - 1) / 2 == Pow2(k - 1) - 1;
    }
  }

  /** One step of __fls: shift the word up by k bits if its top k bits are all zero. */
  method FlsStep(num: nat, word: nat, k: nat, limit: nat, p: nat, ghost n: nat) returns (num': nat, word': nat)
    requires 0 < k < 64 && p == Pow2(k) && limit == Pow2(64 - k) && Mul(limit, p) == TWO64
    requires 0 < word < TWO64 && 64 - 2 * k < BitLength(word) && k <= num && BitLength(n) + 63 == BitLength(word) + num
    ensures 0 < word' < TWO64 && 64 - k < BitLength(word') && BitLength(n) + 63 == BitLength(word') + num'
    ensures num - k <= num' <= num
  {
    hide Mul, Pow2, BitLength;
    BitLengthBound(word, 64 - k);
    BitLengthShift(word, k);
    ShiftFits(word, limit, p);
    num', word' := num, word;
    if word < limit {
      num', word' := num - k, Mul(word, p);
    }
  }

  lemma ShiftFits(word: nat, limit: nat, p: nat)
    requires p > 0
    ensures word < limit ==> Mul(word, p) < Mul(limit, p)
  {
    if word < limit { MulMonotone(word + 1, limit, p); }
  }

  /** __fls and fls64: the number of bits of a word. */
  method Fls64(x: nat) returns (n: nat)
    requires x < TWO64
    ensures n == BitLength(x)
  {
    if x == 0 {
      return 0;
    }
    BitLengthBound(x, 0);
    FlsConstants();
    hide Mul, Pow2, BitLength;
    var num, word := FlsStep(63, x, 32, 0x1_0000_0000, 0x1_0000_0000, x);
    num, word := FlsStep(num, word, 16, 0x1_0000_0000_0000, 0x1_0000, x);
    num, word := FlsStep(num, word, 8, 0x100_0000_0000_0000, 0x100, x);
    num, word := FlsStep(num, word, 4, 0x1000_0000_0000_0000, 0x10, x);
    num, word := FlsStep(num, word, 2, 0x4000_0000_0000_0000, 4, x);
    num, word := FlsStep(num, word, 1, 0x8000_0000_0000_0000, 2, x);
    PowersOfTwo();
    BitLengthBound(word, 64);
    n := num + 1;
  }

  lemma FlsConstants()
    ensures Pow2(1) == 2 && Pow2(2) == 4 && Pow2(4) == 16 && Pow2(8) == 0x100 && Pow2(16) == 0x1_0000
            && Pow2(32) == 0x1_0000_0000
    ensures Pow2(48) == 0x1_0000_0000_0000 && Pow2(56) == 0x100_0000_0000_0000 && Pow2(60) == 0x1000_0000_0000_0000
    ensures Pow2(62) == 0x4000_0000_0000_0000 && Pow2(63) == 0x8000_0000_0000_0000
    ensures Mul(0x1_0000_0000, 0x1_0000_0000) == TWO64 && Mul(0x1_0000_0000_0000, 0x1_0000) == TWO64
    ensures Mul(0x100_0000_0000_0000, 0x100) == TWO64 && Mul(0x1000_0000_0000_0000, 0x10) == TWO64
    ensures Mul(0x4000_0000_0000_0000, 4) == TWO64 && Mul(0x8000_0000_0000_0000, 2) == TWO64
  {
    PowersOfTwo();
    Pow2Adds(16, 32);
    Pow2Adds(8, 48);
    Pow2Adds(4, 56);
    Pow2Adds(2, 60);
    Pow2Adds(1, 62);
    assert Pow2(1) == 2 && Pow2(2) == 4 && Pow2(4) == 16;
  }
}
