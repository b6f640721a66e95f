/** 64-bit words seen as bits. */
module Words {
  import opened Bits

  const WORD: nat := 64

  lemma BitStep(x: nat, c: nat, i: nat)
    requires c < 2
    ensures Bit(2 * x + c, i) <==> if i == 0 then c == 1 else Bit(x, i - 1)
  {
    DivModUnique(2 * x + c, 2, x, c);
  }

  lemma {:induction false} BitOfAnd(a: nat, b: nat, i: nat)
    ensures Bit(And(a, b), i) <==> Bit(a, i) && Bit(b, i)
  {
    if a == 0 {
      ZeroBits(i);
    } else {
      var c := if a % 2 == 1 && b % 2 == 1 then 1 else 0;
      assert And(a, b) == 2 * And(a / 2, b / 2) + c;
      hide And;
      BitStep(And(a / 2, b / 2), c, i);
      if i > 0 {
        BitOfAnd(a / 2, b / 2, i - 1);
      }
    }
  }

  lemma {:induction false} BitOfOr(a: nat, b: nat, i: nat)
    ensures Bit(Or(a, b), i) <==> Bit(a, i) || Bit(b, i)
  {
    if a == 0 && b == 0 {
      ZeroBits(i);
    } else {
      var c := if a % 2 == 1 || b % 2 == 1 then 1 else 0;
      assert Or(a, b) == 2 * Or(a / 2, b / 2) + c;
      hide Or;
      BitStep(Or(a / 2, b / 2), c, i);
      if i > 0 {
        BitOfOr(a / 2, b / 2, i - 1);
      }
    }
  }

  lemma {:induction false} BitOfXor(a: nat, b: nat, i: nat)
    ensures Bit(Xor(a, b), i) <==> Bit(a, i) != Bit(b, i)
  {
    if a == 0 && b == 0 {
      ZeroBits(i);
    } else {
      var c := if a % 2 != b % 2 then 1 else 0;
      assert Xor(a, b) == 2 * Xor(a / 2, b / 2) + c;
      hide Xor;
      BitStep(Xor(a / 2, b / 2), c, i);
      if i > 0 {
        BitOfXor(a / 2, b / 2, i - 1);
      }
    }
  }

  lemma {:induction false} ZeroBits(i: nat)
    ensures !Bit(0, i)
  {
    if i > 0 { ZeroBits(i - 1); }
  }

  /** The bits of 2^n - 2^s are those from s up to n. */
  lemma {:induction false} BitOfMask(n: nat, s: nat, i: nat)
    requires s <= n
    ensures Pow2(s) <= Pow2(n) && (Bit(Pow2(n) - Pow2(s), i) <==> s <= i < n)
  {
    Pow2Monotone(s, n);
    if n == 0 {
      ZeroBits(i);
    } else if s > 0 {
      var h := Pow2(n - 1) - Pow2(s - 1);
      BitOfMask(n - 1, s - 1, if i == 0 then 0 else i - 1);
      assert Pow2(n) - Pow2(s) == 2 * h;
    } else {
      BitOfMask(n - 1, 0, if i == 0 then 0 else i - 1);
      assert Pow2(n) - 1 == 2 * (Pow2(n - 1) - 1) + 1;
    }
  }

  /** A number below 2^n has no bit from n on. */
  lemma {:induction false} HighBits(a: nat, n: nat, i: nat)
    requires a < Pow2(n) && n <= i
    ensures !Bit(a, i)
  {
    if n == 0 {
      ZeroBits(i);
    } else {
      HighBits(a / 2, n - 1, i - 1);
    }
  }

  lemma {:induction false} AndBelow(a: nat, b: nat)
    ensures And(a, b) <= a
  {
    if a > 0 { AndBelow(a / 2, b / 2); }
  }

  lemma {:induction false} OrBelow(a: nat, b: nat, n: nat)
    requires a < Pow2(n) && b < Pow2(n)
    ensures Or(a, b) < Pow2(n)
  {
    if n > 0 && (a > 0 || b > 0) { OrBelow(a / 2, b / 2, n - 1); }
  }

  lemma {:induction false} XorBelow(a: nat, b: nat, n: nat)
    requires a < Pow2(n) && b < Pow2(n)
    ensures Xor(a, b) < Pow2(n)
  {
    if n > 0 && (a > 0 || b > 0) { XorBelow(a / 2, b / 2, n - 1); }
  }

  lemma {:induction false} SameBits(a: nat, b: nat)
    requires forall i: nat :: Bit(a, i) <==> Bit(b, i)
    ensures a == b
    decreases a + b
  {
    assert Bit(a, 0) <==> Bit(b, 0);
    if a > 0 || b > 0 {
      forall i: nat ensures Bit(a / 2, i) <==> Bit(b / 2, i) {
        assert Bit(a, i + 1) <==> Bit(b, i + 1);
      }
      SameBits(a / 2, b / 2);
    }
  }

  lemma Pow2Less(s: nat)
    requires s < WORD
    ensures Pow2(s) < TWO64
  {
    PowersOfTwo();
    Pow2Monotone(s + 1, WORD);
  }

  /** BITMAP_FIRST_WORD_MASK: the bits from the position of start in its word on. */
  function FirstWordMask(start: nat): nat {
    Pow2Less(start % WORD);
    TWO64 - Pow2(start % WORD)
  }

  /** BITMAP_LAST_WORD_MASK: the bits up to the position of nbits in its word, or all of them. */
  function LastWordMask(nbits: nat): nat { Pow2(WORD - (WORD - nbits % WORD) % WORD) - 1 }

  lemma FirstMaskBits(start: nat, i: nat)
    ensures 0 < FirstWordMask(start) < TWO64 && (Bit(FirstWordMask(start), i) <==> start % WORD <= i < WORD)
  {
    PowersOfTwo();
    Pow2Less(start % WORD);
    BitOfMask(WORD, start % WORD, i);
  }

  lemma LastMaskBits(nbits: nat, i: nat)
    requires nbits % WORD != 0
    ensures LastWordMask(nbits) < TWO64 && (Bit(LastWordMask(nbits), i) <==> i < nbits % WORD)
  {
    assert WORD - (WORD - nbits % WORD) % WORD == nbits % WORD;
    Pow2Less(nbits % WORD);
    BitOfMask(nbits % WORD, 0, i);
  }

  /** Clearing the low k bits of a word. */
  lemma HighMask(x: nat, k: nat)
    requires x < TWO64 && k < WORD
    ensures Pow2(k) < TWO64 && And(x, TWO64 - Pow2(k)) == x - Rem(x, Pow2(k))
  {
    hide And;
    Pow2Less(k);
    PowersOfTwo();
    AndHighMask(x, WORD, k);
  }

  /** Flipping all 64 bits. */
  lemma BitOfNot(a: nat, i: nat)
    requires a < TWO64 && i < WORD
    ensures Xor(a, TWO64 - 1) < TWO64 && (Bit(Xor(a, TWO64 - 1), i) <==> !Bit(a, i))
  {
    PowersOfTwo();
    BitOfMask(WORD, 0, i);
    BitOfXor(a, TWO64 - 1, i);
    XorBelow(a, TWO64 - 1, WORD);
  }
}
