/** Finding the first zero byte of a word without looking at its bytes. */
module WordAtATime {
  import opened Bits
  import opened Log2
  import opened Words
  import opened UserMemory

  lemma AndStep(x: nat, y: nat, i: nat, j: nat)
    requires i < 2 && j < 2
    ensures And(2 * x + i, 2 * y + j) == 2 * And(x, y) + (if i == 1 && j == 1 then 1 else 0)
  {
    assert (2 * x + i) / 2 == x && (2 * x + i) % 2 == i && (2 * y + j) / 2 == y && (2 * y + j) % 2 == j;
  }

  lemma OrStep(x: nat, y: nat, i: nat, j: nat)
    requires i < 2 && j < 2
    ensures Or(2 * x + i, 2 * y + j) == 2 * Or(x, y) + (if i == 1 || j == 1 then 1 else 0)
  {
    assert (2 * x + i) / 2 == x && (2 * x + i) % 2 == i && (2 * y + j) / 2 == y && (2 * y + j) % 2 == j;
  }

  lemma AndStepTwice(a: nat, b: nat, x: nat, y: nat, r: nat, i: nat, j: nat)
    requires i < 2 && j < 2 && And(x, y) == And(a, b) + r
    ensures And(2 * x + i, 2 * y + j) == And(2 * a + i, 2 * b + j) + 2 * r
  {
    hide And;
    AndStep(a, b, i, j);
    AndStep(x, y, i, j);
  }

  /** "And" works on the low k bits and on the rest separately. */
  lemma {:induction false} AndSplit(a: nat, b: nat, x: nat, y: nat, k: nat)
    requires a < Pow2(k) && b < Pow2(k)
    ensures And(a + Mul(Pow2(k), x), b + Mul(Pow2(k), y)) == And(a, b) + Mul(Pow2(k), And(x, y))
  {
    hide And;
    if k == 0 {
      AndZero(0);
    } else {
      hide Mul, Pow2;
      var p := Pow2(k - 1);
      HalfOf(a, x, k);
      HalfOf(b, y, k);
      HalfOf(0, And(x, y), k);
      AndSplit(a / 2, b / 2, x, y, k - 1);
      AndStepTwice(a / 2, b / 2, a / 2 + Mul(p, x), b / 2 + Mul(p, y), Mul(p, And(x, y)), a % 2, b % 2);
    }
  }

  lemma {:induction false} OrSplit(a: nat, b: nat, x: nat, y: nat, k: nat)
    requires a < Pow2(k) && b < Pow2(k)
    ensures Or(a + Mul(Pow2(k), x), b + Mul(Pow2(k), y)) == Or(a, b) + Mul(Pow2(k), Or(x, y))
  {
    hide Or;
    if k == 0 {
      OrZero(0);
    } else {
      hide Mul, Pow2;
      var p := Pow2(k - 1);
      HalfOf(a, x, k);
      HalfOf(b, y, k);
      HalfOf(0, Or(x, y), k);
      OrSplit(a / 2, b / 2, x, y, k - 1);
      OrStep(a / 2, b / 2, a % 2, b % 2);
      OrStep(a / 2 + Mul(p, x), b / 2 + Mul(p, y), a % 2, b % 2);
    }
  }

  lemma HalfOf(a: nat, x: nat, k: nat)
    requires k > 0
    ensures a + Mul(Pow2(k), x) == 2 * (a / 2 + Mul(Pow2(k - 1), x)) + a % 2 && a == 2 * (a / 2) + a % 2
    ensures a < Pow2(k) <==> a / 2 < Pow2(k - 1)
  {
    MulDoubleLeft(Pow2(k - 1), x);
    hide Mul;
  }

  lemma MulDoubleLeft(p: nat, x: nat)
    ensures Mul(2 * p, x) == 2 * Mul(p, x)
  {
  }

  lemma SplitByte(a: Byte, b: Byte, x: nat, y: nat)
    ensures And(a + 256 * x, b + 256 * y) == And(a, b) + 256 * And(x, y)
    ensures Or(a + 256 * x, b + 256 * y) == Or(a, b) + 256 * Or(x, y)
  {
    hide And, Or;
    PowersOfTwo();
    AndSplit(a, b, x, y, 8);
    OrSplit(a, b, x, y, 8);
    hide Pow2;
  }

  /** The constants of the word: n bytes of 1, n bytes of 0x80. */
  function Ones(n: nat): nat { if n == 0 then 0 else 1 + 256 * Ones(n - 1) }
  function Highs(n: nat): nat { if n == 0 then 0 else 128 + 256 * Highs(n - 1) }

  function Mod(x: int, w: nat): nat
    requires w > 0
  {
    x % w
  }

  /** The difference of v and the ones, and the complement of v, in n bytes. */
  function LessOnes(v: nat, n: nat): nat
    requires v < Pow256(n)
  {
    Mod(v - Ones(n), Pow256(n))
  }

  function Complement(v: nat, n: nat): nat
    requires v < Pow256(n)
  {
    Pow256(n) - 1 - v
  }

  /** has_zero on a word of n bytes. */
  function ZeroMask(v: nat, n: nat): nat
    requires v < Pow256(n)
  {
    And(And(LessOnes(v, n), Complement(v, n)), Highs(n))
  }

  lemma {:induction false} AndBelowRight(a: nat, b: nat)
    ensures And(a, b) <= b
  {
    if a > 0 { AndBelowRight(a / 2, b / 2); }
  }

  /** The top bit of a byte. */
  lemma TopBit(x: Byte)
    ensures And(x, 128) == if x >= 128 then 128 else 0
  {
    hide And;
    PowersOfTwo();
    assert Pow2(7) == 128 by { assert Pow2(8) == 2 * Pow2(7); }
    AndHighMask(x, 8, 7);
  }

  /** A byte that is not zero gives no mark, a zero byte below which nothing borrows gives 0x80. */
  lemma ByteMark(b: Byte)
    ensures b > 0 ==> And(And(b - 1, 255 - b), 128) == 0
    ensures b == 0 ==> And(And(255, 255 - b), 128) == 128
  {
    hide And;
    if b > 0 {
      AndBelow(b - 1, 255 - b);
      AndBelowRight(b - 1, 255 - b);
      TopBit(And(b - 1, 255 - b));
    } else {
      AndSelf(255);
      TopBit(255);
    }
  }

  /** Reducing a number given as a byte and a rest. */
  lemma ModByte(t: Byte, x: int, w: nat)
    requires w > 0
    ensures Mod(t + 256 * x, 256 * w) == t + 256 * Mod(x, w)
  {
    var q, r := x / w, x % w;
    assert x == q * w + r;
    MulAssociates(q, 256, w);
    assert 256 * x == q * (256 * w) + 256 * r by { assert 256 * (q * w) == q * (256 * w); }
    DivModUnique(t + 256 * x, 256 * w, q, t + 256 * r);
  }

  lemma MaskSplit(t: Byte, e: Byte, d: nat, c: nat, h: nat)
    ensures And(And(t + 256 * d, e + 256 * c), 128 + 256 * h) == And(And(t, e), 128) + 256 * And(And(d, c), h)
  {
    hide And;
    SplitByte(t, e, d, c);
    AndBelow(t, e);
    SplitByte(And(t, e), 128, And(d, c), h);
  }

  /** Subtracting 1 from each byte: a byte that is not zero borrows nothing from the rest. */
  lemma SubtractOnes(b: Byte, v: nat, n: nat)
    requires n > 0 && v < Pow256(n - 1)
    ensures b + 256 * v < Pow256(n) && Complement(b + 256 * v, n) == 255 - b + 256 * Complement(v, n - 1)
    ensures b > 0 ==> LessOnes(b + 256 * v, n) == b - 1 + 256 * LessOnes(v, n - 1)
    ensures b == 0 ==> exists d: nat :: LessOnes(b + 256 * v, n) == 255 + 256 * d
  {
    var o, w := Ones(n - 1), Pow256(n - 1);
    assert Ones(n) == 1 + 256 * o && Pow256(n) == 256 * w;
    hide Ones, Pow256, Mod;
    if b > 0 {
      ModByte(b - 1, v - o, w);
    } else {
      ModByte(255, v - o - 1, w);
    }
  }

  /** How the lowest byte enters the mask: a zero byte marks bit 7, any other passes the mask of the rest through. */
  lemma MaskStep(b: Byte, v: nat, n: nat)
    requires n > 0 && v < Pow256(n - 1)
    ensures b + 256 * v < Pow256(n)
    ensures b > 0 ==> ZeroMask(b + 256 * v, n) == 256 * ZeroMask(v, n - 1)
    ensures b == 0 ==> ZeroMask(b + 256 * v, n) % 256 == 128
  {
    hide And, LessOnes, Complement;
    assert Highs(n) == 128 + 256 * Highs(n - 1);
    hide Pow256, Ones, Highs;
    SubtractOnes(b, v, n);
    ByteMark(b);
    if b > 0 {
      MaskSplit(b - 1, 255 - b, LessOnes(v, n - 1), Complement(v, n - 1), Highs(n - 1));
    } else {
      var d: nat :| LessOnes(b + 256 * v, n) == 255 + 256 * d;
      MaskSplit(255, 255 - b, d, Complement(v, n - 1), Highs(n - 1));
    }
  }

  /** The first zero byte is at position k. */
  ghost predicate FirstZero(bs: seq<Byte>, k: nat) {
    k < |bs| && bs[k] == 0 && forall i :: 0 <= i < k ==> bs[i] != 0
  }

  /** The mask is 0 exactly when no byte is, and else its lowest bit is the top bit of the first zero byte. */
  ghost predicate Marks(bs: seq<Byte>, mask: nat) {
    && (mask == 0 <==> forall i :: 0 <= i < |bs| ==> bs[i] != 0)
    && forall k: nat :: FirstZero(bs, k) ==> mask > 0 && TrailingZeros(mask) == 8 * k + 7
  }

  lemma {:induction false} MaskFindsZero(bs: seq<Byte>)
    ensures WordValue(bs) < Pow256(|bs|) && Marks(bs, ZeroMask(WordValue(bs), |bs|))
  {
    hide ZeroMask, Pow256, Marks;
    if bs == [] {
      EmptyMask(bs);
    } else {
      assert WordValue(bs) == bs[0] + 256 * WordValue(bs[1..]);
      hide WordValue;
      MaskFindsZero(bs[1..]);
      MaskStep(bs[0], WordValue(bs[1..]), |bs|);
      if bs[0] == 0 {
        MarkHere(bs, ZeroMask(WordValue(bs), |bs|));
      } else {
        MarkLater(bs, ZeroMask(WordValue(bs[1..]), |bs| - 1));
      }
    }
  }

  lemma MarkHere(bs: seq<Byte>, mask: nat)
    requires bs != [] && bs[0] == 0 && mask % 256 == 128
    ensures Marks(bs, mask)
  {
    LowestAtSeven(mask);
    hide TrailingZeros;
  }

  lemma MarkLater(bs: seq<Byte>, rest: nat)
    requires bs != [] && bs[0] != 0 && Marks(bs[1..], rest)
    ensures Marks(bs, 256 * rest)
  {
    LowestUp(rest);
    hide TrailingZeros;
    assert forall i :: 0 < i < |bs| ==> bs[i] == bs[1..][i - 1];
    assert forall i :: 0 <= i < |bs| - 1 ==> bs[1..][i] == bs[i + 1];
    forall k: nat | FirstZero(bs, k) ensures k > 0 && FirstZero(bs[1..], k - 1) {
    }
  }

  lemma EmptyMask(bs: seq<Byte>)
    requires bs == []
    ensures WordValue(bs) < Pow256(|bs|) && Marks(bs, ZeroMask(WordValue(bs), |bs|))
  {
    hide And, TrailingZeros, LessOnes, Complement;
    AndZero(And(LessOnes(0, 0), Complement(0, 0)));
  }

  lemma LowestAtSeven(m: nat)
    requires m % 256 == 128
    ensures m > 0 && TrailingZeros(m) == 7
  {
    var z := m / 256;
    assert TrailingZeros(1 + 2 * z) == 0;
    hide TrailingZeros;
    assert m == 128 * (1 + 2 * z);
    DivModUnique(m, 128, 1 + 2 * z, 0);
    assert Pow2(7) == 128 by { PowersOfTwo(); assert Pow2(8) == 2 * Pow2(7); }
    hide Pow2;
    TrailingZerosShift(m, 7);
  }

  lemma LowestUp(m: nat)
    ensures m > 0 ==> 256 * m > 0 && TrailingZeros(256 * m) == 8 + TrailingZeros(m)
  {
    hide TrailingZeros, Pow2;
    if m > 0 {
      PowersOfTwo();
      DivModUnique(256 * m, 256, m, 0);
      TrailingZerosShift(256 * m, 8);
    }
  }

  /** (b - 1) & ~b in n bits: the ones below the lowest set bit. */
  lemma {:induction false} LowOnes(b: nat, n: nat)
    requires 0 < b < Pow2(n)
    ensures And(b - 1, Pow2(n) - 1 - b) == Pow2(TrailingZeros(b)) - 1
  {
    hide And;
    var h, w := b / 2, Pow2(n - 1);
    assert Pow2(n) == 2 * w && Pow2(0) == 1;
    assert TrailingZeros(b) == if b % 2 == 1 then 0 else 1 + TrailingZeros(h);
    hide TrailingZeros;
    if b % 2 == 1 {
      hide Pow2;
      AndStep(h, w - 1 - h, 0, 0);
      NothingInCommon(h, n - 1);
    } else {
      assert Pow2(1 + TrailingZeros(h)) == 2 * Pow2(TrailingZeros(h));
      hide Pow2;
      AndStep(h - 1, w - 1 - h, 1, 1);
      LowOnes(h, n - 1);
    }
  }

  /** A number and its complement share no bit. */
  lemma {:induction false} NothingInCommon(b: nat, n: nat)
    requires b < Pow2(n)
    ensures And(b, Pow2(n) - 1 - b) == 0
  {
    if n > 0 {
      var h, w := b / 2, Pow2(n - 1);
      NothingInCommon(h, n - 1);
      AndStep(h, w - 1 - h, b % 2, 1 - b % 2);
    }
  }

  /** The first k bytes set to 0xff: c |= aligned_byte_mask(k). */
  function Blotted(bs: seq<Byte>, k: nat): seq<Byte>
    requires k <= |bs|
  {
    seq<Byte>(k, i requires 0 <= i < k => 255) + bs[k..]
  }

  lemma {:induction false} BlotLow(bs: seq<Byte>, k: nat)
    requires k <= |bs|
    ensures Pow256(k) > 0 && Or(WordValue(bs), Pow256(k) - 1) == WordValue(Blotted(bs, k))
  {
    hide Or;
    if k == 0 {
      OrZero(WordValue(bs));
      assert Blotted(bs, 0) == bs;
    } else {
      BlotLow(bs[1..], k - 1);
      assert Blotted(bs, k)[0] == 255 && Blotted(bs, k)[1..] == Blotted(bs[1..], k - 1);
      var v, w := WordValue(bs[1..]), Pow256(k - 1);
      assert WordValue(bs) == bs[0] + 256 * v && Pow256(k) - 1 == 255 + 256 * (w - 1);
      assert WordValue(Blotted(bs, k)) == 255 + 256 * WordValue(Blotted(bs[1..], k - 1));
      hide Pow256, WordValue, Blotted;
      SplitByte(bs[0], 255, v, w - 1);
      OrByte(bs[0]);
    }
  }

  lemma {:induction false} OrZero(x: nat)
    ensures Or(x, 0) == x
  {
    if x > 0 { OrZero(x / 2); }
  }

  lemma OrByte(b: Byte)
    ensures Or(b, 255) == 255
  {
    hide Or;
    PowersOfTwo();
    OrAllOnes(b, 8);
  }

  lemma {:induction false} OrAllOnes(a: nat, n: nat)
    requires a < Pow2(n)
    ensures Or(a, Pow2(n) - 1) == Pow2(n) - 1
  {
    if n > 0 {
      OrAllOnes(a / 2, n - 1);
      OrStep(a / 2, Pow2(n - 1) - 1, a % 2, 1);
    }
  }

  const ONE_BITS: nat := 0x0101_0101_0101_0101
  const HIGH_BITS: nat := 0x8080_8080_8080_8080

  lemma Constants()
    ensures Ones(8) == ONE_BITS && Highs(8) == HIGH_BITS && Pow256(8) == TWO64
  {
  }

  /** has_zero: the mask of a word of eight bytes. */
  method HasZero(c: nat, ghost bs: seq<Byte>) returns (mask: nat)
    requires |bs| == 8 && c == WordValue(bs)
    ensures mask < TWO64 && Marks(bs, mask)
  {
    MaskFindsZero(bs);
    Constants();
    hide Ones, Highs, Pow256, WordValue, Marks;
    mask := And(And((c - ONE_BITS) % TWO64, TWO64 - 1 - c), HIGH_BITS);
    AndBelowRight(And((c - ONE_BITS) % TWO64, TWO64 - 1 - c), HIGH_BITS);
    assert mask == ZeroMask(c, 8);
  }

  lemma MarkAt(bs: seq<Byte>, mask: nat, k: nat)
    requires Marks(bs, mask) && FirstZero(bs, k)
    ensures mask > 0 && TrailingZeros(mask) == 8 * k + 7 && k < |bs|
  {
  }

  /** create_zero_mask and find_zero: the position of the first zero byte. */
  method FindZero(mask: nat, ghost bs: seq<Byte>, ghost k: nat) returns (index: nat)
    requires |bs| == 8 && mask < TWO64 && Marks(bs, mask) && FirstZero(bs, k)
    ensures index == k
  {
    hide And, TrailingZeros, Pow2, FirstZero, Marks, BitLength;
    MarkAt(bs, mask, k);
    PowersOfTwo();
    LowOnes(mask, 64);
    var low := And(mask - 1, TWO64 - 1 - mask);
    OnesShifted(k);
    BitLengthOnes(8 * k);
    AndBelow(mask - 1, TWO64 - 1 - mask);
    var n := Fls64(low / 128);
    index := n / 8;
  }

  lemma OnesShifted(k: nat)
    ensures (Pow2(8 * k + 7) - 1) / 128 == Pow2(8 * k) - 1
  {
    Pow2Adds(8 * k, 7);
    assert Pow2(7) == 128 by { PowersOfTwo(); assert Pow2(8) == 2 * Pow2(7); }
    hide Pow2;
    var p := Pow2(8 * k);
    DivModUnique(p * 128 - 1, 128, p - 1, 127);
  }

  ghost predicate NulFree(m: seq<Byte>, lo: nat, hi: nat) {
    forall i :: lo <= i < hi && i < |m| ==> m[i] != 0
  }

  /** The word at address a, with the bytes before src counted as not zero. */
  ghost predicate WordFrom(m: seq<Byte>, a: nat, src: nat, bs: seq<Byte>) {
    && |bs| == 8 && a + 8 <= |m|
    && forall i :: 0 <= i < 8 ==> if a + i >= src then bs[i] == m[a + i] else bs[i] != 0
  }

  /** The first load, with the bytes below the start of the string blotted out. */
  method FirstLoad(m: seq<Byte>, base: nat, align: nat) returns (c: nat, ghost bs: seq<Byte>)
    requires base + 8 <= |m| && align < 8
    ensures c == WordValue(bs) && WordFrom(m, base, base + align, bs)
  {
    BlotLow(m[base..base + 8], align);
    hide Or, WordValue;
    bs := Blotted(m[base..base + 8], align);
    c := Or(WordValue(m[base..base + 8]), Pow256(align) - 1);
  }

  /** One round: the length up to the first zero byte of this word, or nothing. */
  method CheckWord(m: seq<Byte>, c: nat, a: nat, src: nat, ghost bs: seq<Byte>) returns (found: bool, q: nat)
    requires c == WordValue(bs) && WordFrom(m, a, src, bs) && src < a + 8 && NulFree(m, src, a)
    ensures if found then src <= q < a + 8 && m[q] == 0 && NulFree(m, src, q) else NulFree(m, src, a + 8)
  {
    hide WordValue;
    var mask := HasZero(c, bs);
    if mask == 0 {
      NoneInWord(m, a, src, bs, mask);
      return false, 0;
    }
    ghost var k := SomeZero(bs, mask);
    var index := FindZero(mask, bs, k);
    assert NulFree(m, src, a + k) by { ZerosBefore(m, a, src, bs, k); }
    return true, a + index;
  }

  lemma NoneInWord(m: seq<Byte>, a: nat, src: nat, bs: seq<Byte>, mask: nat)
    requires WordFrom(m, a, src, bs) && NulFree(m, src, a) && Marks(bs, mask) && mask == 0
    ensures NulFree(m, src, a + 8)
  {
    forall i | src <= i < a + 8 && i < |m| ensures m[i] != 0 {
      if i >= a { assert bs[i - a] == m[a + (i - a)]; }
    }
  }

  lemma SomeZero(bs: seq<Byte>, mask: nat) returns (k: nat)
    requires Marks(bs, mask) && mask > 0
    ensures FirstZero(bs, k)
  {
    var z :| 0 <= z < |bs| && bs[z] == 0;
    k := 0;
    while bs[k] != 0
      invariant k <= z && forall i :: 0 <= i < k ==> bs[i] != 0
      decreases z - k
    {
      k := k + 1;
    }
  }

  lemma ZerosBefore(m: seq<Byte>, a: nat, src: nat, bs: seq<Byte>, k: nat)
    requires WordFrom(m, a, src, bs) && NulFree(m, src, a) && FirstZero(bs, k)
    ensures a + k >= src && m[a + k] == 0 && NulFree(m, src, a + k)
  {
    forall i | src <= i < a + k && i < |m| ensures m[i] != 0 {
      if i >= a { assert bs[i - a] == m[a + (i - a)]; }
    }
  }

  /** do_strnlen_user; max is how many bytes it may look at, apart from the rest of the last word. */
  method DoStrnlenUser(m: seq<Byte>, src: nat, count: nat, max0: nat) returns (len: nat)
    requires |m| % 8 == 0 && 0 < max0 <= count && src + max0 <= |m|
    ensures forall q :: src <= q < src + max0 && m[q] == 0 && NulFree(m, src, q) ==> len == q - src + 1
    ensures NulFree(m, src, src + max0) && max0 == count ==> len > count
    ensures NulFree(m, src, |m|) && src + max0 == |m| && max0 < count ==> len == 0
  {
    hide WordValue;
    var align := src % 8;
    var base, max, res := src - align, max0 + align, 0;
    var c; ghost var bs;
    c, bs := FirstLoad(m, base, align);
    while true
      invariant res % 8 == 0 && 0 < max && max + res == max0 + align && c == WordValue(bs)
      invariant WordFrom(m, base + res, src, bs) && NulFree(m, src, base + res)
      decreases max
    {
      var found, q := CheckWord(m, c, base + res, src, bs);
      if found {
        len := q - src + 1;
        return;
      }
      res := res + 8;
      if max <= 8 {
        break;
      }
      max := max - 8;
      bs := m[base + res..base + res + 8];
      c := WordValue(m[base + res..base + res + 8]);
    }
    res := res - align;
    if res >= count {
      return count + 1;
    }
    return 0;
  }

  /** strnlen_user: the length of the string with its NUL; more than count when it is longer, and 0 when the
      address space ends first or starts below. */
  method StrnlenUser(m: seq<Byte>, p: nat, count: int) returns (len: nat)
    requires |m| % 8 == 0
    ensures count <= 0 || p >= |m| ==> len == 0
    ensures forall q :: p <= q < p + count && q < |m| && m[q] == 0 && NulFree(m, p, q) ==> len == q - p + 1
    ensures 0 < count && p + count <= |m| && NulFree(m, p, p + count) ==> len > count
    ensures 0 < count && p < |m| < p + count && NulFree(m, p, |m|) ==> len == 0
  {
    if count <= 0 {
      return 0;
    }
    if p < |m| {
      var max := |m| - p;
      if max > count {
        max := count;
      }
      len := DoStrnlenUser(m, p, count, max);
    } else {
      return 0;
    }
  }
}
