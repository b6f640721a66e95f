/** Word-at-a-time bitmap search and update. */
module Bitmap {
  import opened Bits
  import opened Log2
  import opened Words

  /** Bit i of a map of 64-bit words. */
  predicate BitAt(m: seq<nat>, i: nat) { i / WORD < |m| && Bit(m[i / WORD], i % WORD) }

  predicate IsMap(m: seq<nat>) { forall k :: 0 <= k < |m| ==> m[k] < TWO64 }

  /** The bits from lo up to hi all have the given value. */
  ghost predicate AllBits(m: seq<nat>, lo: nat, hi: nat, value: bool) {
    forall i :: lo <= i < hi ==> (BitAt(m, i) <==> value)
  }

  /** The part of a word that is still to be searched, flipped when zeros are looked for. */
  ghost predicate Pending(m: seq<nat>, w: nat, from: nat, tmp: nat, invert: bool) {
    tmp < TWO64 && forall j: nat :: j < WORD ==>
      (Bit(tmp, j) <==> w * WORD + j >= from && (BitAt(m, w * WORD + j) != invert))
  }

  method LoadWord(m: array<nat>, w: nat, from: nat, invert: bool) returns (tmp: nat)
    requires w < m.Length && IsMap(m[..]) && from <= w * WORD
    ensures Pending(m[..], w, from, tmp, invert)
  {
    tmp := m[w];
    if invert {
      tmp := Xor(tmp, TWO64 - 1);
    }
    forall j: nat | j < WORD ensures Bit(tmp, j) <==> (BitAt(m[..], w * WORD + j) != invert) {
      BitOfNot(m[w], j);
      InWord(w, j);
    }
    BitOfNot(m[w], 0);
  }

  lemma InWord(w: nat, j: nat)
    requires j < WORD
    ensures (w * WORD + j) / WORD == w && (w * WORD + j) % WORD == j
  {
  }

  /** _find_next_bit: the first bit at or after start that differs from invert, or nbits. */
  method FindNextBit(m: array<nat>, nbits: nat, start: nat, invert: bool) returns (r: nat)
    requires nbits <= m.Length * WORD && IsMap(m[..])
    ensures start >= nbits ==> r == nbits
    ensures start < nbits ==> start <= r <= nbits && AllBits(m[..], start, r, invert)
    ensures r < nbits ==> BitAt(m[..], r) != invert
  {
    if start >= nbits {
      return nbits;
    }
    var w := start / WORD;
    var tmp := FirstWord(m, start, invert);
    while tmp == 0
      invariant start / WORD <= w && w * WORD < nbits && Pending(m[..], w, start, tmp, invert)
      invariant AllBits(m[..], start, w * WORD, invert)
      decreases m.Length - w
    {
      NothingPending(m[..], w, start, invert);
      w := w + 1;
      if w * WORD >= nbits {
        return nbits;
      }
      tmp := LoadWord(m, w, start, invert);
    }
    var j := Ffs(tmp);
    LowestPending(m[..], w, start, tmp, invert);
    r := if w * WORD + j <= nbits then w * WORD + j else nbits;
  }

  method FirstWord(m: array<nat>, start: nat, invert: bool) returns (tmp: nat)
    requires start / WORD < m.Length && IsMap(m[..])
    ensures Pending(m[..], start / WORD, start, tmp, invert)
  {
    var w := start / WORD;
    var word := m[w];
    if invert {
      word := Xor(word, TWO64 - 1);
    }
    tmp := And(word, FirstWordMask(start));
    forall j: nat | j < WORD
      ensures Bit(tmp, j) <==> w * WORD + j >= start && (BitAt(m[..], w * WORD + j) != invert)
    {
      BitOfNot(m[w], j);
      BitOfAnd(word, FirstWordMask(start), j);
      FirstMaskBits(start, j);
      InWord(w, j);
    }
    BitOfNot(m[w], 0);
    AndBelow(word, FirstWordMask(start));
  }

  /** No bit of the word, from start on, is what is looked for. */
  lemma NothingPending(m: seq<nat>, w: nat, start: nat, invert: bool)
    requires Pending(m, w, start, 0, invert) && AllBits(m, start, w * WORD, invert)
    ensures AllBits(m, start, (w + 1) * WORD, invert)
  {
    forall i | start <= i < (w + 1) * WORD ensures BitAt(m, i) <==> invert {
      if i >= w * WORD {
        ZeroBits(i - w * WORD);
        assert i == w * WORD + (i - w * WORD);
      }
    }
  }

  lemma LowestPending(m: seq<nat>, w: nat, start: nat, tmp: nat, invert: bool)
    requires 0 < tmp && Pending(m, w, start, tmp, invert) && AllBits(m, start, w * WORD, invert)
    ensures var r := w * WORD + TrailingZeros(tmp);
            TrailingZeros(tmp) < WORD && start <= r && BitAt(m, r) != invert && AllBits(m, start, r, invert)
  {
    hide TrailingZeros, Bit, BitAt, Pow2;
    FewerThan64(tmp);
    TrailingZerosIs(tmp);
    var k := TrailingZeros(tmp);
    forall i | start <= i < w * WORD + k ensures BitAt(m, i) <==> invert {
      if i >= w * WORD {
        assert !Bit(tmp, i - w * WORD);
        assert i == w * WORD + (i - w * WORD);
      }
    }
  }

  /** A run of nr clear bits inside the map at an index that is aligned. */
  ghost predicate FreeArea(m: seq<nat>, size: nat, nr: nat, k: nat, offset: nat, index: nat) {
    Aligned(index, k, offset) && index + nr <= size && AllBits(m, index, index + nr, false)
  }

  predicate Aligned(index: nat, k: nat, offset: nat) { Rem(index + offset, Pow2(k)) == 0 }

  /** __ALIGN_MASK(index + offset, 2^k - 1) - offset, each step in 64 bits. */
  function AlignIndex(index: nat, k: nat, offset: nat): nat
    requires k < WORD
  {
    Pow2Less(k);
    (And(Rem(index + offset + (Pow2(k) - 1), TWO64), TWO64 - Pow2(k)) - offset) % TWO64
  }

  function RoundUp(x: nat, p: nat): nat
    requires p > 0
  {
    var y := x + (p - 1); y - Rem(y, p)
  }

  /** A remainder modulo 2^k is not changed by wrapping around, so neither is rounding up. */
  lemma AlignIndexMask(index: nat, k: nat, offset: nat)
    requires k < WORD && index + Pow2(k) <= TWO64
    ensures AlignIndex(index, k, offset) == RoundUp(index + offset, Pow2(k)) - offset
  {
    hide And, Pow2, Rem, Quot, Mul;
    var y := index + offset + (Pow2(k) - 1);
    QuotRem(y, TWO64);
    WrapKeepsRem(y, k);
    HighMask(Rem(y, TWO64), k);
    RoundUpIs(index + offset, Pow2(k), 0);
    Unwrapped(RoundUp(index + offset, Pow2(k)) - offset, Quot(y, TWO64));
  }

  lemma WrapKeepsRem(y: nat, k: nat)
    requires k < WORD
    ensures Rem(Rem(y, TWO64), Pow2(k)) == Rem(y, Pow2(k))
  {
    hide Pow2, Rem, Quot;
    PowersOfTwo();
    assert Mul(Pow2(WORD - k), Pow2(k)) == TWO64 by { Pow2Adds(WORD - k, k); }
    hide Mul;
    QuotRem(y, TWO64);
    MultipleAdded(Quot(y, TWO64), Pow2(WORD - k), Pow2(k), Rem(y, TWO64));
  }

  lemma Unwrapped(r: nat, w: nat)
    requires r < TWO64
    ensures (r - Mul(w, TWO64)) % TWO64 == r
  {
    var q: int := w;
    DivModUnique(r - q * TWO64, TWO64, -q, r);
  }

  lemma MultipleAdded(w: nat, h: nat, p: nat, z: nat)
    requires p > 0
    ensures Rem(Mul(w, Mul(h, p)) + z, p) == Rem(z, p)
  {
    var q, r := z / p, z % p;
    MulAssociates(w, h, p);
    assert w * (h * p) + z == (w * h + q) * p + r by { AddTimes(Mul(w, h), q, p); }
    DivModUnique(w * (h * p) + z, p, w * h + q, r);
  }

  lemma AddTimes(x: nat, y: nat, p: nat)
    ensures (x + y) * p == x * p + y * p
  {
  }

  /** The least aligned index that is not smaller. */
  lemma AlignIndexIs(index: nat, k: nat, offset: nat)
    requires k < WORD && index + Pow2(k) <= TWO64
    ensures index <= AlignIndex(index, k, offset) < index + Pow2(k) && Aligned(AlignIndex(index, k, offset), k, offset)
    ensures forall i: nat :: i >= index && Aligned(i, k, offset) ==> i >= AlignIndex(index, k, offset)
  {
    hide AlignIndex, RoundUp, Pow2, Rem;
    AlignIndexMask(index, k, offset);
    RoundUpIs(index + offset, Pow2(k), 0);
    forall i: nat | i >= index && Aligned(i, k, offset) ensures i >= AlignIndex(index, k, offset) {
      RoundUpIs(index + offset, Pow2(k), i + offset);
    }
  }

  lemma RoundUpIs(x: nat, p: nat, i: nat)
    requires p > 0
    ensures x <= RoundUp(x, p) < x + p && Rem(RoundUp(x, p), p) == 0
            && (i >= x && Rem(i, p) == 0 ==> i >= RoundUp(x, p))
  {
    var y := x + (p - 1);
    RoundsDown(y, p);
    if i % p == 0 { NoMultipleBetween(y - y % p, i, p); }
  }

  lemma RoundsDown(x: nat, p: nat)
    requires p > 0
    ensures 0 <= x - x % p && (x - x % p) % p == 0 && x - x % p > x - p
  {
    DivModUnique(x - x % p, p, x / p, 0);
  }

  lemma NoMultipleBetween(a: nat, b: nat, p: nat)
    requires p > 0 && a % p == 0 && b % p == 0
    ensures b < a ==> b + p <= a
  {
    var q, q' := b / p, a / p;
    assert b == q * p && a == q' * p;
    if b < a {
      MulMonotone(q', q, p);
      MulMonotone(q + 1, q', p);
    }
  }

  /** z is the first clear bit at or after start, or size. */
  ghost predicate FirstClear(m: seq<nat>, size: nat, start: nat, z: nat) {
    if start >= size then z == size else start <= z <= size && AllBits(m, start, z, true) && (z < size ==> !BitAt(m, z))
  }

  /** bitmap_find_next_zero_area_off with align_mask 2^k - 1: the least free area, or a value above size. */
  method FindNextZeroArea(m: array<nat>, size: nat, start0: nat, nr: nat, k: nat, offset: nat) returns (r: nat)
    requires size <= m.Length * WORD && IsMap(m[..]) && nr >= 1 && k < WORD && size + Pow2(k) + nr <= TWO64
    ensures r <= size ==> r >= start0 && FreeArea(m[..], size, nr, k, offset, r)
    ensures forall i: nat :: i >= start0 && FreeArea(m[..], size, nr, k, offset, i) ==> r <= i
    ensures r < size + Pow2(k) + nr
    ensures nr > size || start0 >= size ==>
            exists z: nat :: FirstClear(m[..], size, start0, z) && r == AlignIndex(z, k, offset) + nr
  {
    hide AlignIndex, BitAt, Pow2, Aligned;
    var start := start0;
    while true
      invariant start0 <= start && (start <= size || start == start0)
                && (nr > size || start0 >= size ==> start == start0)
      invariant forall i: nat :: i >= start0 && FreeArea(m[..], size, nr, k, offset, i) ==> i >= start
      decreases size - start
    {
      var index := FindNextBit(m, size, start, true);
      assert FirstClear(m[..], size, start, index);
      AlignIndexIs(index, k, offset);
      NotBefore(m[..], size, nr, k, offset, start0, start, index);
      index := AlignIndex(index, k, offset);
      var end := index + nr;
      if end > size {
        return end;
      }
      var i := FindNextBit(m, end, index, false);
      if i >= end {
        return index;
      }
      NotAcross(m[..], size, nr, k, offset, start0, index, i);
      start := i + 1;
    }
  }

  /** A free area does not start before the next clear bit, nor before the next aligned index. */
  lemma NotBefore(m: seq<nat>, size: nat, nr: nat, k: nat, offset: nat, start0: nat, start: nat, zero: nat)
    requires nr >= 1 && k < WORD && zero + Pow2(k) <= TWO64
    requires forall i: nat :: i >= start0 && FreeArea(m, size, nr, k, offset, i) ==> i >= start
    requires if start >= size then zero == size else AllBits(m, start, zero, true)
    ensures forall i: nat :: i >= start0 && FreeArea(m, size, nr, k, offset, i) ==> i >= AlignIndex(zero, k, offset)
  {
    hide AlignIndex, BitAt, Pow2, Aligned;
    AlignIndexIs(zero, k, offset);
    forall i: nat | i >= start0 && FreeArea(m, size, nr, k, offset, i) ensures i >= zero {
      assert !BitAt(m, i);
    }
  }

  /** A free area does not run across a set bit. */
  lemma NotAcross(m: seq<nat>, size: nat, nr: nat, k: nat, offset: nat, start0: nat, index: nat, set_: nat)
    requires forall i: nat :: i >= start0 && FreeArea(m, size, nr, k, offset, i) ==> i >= index
    requires index <= set_ < index + nr && BitAt(m, set_)
    ensures forall i: nat :: i >= start0 && FreeArea(m, size, nr, k, offset, i) ==> i >= set_ + 1
  {
    hide BitAt;
  }

  /** __bitmap_set. */
  method BitmapSet(m: array<nat>, start: nat, len0: nat)
    requires start + len0 <= m.Length * WORD && IsMap(m[..])
    modifies m
    ensures IsMap(m[..])
    ensures forall i: nat :: BitAt(m[..], i) <==> BitAt(old(m[..]), i) || start <= i < start + len0
  {
    hide BitAt, MaskIs;
    var p: nat, len: nat, bits: nat := start / WORD, len0, WORD - start % WORD;
    var mask: nat := FirstWordMask(start);
    FirstMaskIs(start);
    while len - bits >= 0
      invariant 0 <= len && 0 < bits <= WORD && (p + 1) * WORD - bits + len == start + len0 && len <= len0
      invariant IsMap(m[..]) && MaskIs(mask, WORD - bits, WORD)
      invariant forall i: nat :: BitAt(m[..], i) <==> BitAt(old(m[..]), i) || start <= i < (p + 1) * WORD - bits
      decreases len
    {
      ghost var was := m[..];
      m[p] := Or(m[p], mask);
      WordSet(was, m[..], p, mask, WORD - bits, WORD);
      len, bits, mask, p := len - bits, WORD, TWO64 - 1, p + 1;
      FirstMaskIs(0);
      assert FirstWordMask(0) == TWO64 - 1;
    }
    if len != 0 {
      ghost var was := m[..];
      LastMaskIs(mask, WORD - bits, start + len0, p, len);
      mask := And(mask, LastWordMask(start + len0));
      m[p] := Or(m[p], mask);
      WordSet(was, m[..], p, mask, WORD - bits, WORD - bits + len);
    }
  }

  /** The bits of a mask are those from lo up to hi. */
  ghost predicate MaskIs(mask: nat, lo: nat, hi: nat) {
    mask < TWO64 && forall j: nat :: Bit(mask, j) <==> lo <= j < hi
  }

  lemma FirstMaskIs(start: nat)
    ensures MaskIs(FirstWordMask(start), start % WORD, WORD)
  {
    forall j: nat ensures Bit(FirstWordMask(start), j) <==> start % WORD <= j < WORD {
      FirstMaskBits(start, j);
    }
    FirstMaskBits(start, 0);
  }

  lemma LastMaskIs(mask: nat, lo: nat, size: nat, p: nat, len: nat)
    requires MaskIs(mask, lo, WORD) && size == p * WORD + lo + len && 0 < len && lo + len < WORD
    ensures MaskIs(And(mask, LastWordMask(size)), lo, lo + len)
  {
    assert size % WORD == lo + len;
    forall j: nat ensures Bit(And(mask, LastWordMask(size)), j) <==> lo <= j < lo + len {
      BitOfAnd(mask, LastWordMask(size), j);
      LastMaskBits(size, j);
    }
    AndBelow(mask, LastWordMask(size));
  }

  /** Or-ing a mask into one word sets its bits there and no others. */
  lemma WordSet(was: seq<nat>, now: seq<nat>, p: nat, mask: nat, lo: nat, hi: nat)
    requires p < |was| && IsMap(was) && MaskIs(mask, lo, hi) && lo <= hi <= WORD
    requires |now| == |was| && now[p] == Or(was[p], mask) && forall k :: 0 <= k < |was| && k != p ==> now[k] == was[k]
    ensures IsMap(now)
    ensures forall i: nat :: BitAt(now, i) <==> BitAt(was, i) || p * WORD + lo <= i < p * WORD + hi
  {
    PowersOfTwo();
    OrBelow(was[p], mask, WORD);
    forall i: nat ensures BitAt(now, i) <==> BitAt(was, i) || p * WORD + lo <= i < p * WORD + hi {
      BitOfOr(was[p], mask, i % WORD);
      assert i == i / WORD * WORD + i % WORD;
    }
  }
}
