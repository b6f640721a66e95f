/**
 Aligned power-of-two blocks of page frames and their canonical families:
 what the free lists of the buddy allocator mean.
 */
module BuddyBlocks {
  import opened Bits

  const MAX_ORDER: nat := 11
  const MAX_ORDER_NR_PAGES: nat := 1024

  /** The 2^order frames that start at frame pfn. */
  datatype Block = Block(pfn: nat, order: nat) {
    function Size(): nat { Pow2(order) }
    function End(): nat { pfn + Pow2(order) }
    predicate Has(x: nat) { pfn <= x < End() }
    predicate Aligned() { order < MAX_ORDER && pfn % Pow2(order) == 0 }
    predicate Inside(c: Block) { c.pfn <= pfn && End() <= c.End() }
    predicate Apart(c: Block) { End() <= c.pfn || c.End() <= pfn }

    /** The twin B ^ (1 << order) of a block. */
    function Buddy(): Block { Block(FindBuddyPfn(pfn, order), order) }

    /** The block one order up that a block and its buddy form together. */
    function Parent(): Block { Block(And(FindBuddyPfn(pfn, order), pfn), order + 1) }
  }

  function FindBuddyPfn(pfn: nat, order: nat): nat {
    Xor(pfn, Pow2(order))
  }

  /** A family of free blocks as the allocator keeps it. */
  ghost predicate Canonical(f: set<Block>) {
    && (forall b :: b in f ==> b.Aligned())
    && (forall b, c :: b in f && c in f && b != c ==> b.Apart(c))
    && (forall b :: b in f && b.order < MAX_ORDER - 1 ==> b.Buddy() !in f)
  }

  /** Frame x is in some block of the family: it is free. */
  ghost predicate Covered(f: set<Block>, x: nat) {
    exists b :: b in f && b.Has(x)
  }

  lemma MaxOrderSize()
    ensures Pow2(MAX_ORDER - 1) == MAX_ORDER_NR_PAGES
  {
    assert Pow2(5) == 32;
    Pow2Adds(5, 5);
  }

  lemma MultiplesApart(x: nat, y: nat, d: nat)
    requires d > 0 && x % d == 0 && y % d == 0 && x < y
    ensures x + d <= y
  {
    var i, j := x / d, y / d;
    MulMonotone(j, i, d);
    MulMonotone(i + 1, j, d);
    assert (i + 1) * d == i * d + d;
  }

  lemma CoarserIsFiner(x: nat, j: nat, k: nat)
    requires j <= k && x % Pow2(k) == 0
    ensures x % Pow2(j) == 0
  {
    Pow2Adds(k - j, j);
    MultipleOfProduct(x, Pow2(k - j), Pow2(j));
  }

  lemma MultipleOfProduct(x: nat, m: nat, d: nat)
    requires m > 0 && d > 0 && m * d > 0 && x % (m * d) == 0
    ensures x % d == 0
  {
    var q := x / (m * d);
    assert x == q * (m * d);
    MulAssociates(q, m, d);
    DivModUnique(x, d, q * m, 0);
  }

  /** Two aligned blocks either have no frame in common or the smaller lies inside the larger. */
  lemma NestedOrApart(b: Block, c: Block)
    requires b.Aligned() && c.Aligned() && b.order <= c.order
    ensures b.Inside(c) || b.Apart(c)
  {
    var d := Pow2(b.order);
    CoarserIsFiner(c.pfn, b.order, c.order);
    if b.pfn < c.pfn {
      MultiplesApart(b.pfn, c.pfn, d);
    } else if b.pfn < c.End() {
      assert c.End() % d == 0 by {
        assert Pow2(c.order) % Pow2(c.order) == 0;
        CoarserIsFiner(Pow2(c.order), b.order, c.order);
        SumOfMultiples(c.pfn, Pow2(c.order), d);
      }
      MultiplesApart(b.pfn, c.End(), d);
    }
  }

  lemma SumOfMultiples(x: int, y: int, d: nat)
    requires d > 0 && x % d == 0 && y % d == 0
    ensures (x + y) % d == 0 && (x - y) % d == 0
  {
    var i, j := x / d, y / d;
    assert x + y == (i + j) * d + 0;
    assert x - y == (i - j) * d + 0;
    DivModUnique(x + y, d, i + j, 0);
    DivModUnique(x - y, d, i - j, 0);
  }

  /** The buddy of an aligned frame number, and the frame where the pair starts. */
  lemma FlipAligned(p: nat, k: nat)
    requires p % Pow2(k) == 0
    ensures var lo := And(FindBuddyPfn(p, k), p);
            && lo % Pow2(k + 1) == 0
            && (Bit(p, k) ==> p == lo + Pow2(k) && FindBuddyPfn(p, k) == lo)
            && (!Bit(p, k) ==> p == lo && FindBuddyPfn(p, k) == lo + Pow2(k))
  {
    XorSingleBit(p, k);
    AndOfFlip(p, k);
    BitIsParity(p, k);
    EvenPart(p, Pow2(k));
  }

  lemma EvenPart(p: nat, d: nat)
    requires d > 0 && p % d == 0
    ensures (p - (if (p / d) % 2 == 1 then d else 0)) % (2 * d) == 0
    ensures (p / d) % 2 == 1 ==> p >= d
  {
    var q := p / d;
    var h := q / 2;
    assert q == 2 * h + q % 2;
    assert p == q * d;
    assert (2 * h) * d == h * (2 * d) by { MulAssociates(h, 2, d); }
    assert q % 2 == 1 ==> (2 * h + 1) * d == (2 * h) * d + d;
    DivModUnique(h * (2 * d), 2 * d, h, 0);
  }

  lemma OddMultiple(lo: nat, k: nat)
    requires lo % Pow2(k + 1) == 0
    ensures lo % Pow2(k) == 0 && (lo + Pow2(k)) % Pow2(k) == 0
    ensures !Bit(lo, k) && Bit(lo + Pow2(k), k)
  {
    BitIsParity(lo, k);
    BitIsParity(lo + Pow2(k), k);
    EvenQuotient(lo, Pow2(k));
  }

  lemma EvenQuotient(lo: nat, d: nat)
    requires d > 0 && lo % (2 * d) == 0
    ensures lo % d == 0 && (lo / d) % 2 == 0
    ensures (lo + d) % d == 0 && ((lo + d) / d) % 2 == 1
  {
    var h := lo / (2 * d);
    MulAssociates(h, 2, d);
    DivModUnique(lo, d, h * 2, 0);
    assert (h * 2 + 1) * d == (h * 2) * d + d;
    DivModUnique(lo + d, d, h * 2 + 1, 0);
  }

  /** A block and its buddy are the two halves of the parent, and buddyhood is mutual. */
  lemma BuddyHalves(b: Block)
    requires b.Aligned() && b.order < MAX_ORDER - 1
    ensures b.Parent().Aligned() && b.Buddy().Aligned() && b.Buddy() != b
    ensures b.Buddy().Buddy() == b && b.Buddy().Parent() == b.Parent()
    ensures || (b.pfn == b.Parent().pfn && b.Buddy().pfn == b.End() && b.Buddy().End() == b.Parent().End())
            || (b.pfn == b.Buddy().End() && b.Buddy().pfn == b.Parent().pfn && b.End() == b.Parent().End())
  {
    FlipAligned(b.pfn, b.order);
    OddMultiple(b.Parent().pfn, b.order);
    FlipAligned(b.Buddy().pfn, b.order);
  }

  /** The lower half of an aligned block, as expand() keeps it, and the upper half it gives back. */
  lemma SplitHalves(b: Block)
    requires b.Aligned() && b.order > 0
    ensures var lower, upper := Block(b.pfn, b.order - 1), Block(b.pfn + Pow2(b.order - 1), b.order - 1);
            lower.Aligned() && upper.Aligned() && lower.Buddy() == upper && upper.Buddy() == lower
            && lower.Parent() == b && lower.End() == upper.pfn && upper.End() == b.End()
  {
    var lower := Block(b.pfn, b.order - 1);
    CoarserIsFiner(b.pfn, b.order - 1, b.order);
    BuddyHalves(lower);
    NestedOrApart(lower.Parent(), b);
  }

  /**
   Any aligned block all of whose frames are free lies inside one free block:
   a canonical family is fully coalesced.
   */
  lemma {:induction false} FullyCoalesced(f: set<Block>, b: Block) returns (c: Block)
    requires Canonical(f) && b.Aligned()
    requires forall x :: b.Has(x) ==> Covered(f, x)
    ensures c in f && b.Inside(c)
    decreases b.order
  {
    if b.order == 0 {
      assert b.Has(b.pfn);
      c :| c in f && c.Has(b.pfn);
    } else {
      SplitHalves(b);
      var lower := Block(b.pfn, b.order - 1);
      var upper := lower.Buddy();
      assert forall x :: lower.Has(x) || upper.Has(x) ==> b.Has(x);
      c := FullyCoalesced(f, lower);
      var d := FullyCoalesced(f, upper);
      if c.order >= b.order {
        NestedOrApart(b, c);
      } else if d.order >= b.order {
        NestedOrApart(b, d);
        c := d;
      } else {
        SameOrderInside(lower, c);
        SameOrderInside(upper, d);
        assert false;
      }
    }
  }

  lemma SameOrderInside(b: Block, c: Block)
    requires b.Aligned() && c.Aligned() && b.Inside(c) && c.order <= b.order
    ensures b == c
  {
    if c.order < b.order {
      Pow2Monotone(c.order, b.order - 1);
      assert false;
    }
  }

  ghost predicate SameFrames(f: set<Block>, g: set<Block>) {
    forall x :: Covered(f, x) <==> Covered(g, x)
  }

  /** The canonical decomposition of a set of frames is unique. */
  lemma CanonicalUnique(f: set<Block>, g: set<Block>)
    requires Canonical(f) && Canonical(g) && SameFrames(f, g)
    ensures f == g
  {
    forall b | b in f ensures b in g { CanonicalMember(f, g, b); }
    forall b | b in g ensures b in f { CanonicalMember(g, f, b); }
  }

  lemma CanonicalMember(f: set<Block>, g: set<Block>, b: Block)
    requires Canonical(f) && Canonical(g) && SameFrames(f, g) && b in f
    ensures b in g
  {
    assert forall x :: b.Has(x) ==> Covered(f, x);
    var c := FullyCoalesced(g, b);
    assert forall x :: c.Has(x) ==> Covered(g, x);
    var d := FullyCoalesced(f, c);
    assert b == d by { assert !b.Apart(d); }
    if c.order < b.order {
      SameOrderInside(b, c);
    } else {
      SameOrderInside(c, b);
    }
  }

  /** Taking a block out of a family takes out exactly its frames. */
  lemma RemoveBlock(f: set<Block>, b: Block)
    requires Canonical(f) && b in f
    ensures Canonical(f - {b})
    ensures forall x :: Covered(f - {b}, x) <==> Covered(f, x) && !b.Has(x)
  {
    forall x ensures Covered(f - {b}, x) <==> Covered(f, x) && !b.Has(x) {
      if Covered(f, x) && !b.Has(x) {
        var c :| c in f && c.Has(x);
        assert c in f - {b};
      }
    }
  }

  ghost predicate Unfree(f: set<Block>, b: Block) {
    forall x :: b.Has(x) ==> !Covered(f, x)
  }

  lemma UnfreeApart(f: set<Block>, b: Block, c: Block)
    requires Unfree(f, b) && c in f
    ensures b.Apart(c)
  {
    if !b.Apart(c) {
      var x := if b.pfn < c.pfn then c.pfn else b.pfn;
      assert b.Has(x) && c.Has(x);
      assert false;
    }
  }

  /** Adding a block none of whose frames is free, and whose buddy is not, keeps the family canonical. */
  lemma AddBlock(f: set<Block>, b: Block)
    requires Canonical(f) && b.Aligned() && Unfree(f, b)
    requires b.order < MAX_ORDER - 1 ==> b.Buddy() !in f
    ensures b !in f && Canonical(f + {b})
    ensures forall x :: Covered(f + {b}, x) <==> Covered(f, x) || b.Has(x)
  {
    assert b.Has(b.pfn);
    forall c | c in f ensures b.Apart(c) { UnfreeApart(f, b, c); }
    forall c | c in f && c.order < MAX_ORDER - 1 ensures c.Buddy() != b { BuddyHalves(c); }
    if b.order < MAX_ORDER - 1 { BuddyHalves(b); }
    forall x ensures Covered(f + {b}, x) <==> Covered(f, x) || b.Has(x) {
      if Covered(f, x) {
        var c :| c in f && c.Has(x);
        assert c in f + {b};
      } else if b.Has(x) {
        assert b in f + {b};
      }
    }
  }
}
