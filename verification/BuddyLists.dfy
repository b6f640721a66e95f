/**
 The buddy allocator on its free lists alone: what freeing a block and taking
 the smallest sufficient block do to the lists, and what every run keeps.
 */
module BuddyLists {
  import opened Bits
  import opened BuddyBlocks

  /** One list of block heads for every order below MAX_ORDER, front first. */
  type Lists = seq<seq<nat>>

  ghost predicate NoDuplicates(s: seq<nat>) {
    forall i, j :: 0 <= i < j < |s| ==> s[i] != s[j]
  }

  ghost predicate WellListed(ls: Lists) {
    |ls| == MAX_ORDER && forall k :: 0 <= k < |ls| ==> NoDuplicates(ls[k])
  }

  ghost function BlocksOf(ls: Lists): set<Block> {
    set k, p | 0 <= k < |ls| && p in ls[k] :: Block(p, k)
  }

  ghost predicate Free(ls: Lists, x: nat) {
    Covered(BlocksOf(ls), x)
  }

  /** The invariant of the free lists. */
  ghost predicate ListInv(ls: Lists) {
    WellListed(ls) && Canonical(BlocksOf(ls))
  }

  /** Unlink x. */
  function Without(s: seq<nat>, x: nat): seq<nat> {
    if s == [] then [] else if s[0] == x then s[1..] else [s[0]] + Without(s[1..], x)
  }

  /** The block formed with the buddy would itself find its buddy free. */
  predicate MergeLikely(ls: Lists, b: Block)
    requires |ls| == MAX_ORDER && b.order < MAX_ORDER
  {
    b.order < MAX_ORDER - 2 && b.Parent().Buddy().pfn in ls[b.order + 1]
  }

  function Placed(ls: Lists, b: Block): (r: Lists)
    requires |ls| == MAX_ORDER && b.order < MAX_ORDER
  {
    if MergeLikely(ls, b) then ls[b.order := ls[b.order] + [b.pfn]]
    else ls[b.order := [b.pfn] + ls[b.order]]
  }

  /** The lists after block b is given back. */
  function Freed(ls: Lists, b: Block): (r: Lists)
    requires |ls| == MAX_ORDER && b.order < MAX_ORDER
    decreases MAX_ORDER - b.order
  {
    if b.order < MAX_ORDER - 1 && b.Buddy().pfn in ls[b.order] then
      Freed(ls[b.order := Without(ls[b.order], b.Buddy().pfn)], b.Parent())
    else Placed(ls, b)
  }

  /** The lists after the block of order high at pfn is cut down to order low. */
  function Expanded(ls: Lists, pfn: nat, low: nat, high: nat): (r: Lists)
    requires |ls| == MAX_ORDER && high < MAX_ORDER
    decreases high
  {
    if high <= low then ls
    else Expanded(ls[high - 1 := [pfn + Pow2(high - 1)] + ls[high - 1]], pfn, low, high - 1)
  }

  datatype Take = NoBlock | Took(pfn: nat, rest: Lists)

  /** Take a block of the given order, looking from order current upwards. */
  function TakenFrom(ls: Lists, order: nat, current: nat): (r: Take)
    requires |ls| == MAX_ORDER && current <= MAX_ORDER
    decreases MAX_ORDER - current
  {
    if current == MAX_ORDER then NoBlock
    else if ls[current] == [] then TakenFrom(ls, order, current + 1)
    else Took(ls[current][0], Expanded(ls[current := ls[current][1..]], ls[current][0], order, current))
  }

  function Taken(ls: Lists, order: nat): Take
    requires |ls| == MAX_ORDER && order <= MAX_ORDER
  {
    TakenFrom(ls, order, order)
  }

  lemma {:induction false} WithoutIs(s: seq<nat>, x: nat)
    requires NoDuplicates(s) && x in s
    ensures NoDuplicates(Without(s, x)) && |Without(s, x)| == |s| - 1
    ensures forall y :: y in Without(s, x) <==> y in s && y != x
  {
    if s[0] != x {
      assert x in s[1..];
      WithoutIs(s[1..], x);
      assert s[0] !in s[1..];
      ConsNoDuplicates(s[0], Without(s[1..], x));
      assert forall y :: y in s <==> y == s[0] || y in s[1..];
    } else {
      assert forall y :: y in s <==> y == s[0] || y in s[1..];
    }
  }

  lemma ConsNoDuplicates(x: nat, s: seq<nat>)
    requires NoDuplicates(s) && x !in s
    ensures NoDuplicates([x] + s)
  {
  }

  lemma BlocksOfHas(ls: Lists, b: Block)
    ensures b in BlocksOf(ls) <==> b.order < |ls| && b.pfn in ls[b.order]
  {
  }

  /** Replacing one list so that it loses exactly p takes one block out of the family. */
  lemma DropFromList(ls: Lists, k: nat, p: nat, s: seq<nat>)
    requires WellListed(ls) && k < MAX_ORDER && p in ls[k] && NoDuplicates(s)
    requires forall y :: y in s <==> y in ls[k] && y != p
    ensures WellListed(ls[k := s]) && BlocksOf(ls[k := s]) == BlocksOf(ls) - {Block(p, k)}
  {
    forall b ensures b in BlocksOf(ls[k := s]) <==> b in BlocksOf(ls) && b != Block(p, k) {
      BlocksOfHas(ls, b);
      BlocksOfHas(ls[k := s], b);
    }
  }

  lemma AddToList(ls: Lists, k: nat, p: nat, s: seq<nat>)
    requires WellListed(ls) && k < MAX_ORDER && p !in ls[k]
    requires s == [p] + ls[k] || s == ls[k] + [p]
    ensures WellListed(ls[k := s]) && BlocksOf(ls[k := s]) == BlocksOf(ls) + {Block(p, k)}
  {
    forall b ensures b in BlocksOf(ls[k := s]) <==> b in BlocksOf(ls) || b == Block(p, k) {
      BlocksOfHas(ls, b);
      BlocksOfHas(ls[k := s], b);
    }
  }

  /** Unlinking the buddy of b and stepping up to the parent keeps the invariant and the frames. */
  lemma MergeStep(ls: Lists, b: Block)
    requires ListInv(ls) && b.Aligned() && Unfree(BlocksOf(ls), b)
    requires b.order < MAX_ORDER - 1 && b.Buddy().pfn in ls[b.order]
    ensures var ls' := ls[b.order := Without(ls[b.order], b.Buddy().pfn)];
            && ListInv(ls') && b.Parent().Aligned() && Unfree(BlocksOf(ls'), b.Parent())
            && forall x :: Free(ls', x) || b.Parent().Has(x) <==> Free(ls, x) || b.Has(x)
  {
    var c, k := b.Buddy(), b.order;
    var s := Without(ls[k], c.pfn);
    WithoutIs(ls[k], c.pfn);
    DropFromList(ls, k, c.pfn, s);
    BlocksOfHas(ls, c);
    RemoveBlock(BlocksOf(ls), c);
    BuddyHalves(b);
    assert forall x :: b.Parent().Has(x) <==> b.Has(x) || c.Has(x);
  }

  /** Freeing a block none of whose frames is free keeps the invariant and frees exactly its frames. */
  lemma {:induction false} FreedCorrect(ls: Lists, b: Block)
    requires ListInv(ls) && b.Aligned() && Unfree(BlocksOf(ls), b)
    ensures ListInv(Freed(ls, b))
    ensures forall x :: Free(Freed(ls, b), x) <==> Free(ls, x) || b.Has(x)
    decreases MAX_ORDER - b.order
  {
    if b.order < MAX_ORDER - 1 && b.Buddy().pfn in ls[b.order] {
      MergeStep(ls, b);
      FreedCorrect(ls[b.order := Without(ls[b.order], b.Buddy().pfn)], b.Parent());
    } else {
      BlocksOfHas(ls, b);
      BlocksOfHas(ls, b.Buddy());
      AddBlock(BlocksOf(ls), b);
      AddToList(ls, b.order, b.pfn, Placed(ls, b)[b.order]);
    }
  }

  lemma FreedUnfolds(ls: Lists, b: Block)
    requires |ls| == MAX_ORDER && b.order < MAX_ORDER - 1 && b.Buddy().pfn in ls[b.order]
    ensures Freed(ls, b) == Freed(ls[b.order := Without(ls[b.order], b.Buddy().pfn)], b.Parent())
  {
  }

  lemma ExpandedUnfolds(ls: Lists, pfn: nat, low: nat, high: nat)
    requires |ls| == MAX_ORDER && low < high < MAX_ORDER
    ensures Expanded(ls, pfn, low, high)
            == Expanded(ls[high - 1 := [pfn + Pow2(high - 1)] + ls[high - 1]], pfn, low, high - 1)
  {
  }

  /** Listing the upper half of a block that is off the lists keeps the invariant; the lower half stays off. */
  lemma UpperHalfUnfree(ls: Lists, pfn: nat, high: nat)
    requires ListInv(ls) && high > 0 && Block(pfn, high).Aligned() && Unfree(BlocksOf(ls), Block(pfn, high))
    ensures var lower, upper := Block(pfn, high - 1), Block(pfn + Pow2(high - 1), high - 1);
            var ls' := ls[high - 1 := [upper.pfn] + ls[high - 1]];
            && Unfree(BlocksOf(ls), upper) && ListInv(ls') && lower.Aligned() && Unfree(BlocksOf(ls'), lower)
            && (forall x :: Free(ls', x) || lower.Has(x) <==> Free(ls, x) || Block(pfn, high).Has(x))
  {
    var b, lower, upper := Block(pfn, high), Block(pfn, high - 1), Block(pfn + Pow2(high - 1), high - 1);
    SplitHalves(b);
    assert forall x :: b.Has(x) <==> lower.Has(x) || upper.Has(x);
    assert lower !in BlocksOf(ls) by { assert lower.Has(pfn) && b.Has(pfn); }
    AddBlock(BlocksOf(ls), upper);
    BlocksOfHas(ls, upper);
    AddToList(ls, high - 1, upper.pfn, [upper.pfn] + ls[high - 1]);
  }

  /** Cutting down a block that is off the lists frees exactly what lies beyond the part kept. */
  lemma {:induction false} ExpandedCorrect(ls: Lists, pfn: nat, low: nat, high: nat)
    requires ListInv(ls) && low <= high && Block(pfn, high).Aligned() && Unfree(BlocksOf(ls), Block(pfn, high))
    ensures var ls', b := Expanded(ls, pfn, low, high), Block(pfn, low);
            && ListInv(ls') && b.Aligned() && Unfree(BlocksOf(ls'), b)
            && (forall x :: Free(ls', x) || b.Has(x) <==> Free(ls, x) || Block(pfn, high).Has(x))
    decreases high
  {
    if low < high {
      UpperHalfUnfree(ls, pfn, high);
      ExpandedCorrect(ls[high - 1 := [pfn + Pow2(high - 1)] + ls[high - 1]], pfn, low, high - 1);
    }
  }

  /**
   Taking a block yields an aligned block of free frames and removes exactly
   those; it fails only if no aligned run of 2^order frames is free.
   */
  lemma {:induction false} TakenCorrect(ls: Lists, order: nat)
    requires ListInv(ls) && order < MAX_ORDER
    ensures match Taken(ls, order)
            case NoBlock => forall b: Block :: b.Aligned() && b.order == order ==> exists x :: b.Has(x) && !Free(ls, x)
            case Took(pfn, rest) =>
              && Block(pfn, order).Aligned() && ListInv(rest)
              && (forall x :: Block(pfn, order).Has(x) ==> Free(ls, x))
              && (forall x :: Free(rest, x) <==> Free(ls, x) && !Block(pfn, order).Has(x))
  {
    var current := FirstNonEmpty(ls, order, order);
    if current < MAX_ORDER {
      var pfn, b := ls[current][0], Block(ls[current][0], current);
      BlocksOfHas(ls, b);
      assert forall y :: y in ls[current] <==> y == pfn || y in ls[current][1..];
      DropFromList(ls, current, pfn, ls[current][1..]);
      RemoveBlock(BlocksOf(ls), b);
      ExpandedCorrect(ls[current := ls[current][1..]], pfn, order, current);
      Pow2Monotone(order, current);
    } else {
      forall b: Block | b.Aligned() && b.order == order ensures exists x :: b.Has(x) && !Free(ls, x) {
        if forall x :: b.Has(x) ==> Free(ls, x) {
          var c := FullyCoalesced(BlocksOf(ls), b);
          BlocksOfHas(ls, c);
          assert c.order < order;
          SameOrderInside(b, c);
          assert false;
        }
      }
    }
  }

  lemma {:induction false} FirstNonEmpty(ls: Lists, order: nat, from: nat) returns (current: nat)
    requires |ls| == MAX_ORDER && from <= MAX_ORDER
    ensures from <= current <= MAX_ORDER && TakenFrom(ls, order, from) == TakenFrom(ls, order, current)
    ensures forall k :: from <= k < current ==> ls[k] == []
    ensures current < MAX_ORDER ==> ls[current] != []
    decreases MAX_ORDER - from
  {
    if from == MAX_ORDER || ls[from] != [] {
      current := from;
    } else {
      current := FirstNonEmpty(ls, order, from + 1);
    }
  }

  /** Pages on the lists, counted as the free areas count them: nr_free blocks of 2^k pages each. */
  function PageCount(ls: Lists, orders: nat): nat
    requires orders <= |ls|
  {
    if orders == 0 then 0 else PageCount(ls, orders - 1) + |ls[orders - 1]| * Pow2(orders - 1)
  }

  lemma {:induction false} PageCountPop(ls: Lists, k: nat, orders: nat)
    requires k < |ls| && orders <= |ls| && ls[k] != []
    ensures PageCount(ls, orders) == PageCount(ls[k := ls[k][1..]], orders) + if k < orders then Pow2(k) else 0
  {
    if orders > 0 {
      PageCountPop(ls, k, orders - 1);
      if k == orders - 1 {
        MulMinusOne(|ls[k]|, Pow2(k));
      }
    }
  }

  lemma MulMinusOne(n: int, d: int)
    ensures n * d == (n - 1) * d + d
  {
  }

  ghost function FreeSet(ls: Lists): set<nat> {
    set b, x | b in BlocksOf(ls) && x in Range(b.pfn, b.End()) :: x
  }

  lemma FreeSetHas(ls: Lists)
    ensures forall x :: x in FreeSet(ls) <==> Free(ls, x)
  {
    forall x | Free(ls, x) ensures x in FreeSet(ls) {
      var b :| b in BlocksOf(ls) && b.Has(x);
      assert x in Range(b.pfn, b.End());
    }
  }

  /** Dropping the first block of list k drops 2^k pages from the count and 2^k frames from the set. */
  lemma PopCount(ls: Lists, k: nat)
    requires ListInv(ls) && k < MAX_ORDER && ls[k] != []
    ensures var ls' := ls[k := ls[k][1..]];
            && ListInv(ls') && PageCount(ls, MAX_ORDER) == PageCount(ls', MAX_ORDER) + Pow2(k)
            && |FreeSet(ls)| == |FreeSet(ls')| + Pow2(k)
  {
    var p, ls' := ls[k][0], ls[k := ls[k][1..]];
    var b := Block(p, k);
    BlocksOfHas(ls, b);
    assert forall y :: y in ls[k] <==> y == p || y in ls[k][1..];
    DropFromList(ls, k, p, ls[k][1..]);
    RemoveBlock(BlocksOf(ls), b);
    PageCountPop(ls, k, MAX_ORDER);
    FreeSetSplit(ls, ls', b);
  }

  lemma FreeSetSplit(ls: Lists, ls': Lists, b: Block)
    requires forall x :: Free(ls', x) <==> Free(ls, x) && !b.Has(x)
    requires forall x :: b.Has(x) ==> Free(ls, x)
    ensures |FreeSet(ls)| == |FreeSet(ls')| + b.Size()
  {
    FreeSetHas(ls);
    FreeSetHas(ls');
    DisjointSum(FreeSet(ls), FreeSet(ls'), b.pfn, b.End());
  }

  lemma DisjointSum(s: set<nat>, t: set<nat>, lo: nat, hi: nat)
    requires lo <= hi && forall x :: x in t <==> x in s && !(lo <= x < hi)
    requires forall x :: lo <= x < hi ==> x in s
    ensures |s| == |t| + (hi - lo)
  {
    var r := Range(lo, hi);
    assert s == t + r && t !! r;
  }

  /** The block counts add up to exactly the number of free frames. */
  lemma {:induction false} PageCountIsFreeFrames(ls: Lists)
    requires ListInv(ls)
    ensures PageCount(ls, MAX_ORDER) == |FreeSet(ls)|
    decreases PageCount(ls, MAX_ORDER)
  {
    var k := FirstNonEmpty(ls, 0, 0);
    if k == MAX_ORDER {
      AllEmptyCount(ls, MAX_ORDER);
      assert BlocksOf(ls) == {};
      assert FreeSet(ls) == {};
    } else {
      PopCount(ls, k);
      PageCountIsFreeFrames(ls[k := ls[k][1..]]);
    }
  }

  lemma {:induction false} AllEmptyCount(ls: Lists, orders: nat)
    requires orders <= |ls| && forall k :: 0 <= k < orders ==> ls[k] == []
    ensures PageCount(ls, orders) == 0
  {
    if orders > 0 { AllEmptyCount(ls, orders - 1); }
  }

  // Whole runs: a client takes blocks and gives back blocks it holds.

  datatype Op = Alloc(order: nat) | Release(b: Block)

  datatype Heap = Heap(lists: Lists, held: set<Block>)

  function Step(h: Heap, op: Op): (r: Heap)
    requires |h.lists| == MAX_ORDER && forall b :: b in h.held ==> b.order < MAX_ORDER
  {
    match op
    case Alloc(order) =>
      if order >= MAX_ORDER then h
      else (match Taken(h.lists, order)
            case NoBlock => h
            case Took(pfn, rest) => Heap(rest, h.held + {Block(pfn, order)}))
    case Release(b) =>
      if b in h.held then Heap(Freed(h.lists, b), h.held - {b}) else h
  }

  ghost predicate HeapInv(h: Heap) {
    && ListInv(h.lists)
    && (forall b :: b in h.held ==> b.Aligned() && Unfree(BlocksOf(h.lists), b))
    && (forall b, c :: b in h.held && c in h.held && b != c ==> b.Apart(c))
  }

  /** Frame x belongs to the zone's stock: free or held. */
  ghost predicate Stocked(h: Heap, x: nat) {
    Free(h.lists, x) || Covered(h.held, x)
  }

  lemma StepSafe(h: Heap, op: Op)
    requires HeapInv(h)
    ensures HeapInv(Step(h, op)) && forall x :: Stocked(Step(h, op), x) <==> Stocked(h, x)
  {
    match op
    case Alloc(order) =>
      if order < MAX_ORDER {
        TakenCorrect(h.lists, order);
        if Taken(h.lists, order).Took? { AllocSafe(h, order); }
      }
    case Release(b) =>
      if b in h.held { ReleaseSafe(h, b); }
  }

  lemma AllocSafe(h: Heap, order: nat)
    requires HeapInv(h) && order < MAX_ORDER && Taken(h.lists, order).Took?
    ensures HeapInv(Step(h, Alloc(order)))
    ensures forall x :: Stocked(Step(h, Alloc(order)), x) <==> Stocked(h, x)
  {
    TakenCorrect(h.lists, order);
    var b, rest := Block(Taken(h.lists, order).pfn, order), Taken(h.lists, order).rest;
    forall c | c in h.held ensures b.Apart(c) { FreeApart(BlocksOf(h.lists), b, c); }
    assert Unfree(BlocksOf(rest), b) by {
      forall x | b.Has(x) ensures !Covered(BlocksOf(rest), x) { assert !Free(rest, x); }
    }
    forall c | c in h.held ensures Unfree(BlocksOf(rest), c) {
      forall x | c.Has(x) ensures !Covered(BlocksOf(rest), x) { assert !Free(h.lists, x) && !Free(rest, x); }
    }
    CoveredByInsert(h.held, b);
    forall x ensures Stocked(Heap(rest, h.held + {b}), x) <==> Stocked(h, x) {
      assert Free(rest, x) <==> Free(h.lists, x) && !b.Has(x);
    }
  }

  /** A block of free frames and a block of frames that are not free have none in common. */
  lemma FreeApart(f: set<Block>, b: Block, c: Block)
    requires (forall x :: b.Has(x) ==> Covered(f, x)) && Unfree(f, c)
    ensures b.Apart(c)
  {
    if !b.Apart(c) {
      var x := if b.pfn < c.pfn then c.pfn else b.pfn;
      assert b.Has(x) && c.Has(x);
      assert false;
    }
  }

  lemma ReleaseSafe(h: Heap, b: Block)
    requires HeapInv(h) && b in h.held
    ensures HeapInv(Step(h, Release(b)))
    ensures forall x :: Stocked(Step(h, Release(b)), x) <==> Stocked(h, x)
  {
    FreedCorrect(h.lists, b);
    var ls := Freed(h.lists, b);
    forall c | c in h.held - {b} ensures Unfree(BlocksOf(ls), c) {
      assert c.Apart(b);
      forall x | c.Has(x) ensures !Covered(BlocksOf(ls), x) { assert !Free(h.lists, x) && !b.Has(x); }
    }
    assert h.held == (h.held - {b}) + {b};
    CoveredByInsert(h.held - {b}, b);
  }

  lemma CoveredByInsert(f: set<Block>, b: Block)
    ensures forall x :: Covered(f + {b}, x) <==> Covered(f, x) || b.Has(x)
  {
    forall x | Covered(f, x) || b.Has(x) ensures Covered(f + {b}, x) {
      if b.Has(x) {
        assert b in f + {b};
      } else {
        var c :| c in f && c.Has(x);
        assert c in f + {b};
      }
    }
  }

  ghost function Run(h: Heap, ops: seq<Op>): Heap
    requires HeapInv(h)
    decreases |ops|
  {
    if ops == [] then h else StepSafe(h, ops[0]); Run(Step(h, ops[0]), ops[1..])
  }

  /** Every run keeps the invariant, never hands out a frame twice, and neither loses nor invents a frame. */
  lemma {:induction false} RunSafe(h: Heap, ops: seq<Op>)
    requires HeapInv(h)
    ensures HeapInv(Run(h, ops)) && forall x :: Stocked(Run(h, ops), x) <==> Stocked(h, x)
    decreases |ops|
  {
    if ops != [] {
      StepSafe(h, ops[0]);
      RunSafe(Step(h, ops[0]), ops[1..]);
    }
  }

  /**
   Whatever happens in between, a run after which the client holds what it held
   at the start restores the same free blocks at every order.
   */
  lemma RunRestores(h: Heap, ops: seq<Op>)
    requires HeapInv(h) && Run(h, ops).held == h.held
    ensures BlocksOf(Run(h, ops).lists) == BlocksOf(h.lists)
  {
    RunSafe(h, ops);
    SameStockSameBlocks(h, Run(h, ops));
  }

  lemma SameStockSameBlocks(h: Heap, g: Heap)
    requires HeapInv(h) && HeapInv(g) && g.held == h.held
    requires forall x :: Stocked(g, x) <==> Stocked(h, x)
    ensures BlocksOf(g.lists) == BlocksOf(h.lists)
  {
    assert SameFrames(BlocksOf(g.lists), BlocksOf(h.lists)) by {
      forall x ensures Covered(BlocksOf(g.lists), x) <==> Covered(BlocksOf(h.lists), x) {
        HeldNotFree(h, x);
        HeldNotFree(g, x);
        assert Stocked(g, x) <==> Stocked(h, x);
      }
    }
    CanonicalUnique(BlocksOf(g.lists), BlocksOf(h.lists));
  }

  lemma HeldNotFree(h: Heap, x: nat)
    requires HeapInv(h)
    ensures !(Free(h.lists, x) && Covered(h.held, x))
  {
  }

  /** Taking a block and giving it straight back restores the free blocks of every order. */
  lemma TakeThenFree(ls: Lists, order: nat)
    requires ListInv(ls) && order < MAX_ORDER && Taken(ls, order).Took?
    ensures var t := Taken(ls, order);
            |t.rest| == MAX_ORDER && BlocksOf(Freed(t.rest, Block(t.pfn, order))) == BlocksOf(ls)
  {
    TakenCorrect(ls, order);
    var t := Taken(ls, order);
    var b := Block(t.pfn, order);
    assert Unfree(BlocksOf(t.rest), b) by {
      forall x | b.Has(x) ensures !Covered(BlocksOf(t.rest), x) { assert !Free(t.rest, x); }
    }
    FreedCorrect(t.rest, b);
    SameFreeSameBlocks(Freed(t.rest, b), ls);
  }

  /** Two states of the lists with the same free frames have the same blocks at every order. */
  lemma SameFreeSameBlocks(ls: Lists, ls': Lists)
    requires ListInv(ls) && ListInv(ls') && forall x :: Free(ls, x) <==> Free(ls', x)
    ensures BlocksOf(ls) == BlocksOf(ls')
  {
    assert SameFrames(BlocksOf(ls), BlocksOf(ls')) by {
      forall x ensures Covered(BlocksOf(ls), x) <==> Covered(BlocksOf(ls'), x) {
        assert Free(ls, x) <==> Free(ls', x);
      }
    }
    CanonicalUnique(BlocksOf(ls), BlocksOf(ls'));
  }
}
