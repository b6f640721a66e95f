/**
 The zone of the buddy allocator: free areas and page marks changed in place.
 Every operation is tied to its meaning on the free lists.
 */
module BuddyZone {
  import opened Wrappers
  import opened Bits
  import opened BuddyBlocks
  import opened BuddyLists

  /**
   The fields of struct page the allocator uses. "buddy" is PageBuddy with the
   PAGE_TYPE_BASE bits set; "priv" is page_private, the order of a marked page.
   */
  datatype Page = Page(buddy: bool, priv: nat, reserved: bool, count: int)

  datatype FreeArea = FreeArea(list: seq<nat>, nrFree: int)

  function ListsOf(areas: seq<FreeArea>): Lists {
    seq(|areas|, k requires 0 <= k < |areas| => areas[k].list)
  }

  /** A page is marked with order k exactly when it heads a block on list k, and nr_free is the list's length. */
  ghost predicate Linked(base: nat, pages: seq<Page>, areas: seq<FreeArea>) {
    && |areas| == MAX_ORDER
    && (forall k :: 0 <= k < MAX_ORDER ==> areas[k].nrFree == |areas[k].list|)
    && (forall k, p :: 0 <= k < MAX_ORDER && p in areas[k].list ==>
          base <= p < base + |pages| && pages[p - base].buddy && pages[p - base].priv == k)
    && (forall i :: 0 <= i < |pages| && pages[i].buddy ==>
          pages[i].priv < MAX_ORDER && base + i in areas[pages[i].priv].list)
  }

  /** The page map starts and ends on a MAX_ORDER boundary. */
  predicate MapAligned(base: nat, len: nat) {
    base % MAX_ORDER_NR_PAGES == 0 && len % MAX_ORDER_NR_PAGES == 0
  }

  /** A block that starts in the map lies in the map, and so does its buddy. */
  lemma BlockInMap(base: nat, len: nat, b: Block)
    requires MapAligned(base, len) && b.Aligned() && base <= b.pfn < base + len
    ensures b.End() <= base + len
    ensures b.order < MAX_ORDER - 1 ==> base <= b.Parent().pfn && b.Parent().End() <= base + len
    ensures b.order < MAX_ORDER - 1 ==> base <= b.Buddy().pfn && b.Buddy().End() <= base + len
  {
    EndInMap(base, len, b);
    if b.order < MAX_ORDER - 1 {
      BuddyHalves(b);
      var p := b.Parent();
      MaxOrderSize();
      CoarserIsFiner(base, p.order, MAX_ORDER - 1);
      if p.pfn < base {
        MultiplesApart(p.pfn, base, p.Size());
      }
      EndInMap(base, len, p);
    }
  }

  lemma EndInMap(base: nat, len: nat, b: Block)
    requires MapAligned(base, len) && b.Aligned() && base <= b.pfn < base + len
    ensures b.End() <= base + len
  {
    MaxOrderSize();
    SumOfMultiples(base, len, MAX_ORDER_NR_PAGES);
    CoarserIsFiner(base + len, b.order, MAX_ORDER - 1);
    MultiplesApart(b.pfn, base + len, b.Size());
  }

  /** A marked page is free. */
  lemma MarkedIsFree(base: nat, pages: seq<Page>, areas: seq<FreeArea>, i: nat)
    requires Linked(base, pages, areas) && i < |pages| && pages[i].buddy
    ensures Free(ListsOf(areas), base + i)
  {
    var b := Block(base + i, pages[i].priv);
    BlocksOfHas(ListsOf(areas), b);
    assert b.Has(base + i);
  }

  lemma UnfreeIsUnmarked(base: nat, pages: seq<Page>, areas: seq<FreeArea>, b: Block)
    requires Linked(base, pages, areas) && base <= b.pfn < base + |pages| && Unfree(BlocksOf(ListsOf(areas)), b)
    ensures !pages[b.pfn - base].buddy
  {
    assert b.Has(b.pfn);
    if pages[b.pfn - base].buddy {
      MarkedIsFree(base, pages, areas, b.pfn - base);
    }
  }

  /** Marking an unmarked page and putting it on a list keeps marks and lists in step. */
  lemma LinkAdd(base: nat, pages: seq<Page>, areas: seq<FreeArea>, i: nat, k: nat, area: FreeArea, page: Page)
    requires Linked(base, pages, areas) && i < |pages| && k < MAX_ORDER && !pages[i].buddy
    requires page.buddy && page.priv == k && area.nrFree == areas[k].nrFree + 1
    requires area.list == [base + i] + areas[k].list || area.list == areas[k].list + [base + i]
    ensures Linked(base, pages[i := page], areas[k := area])
    ensures ListsOf(areas[k := area]) == ListsOf(areas)[k := area.list]
  {
    assert forall y :: y in area.list <==> y == base + i || y in areas[k].list;
  }

  /** Unlinking a head and clearing its mark keeps marks and lists in step. */
  lemma LinkDel(base: nat, pages: seq<Page>, areas: seq<FreeArea>, i: nat, k: nat, area: FreeArea, page: Page)
    requires Linked(base, pages, areas) && i < |pages| && k < MAX_ORDER && base + i in areas[k].list
    requires NoDuplicates(areas[k].list) && !page.buddy
    requires area == FreeArea(Without(areas[k].list, base + i), areas[k].nrFree - 1)
    ensures Linked(base, pages[i := page], areas[k := area])
    ensures ListsOf(areas[k := area]) == ListsOf(areas)[k := area.list]
  {
    WithoutIs(areas[k].list, base + i);
  }

  class Zone {
    const base: nat
    const pages: array<Page>
    const areas: array<FreeArea>
    var managed: nat

    ghost predicate Shaped() {
      areas.Length == MAX_ORDER && MapAligned(base, pages.Length)
    }

    ghost function Lists(): Lists
      reads areas
    {
      ListsOf(areas[..])
    }

    ghost predicate Valid()
      reads this, pages, areas
    {
      Shaped() && Linked(base, pages[..], areas[..]) && ListInv(Lists())
    }

    predicate InMap(pfn: nat) {
      base <= pfn < base + pages.Length
    }

    /** Refcounts and reserved bits are as they were. */
    twostate predicate OtherFieldsKept()
      reads pages
    {
      forall i :: 0 <= i < pages.Length ==>
                    pages[i].reserved == old(pages[i].reserved) && pages[i].count == old(pages[i].count)
    }

    /** A zone with empty free lists over an unmarked, aligned page map. */
    constructor (base: nat, pages: array<Page>)
      requires MapAligned(base, pages.Length)
      requires forall i :: 0 <= i < pages.Length ==> !pages[i].buddy
      ensures Valid() && fresh(areas) && this.pages == pages && this.base == base && managed == 0
      ensures forall x :: !Free(Lists(), x)
    {
      this.base, this.pages, this.managed := base, pages, 0;
      areas := new FreeArea[MAX_ORDER](_ => FreeArea([], 0));
      new;
      assert BlocksOf(Lists()) == {};
    }

    method AddToFreeList(pfn: nat, order: nat)
      requires Shaped() && order < MAX_ORDER
      modifies areas
      ensures var a := old(areas[order]);
              areas[..] == old(areas[..])[order := FreeArea([pfn] + a.list, a.nrFree + 1)]
    {
      areas[order] := FreeArea([pfn] + areas[order].list, areas[order].nrFree + 1);
    }

    method AddToFreeListTail(pfn: nat, order: nat)
      requires Shaped() && order < MAX_ORDER
      modifies areas
      ensures var a := old(areas[order]);
              areas[..] == old(areas[..])[order := FreeArea(a.list + [pfn], a.nrFree + 1)]
    {
      areas[order] := FreeArea(areas[order].list + [pfn], areas[order].nrFree + 1);
    }

    method SetPageOrder(pfn: nat, order: nat)
      requires InMap(pfn)
      modifies pages
      ensures pages[..] == old(pages[..])[pfn - base := old(pages[pfn - base]).(buddy := true, priv := order)]
    {
      pages[pfn - base] := pages[pfn - base].(priv := order);
      pages[pfn - base] := pages[pfn - base].(buddy := true);
    }

    method DelPageFromFreeList(pfn: nat, order: nat)
      requires Valid() && order < MAX_ORDER && pfn in Lists()[order]
      modifies areas, pages
      ensures Shaped() && Linked(base, pages[..], areas[..]) && OtherFieldsKept()
      ensures Lists() == old(Lists())[order := Without(old(Lists())[order], pfn)]
    {
      ghost var pages0, areas0 := pages[..], areas[..];
      areas[order] := areas[order].(list := Without(areas[order].list, pfn));
      pages[pfn - base] := pages[pfn - base].(buddy := false);
      pages[pfn - base] := pages[pfn - base].(priv := 0);
      areas[order] := areas[order].(nrFree := areas[order].nrFree - 1);
      LinkDel(base, pages0, areas0, pfn - base, order, areas[order], pages[pfn - base]);
      assert pages[..] == pages0[pfn - base := pages[pfn - base]];
      assert areas[..] == areas0[order := areas[order]];
    }

    /** The zone ids of two pages of this single zone are equal, so marks and orders decide. */
    predicate PageIsBuddy(buddy: nat, order: nat)
      requires InMap(buddy)
      reads pages
    {
      pages[buddy - base].buddy && pages[buddy - base].priv == order
    }

    /** The mark on a page says whether the block is on the list of that order. */
    lemma PageIsBuddyMeansListed(buddy: nat, order: nat)
      requires Shaped() && Linked(base, pages[..], areas[..]) && InMap(buddy) && order < MAX_ORDER
      ensures PageIsBuddy(buddy, order) <==> buddy in Lists()[order]
    {
      var i := buddy - base;
      assert pages[..][i] == pages[i];
    }

    predicate BuddyMergeLikely(pfn: nat, buddyPfn: nat, order: nat)
      requires MapAligned(base, pages.Length) && InMap(pfn)
      requires Block(pfn, order).Aligned() && (order < MAX_ORDER - 2 ==> buddyPfn == FindBuddyPfn(pfn, order))
      reads pages
    {
      order < MAX_ORDER - 2 &&
      var combined := And(buddyPfn, pfn);
      BlockInMap(base, pages.Length, Block(pfn, order));
      BuddyHalves(Block(pfn, order));
      BlockInMap(base, pages.Length, Block(combined, order + 1));
      PageIsBuddy(FindBuddyPfn(combined, order + 1), order + 1)
    }

    /**
     Give back the block of the given order at pfn, coalescing upwards.
     The page marks decide each merge; the result is the one the lists dictate.
     */
    method FreeOnePage(pfn0: nat, order0: nat)
      requires Valid() && InMap(pfn0) && Block(pfn0, order0).Aligned()
      requires Unfree(BlocksOf(Lists()), Block(pfn0, order0))
      modifies pages, areas
      ensures Valid() && OtherFieldsKept()
      ensures Lists() == Freed(old(Lists()), Block(pfn0, order0))
      ensures forall x :: Free(Lists(), x) <==> old(Free(Lists(), x)) || Block(pfn0, order0).Has(x)
    {
      hide Freed, Free, Unfree, BlocksOf, FindBuddyPfn, And, Linked, ListInv;
      FreedCorrect(Lists(), Block(pfn0, order0));
      var pfn, order, buddyPfn := pfn0, order0, 0;
      while order < MAX_ORDER - 1
        invariant Valid() && OtherFieldsKept() && InMap(pfn) && Block(pfn, order).Aligned()
        invariant Unfree(BlocksOf(Lists()), Block(pfn, order))
        invariant Freed(Lists(), Block(pfn, order)) == old(Freed(Lists(), Block(pfn0, order0)))
        decreases MAX_ORDER - order
      {
        BlockInMap(base, pages.Length, Block(pfn, order));
        buddyPfn := FindBuddyPfn(pfn, order);
        PageIsBuddyMeansListed(buddyPfn, order);
        if !PageIsBuddy(buddyPfn, order) {
          break;
        }
        MergeStep(Lists(), Block(pfn, order));
        FreedUnfolds(Lists(), Block(pfn, order));
        DelPageFromFreeList(buddyPfn, order);
        pfn := And(buddyPfn, pfn);
        order := order + 1;
      }
      PlaceBlock(pfn, buddyPfn, order);
    }

    /** The tail of __free_one_page: mark the head and choose the end of the list. */
    method PlaceBlock(pfn: nat, buddyPfn: nat, order: nat)
      requires Valid() && InMap(pfn) && Block(pfn, order).Aligned() && Unfree(BlocksOf(Lists()), Block(pfn, order))
      requires order < MAX_ORDER - 1 ==> buddyPfn == FindBuddyPfn(pfn, order) && buddyPfn !in Lists()[order]
      modifies pages, areas
      ensures Shaped() && Linked(base, pages[..], areas[..]) && OtherFieldsKept()
      ensures Lists() == Placed(old(Lists()), Block(pfn, order)) == Freed(old(Lists()), Block(pfn, order))
    {
      ghost var pages0, areas0 := pages[..], areas[..];
      UnfreeIsUnmarked(base, pages0, areas0, Block(pfn, order));
      SetPageOrder(pfn, order);
      MergeLikelyAgrees(pages0, pfn, buddyPfn, order);
      if BuddyMergeLikely(pfn, buddyPfn, order) {
        AddToFreeListTail(pfn, order);
      } else {
        AddToFreeList(pfn, order);
      }
      LinkAdd(base, pages0, areas0, pfn - base, order, areas[order], pages[pfn - base]);
    }

    /** The look one order up, made after the head was marked, sees what the lists held before. */
    lemma MergeLikelyAgrees(before: seq<Page>, pfn: nat, buddyPfn: nat, order: nat)
      requires Shaped() && |before| == pages.Length && Linked(base, before, areas[..]) && InMap(pfn)
      requires Block(pfn, order).Aligned() && (order < MAX_ORDER - 2 ==> buddyPfn == FindBuddyPfn(pfn, order))
      requires forall i :: 0 <= i < pages.Length && i != pfn - base ==> pages[i] == before[i]
      ensures BuddyMergeLikely(pfn, buddyPfn, order) == MergeLikely(Lists(), Block(pfn, order))
    {
      if order < MAX_ORDER - 2 {
        MergeLikelyMeansListed(base, before, areas[..], Block(pfn, order));
      }
    }

    /** Cut the block of order "from" at pfn down to order low, giving back the upper halves. */
    method Expand(pfn: nat, low: nat, from: nat)
      requires Valid() && low <= from && InMap(pfn)
      requires Block(pfn, from).Aligned() && Unfree(BlocksOf(Lists()), Block(pfn, from))
      modifies pages, areas
      ensures Valid() && OtherFieldsKept()
      ensures Lists() == Expanded(old(Lists()), pfn, low, from)
    {
      var high, size := from, Pow2(from);
      while high > low
        invariant Valid() && OtherFieldsKept() && low <= high <= from && size == Pow2(high)
        invariant Block(pfn, high).Aligned() && Unfree(BlocksOf(Lists()), Block(pfn, high))
        invariant Expanded(Lists(), pfn, low, high) == old(Expanded(Lists(), pfn, low, from))
      {
        ghost var ls := Lists();
        SplitOff(pfn, high);
        ExpandedUnfolds(ls, pfn, low, high);
        high := high - 1;
        size := size / 2;
      }
    }

    /** One round of expand(): put the upper half on the list one order down and mark it. */
    method SplitOff(pfn: nat, high: nat)
      requires Valid() && high > 0 && InMap(pfn)
      requires Block(pfn, high).Aligned() && Unfree(BlocksOf(Lists()), Block(pfn, high))
      modifies pages, areas
      ensures Valid() && OtherFieldsKept()
      ensures Lists() == old(Lists())[high - 1 := [pfn + Pow2(high - 1)] + old(Lists())[high - 1]]
      ensures Block(pfn, high - 1).Aligned() && Unfree(BlocksOf(Lists()), Block(pfn, high - 1))
    {
      ghost var pages0, areas0 := pages[..], areas[..];
      SplitOffSafe(base, pages0, areas0, pfn, high);
      var upper := pfn + Pow2(high - 1);
      AddToFreeList(upper, high - 1);
      SetPageOrder(upper, high - 1);
      LinkAdd(base, pages0, areas0, upper - base, high - 1, areas[high - 1], pages[upper - base]);
    }

    /**
     Take the smallest sufficient block, or nothing if no aligned run of
     2^order frames is free.
     */
    method RmqueueSmallest(order: nat) returns (r: Option<nat>)
      requires Valid() && order < MAX_ORDER
      modifies pages, areas
      ensures Valid() && OtherFieldsKept()
      ensures match Taken(old(Lists()), order)
              case NoBlock => r == None && Lists() == old(Lists())
              case Took(pfn, rest) => r == Some(pfn) && Lists() == rest
      ensures r.Some? ==>
                && Block(r.value, order).Aligned() && InMap(r.value)
                && (forall x :: Block(r.value, order).Has(x) ==> old(Free(Lists(), x)))
                && (forall x :: Free(Lists(), x) <==> old(Free(Lists(), x)) && !Block(r.value, order).Has(x))
      ensures r.None? <==>
              forall b: Block :: b.Aligned() && b.order == order ==> exists x :: b.Has(x) && !old(Free(Lists(), x))
    {
      TakenCorrect(Lists(), order);
      var current := order;
      while current < MAX_ORDER
        invariant order <= current <= MAX_ORDER
        invariant TakenFrom(Lists(), order, current) == Taken(Lists(), order)
      {
        if areas[current].list != [] {
          var pfn := areas[current].list[0];
          r := Some(pfn);
          HeadOffList(current);
          DelPageFromFreeList(pfn, current);
          Expand(pfn, order, current);
          return;
        }
        current := current + 1;
      }
      r := None;
    }

    /** What a client of the zone may hold: aligned blocks in the map, apart from one another and from what is free. */
    ghost predicate Client(held: set<Block>)
      reads this, areas
    {
      HeapInv(Heap(Lists(), held)) && forall b :: b in held ==> InMap(b.pfn)
    }

    /** One call of a client: take a block of an order, or give back a block it holds. */
    method Do(op: Op, held: set<Block>) returns (held': set<Block>)
      requires Valid() && Client(held)
      modifies pages, areas
      ensures Valid() && Client(held')
      ensures Heap(Lists(), held') == Step(Heap(old(Lists()), held), op)
    {
      hide ListInv, Linked, Taken, Freed;
      StepSafe(Heap(Lists(), held), op);
      held' := held;
      match op
      case Alloc(order) =>
        if order < MAX_ORDER {
          var r := RmqueueSmallest(order);
          if r.Some? {
            held' := held + {Block(r.value, order)};
          }
        }
      case Release(b) =>
        if b in held {
          FreeOnePage(b.pfn, b.order);
          held' := held - {b};
        }
    }

    /** Every run of calls on pages and lists is the run on lists alone: marks, orders, counts and map bounds hold
        throughout, and no call meets a block it must not. */
    method Run(ops: seq<Op>, held0: set<Block>) returns (held: set<Block>)
      requires Valid() && Client(held0)
      modifies pages, areas
      ensures Valid() && Client(held)
      ensures Heap(Lists(), held) == BuddyLists.Run(Heap(old(Lists()), held0), ops)
    {
      hide ListInv, Linked, Step, HeapInv;
      held := held0;
      assert ops[0..] == ops;
      for k := 0 to |ops|
        invariant Valid() && Client(held) && HeapInv(Heap(Lists(), held))
        invariant BuddyLists.Run(Heap(old(Lists()), held0), ops) == BuddyLists.Run(Heap(Lists(), held), ops[k..])
      {
        assert ops[k..][0] == ops[k] && ops[k..][1..] == ops[k + 1..];
        held := Do(ops[k], held);
      }
    }

    lemma HeadOffList(k: nat)
      requires Valid() && k < MAX_ORDER && areas[k].list != []
      ensures var ls, p := Lists(), areas[k].list[0];
              && p in ls[k] && InMap(p) && Block(p, k).Aligned()
              && Without(ls[k], p) == ls[k][1..] && ListInv(ls[k := ls[k][1..]])
              && Unfree(BlocksOf(ls[k := ls[k][1..]]), Block(p, k))
    {
      var ls, p := Lists(), areas[k].list[0];
      BlocksOfHas(ls, Block(p, k));
      assert forall y :: y in ls[k] <==> y == p || y in ls[k][1..];
      DropFromList(ls, k, p, ls[k][1..]);
      RemoveBlock(BlocksOf(ls), Block(p, k));
    }

    /**
     Hand a boot-time block to the allocator: its pages lose their reserved
     mark, the zone manages them, and the block is freed.
     */
    method FreePagesCore(pfn: nat, order: nat)
      requires Valid() && InMap(pfn) && Block(pfn, order).Aligned()
      requires Unfree(BlocksOf(Lists()), Block(pfn, order))
      modifies this, pages, areas
      ensures Valid() && managed == old(managed) + Pow2(order)
      ensures Lists() == Freed(old(Lists()), Block(pfn, order))
      ensures forall x :: Free(Lists(), x) <==> old(Free(Lists(), x)) || Block(pfn, order).Has(x)
      ensures forall i :: 0 <= i < pages.Length ==>
                if Block(pfn, order).Has(base + i) then !pages[i].reserved && pages[i].count == 0
                else pages[i].reserved == old(pages[i].reserved) && pages[i].count == old(pages[i].count)
    {
      hide Freed, Free, Unfree, BlocksOf, Linked, ListInv;
      ghost var pages0 := pages[..];
      BlockInMap(base, pages.Length, Block(pfn, order));
      ResetPages(pfn, Pow2(order));
      managed := managed + Pow2(order);
      pages[pfn - base] := pages[pfn - base].(count := 1);
      // __free_pages: drop the reference and free when it was the last one
      pages[pfn - base] := pages[pfn - base].(count := pages[pfn - base].count - 1);
      if pages[pfn - base].count == 0 {
        LinkedByMarks(base, pages0, pages[..], areas[..]);
        FreeOnePage(pfn, order);
      }
    }

    /** The loop of __free_pages_core over the struct pages of one block. */
    method ResetPages(pfn: nat, nrPages: nat)
      requires base <= pfn && pfn + nrPages <= base + pages.Length
      modifies pages
      ensures forall i :: 0 <= i < pages.Length ==>
                pages[i] == if pfn <= base + i < pfn + nrPages then old(pages[i]).(reserved := false, count := 0)
                            else old(pages[i])
    {
      var loop := 0;
      while loop < nrPages
        invariant 0 <= loop <= nrPages
        invariant forall i :: 0 <= i < pages.Length ==>
                    pages[i] == if pfn <= base + i < pfn + loop then old(pages[i]).(reserved := false, count := 0)
                                else old(pages[i])
      {
        pages[pfn - base + loop] := pages[pfn - base + loop].(reserved := false);
        pages[pfn - base + loop] := pages[pfn - base + loop].(count := 0);
        loop := loop + 1;
      }
    }
  }

  lemma LinkedByMarks(base: nat, pages: seq<Page>, pages': seq<Page>, areas: seq<FreeArea>)
    requires Linked(base, pages, areas) && |pages'| == |pages|
    requires forall i :: 0 <= i < |pages| ==> pages'[i].buddy == pages[i].buddy && pages'[i].priv == pages[i].priv
    ensures Linked(base, pages', areas)
  {
  }

  /** The upper half lies in the map unmarked, and listing it keeps the invariant. */
  lemma SplitOffSafe(base: nat, pages: seq<Page>, areas: seq<FreeArea>, pfn: nat, high: nat)
    requires Linked(base, pages, areas) && MapAligned(base, |pages|) && ListInv(ListsOf(areas))
    requires high > 0 && base <= pfn < base + |pages|
    requires Block(pfn, high).Aligned() && Unfree(BlocksOf(ListsOf(areas)), Block(pfn, high))
    ensures var ls, upper := ListsOf(areas), pfn + Pow2(high - 1);
            var ls' := ls[high - 1 := [upper] + ls[high - 1]];
            && upper < base + |pages| && !pages[upper - base].buddy
            && ListInv(ls') && Block(pfn, high - 1).Aligned() && Unfree(BlocksOf(ls'), Block(pfn, high - 1))
  {
    BlockInMap(base, |pages|, Block(pfn, high));
    UpperHalfUnfree(ListsOf(areas), pfn, high);
    UnfreeIsUnmarked(base, pages, areas, Block(pfn + Pow2(high - 1), high - 1));
  }

  /** The lookup one order up reads a page other than the one just marked, and agrees with the lists. */
  lemma MergeLikelyMeansListed(base: nat, pages: seq<Page>, areas: seq<FreeArea>, b: Block)
    requires Linked(base, pages, areas) && MapAligned(base, |pages|)
    requires b.Aligned() && base <= b.pfn < base + |pages| && b.order < MAX_ORDER - 2
    ensures var c := b.Parent().Buddy().pfn;
            && base <= c < base + |pages| && c != b.pfn
            && (pages[c - base].buddy && pages[c - base].priv == b.order + 1 <==> c in ListsOf(areas)[b.order + 1])
  {
    hide And, Xor, Pow2, FindBuddyPfn, MapAligned;
    BlockInMap(base, |pages|, b);
    BuddyHalves(b);
    BlockInMap(base, |pages|, b.Parent());
    BuddyHalves(b.Parent());
  }
}
