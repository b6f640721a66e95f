/** memblock_free_all: every free page frame goes to the buddy allocator, exactly once. */
module BootHandoff {
  import opened Bits
  import opened Log2
  import opened Intervals
  import opened MemblockRegions
  import opened MemblockCursor
  import opened MemblockAlloc
  import opened BuddyBlocks
  import opened BuddyLists
  import opened BuddyZone

  /** PFN_UP on 64-bit addresses; the addition wraps. */
  function PfnUp(x: nat): nat { ((x + PAGE_SIZE - 1) % TWO64) / PAGE_SIZE }
  function PfnDown(x: nat): nat { x / PAGE_SIZE }

  /** PFN_UP rounds up to the next frame exactly for addresses in all but the last page of the address space. */
  lemma PfnUpExact(x: nat)
    requires x < TWO64
    ensures x <= PfnUp(x) * PAGE_SIZE < x + PAGE_SIZE <==> x <= TWO64 - PAGE_SIZE
  {
  }

  /** The order __free_pages_memory picks at start: the alignment of start, cut down to what fits below end. */
  method BlockOrder(start: nat, end: nat) returns (order: nat)
    requires start < end && start < TWO64
    ensures Block(start, order).Aligned() && Block(start, order).End() <= end
    ensures order < MAX_ORDER - 1 ==> start % Pow2(order + 1) != 0 || start + Pow2(order + 1) > end
  {
    var ffs := Ffs(start);
    order := if MAX_ORDER - 1 < ffs then MAX_ORDER - 1 else ffs;
    LowestBitAligns(start, order, ffs);
    while start + Pow2(order) > end
      invariant order < MAX_ORDER && start % Pow2(order) == 0
      invariant order < MAX_ORDER - 1 ==> start % Pow2(order + 1) != 0 || start + Pow2(order + 1) > end
      decreases order
    {
      CoarserIsFiner(start, order - 1, order);
      order := order - 1;
    }
  }

  lemma LowestBitAligns(start: nat, order: nat, ffs: nat)
    requires ffs == if start == 0 then 63 else TrailingZeros(start)
    requires order == if MAX_ORDER - 1 < ffs then MAX_ORDER - 1 else ffs
    ensures start % Pow2(order) == 0 && (order < MAX_ORDER - 1 ==> start % Pow2(order + 1) != 0)
  {
    if start == 0 {
      DivModUnique(0, Pow2(order), 0, 0);
    } else {
      TrailingZerosIs(start);
      CoarserIsFiner(start, order, ffs);
      if order < MAX_ORDER - 1 && start % Pow2(order + 1) == 0 {
        TrailingZerosShift(start, order + 1);
      }
    }
  }

  /** Frames [start, end) are free on top of what was free before. */
  ghost predicate FreedFrames(before: Lists, after: Lists, start: nat, end: nat) {
    forall x: nat :: Free(after, x) <==> Free(before, x) || start <= x < end
  }

  /** __free_pages_memory: cut [start, end) into aligned blocks and free each. */
  method FreePagesMemory(zone: Zone, start: nat, end: nat)
    requires zone.Valid() && start <= end <= TWO64 && zone.base <= start && end <= zone.base + zone.pages.Length
    requires forall x: nat :: start <= x < end ==> !Free(zone.Lists(), x)
    modifies zone, zone.pages, zone.areas
    ensures zone.Valid() && zone.managed == old(zone.managed) + (end - start)
    ensures FreedFrames(old(zone.Lists()), zone.Lists(), start, end)
  {
    var pos := start;
    while pos < end
      invariant start <= pos <= end && zone.Valid() && zone.managed == old(zone.managed) + (pos - start)
      invariant FreedFrames(old(zone.Lists()), zone.Lists(), start, pos)
    {
      var order := BlockOrder(pos, end);
      ghost var ls := zone.Lists();
      BlockUnfree(ls, Block(pos, order));
      zone.FreePagesCore(pos, order);
      pos := pos + Pow2(order);
    }
  }

  lemma BlockUnfree(ls: Lists, b: Block)
    requires forall x: nat :: b.pfn <= x < b.End() ==> !Free(ls, x)
    ensures Unfree(BlocksOf(ls), b)
  {
    forall x: nat | b.Has(x) ensures !Covered(BlocksOf(ls), x) { assert !Free(ls, x); }
  }

  /** All addresses of frame f. */
  ghost predicate WholeFrame(m: seq<Region>, r: seq<Region>, f: nat) {
    AllAvailable(m, r, f * PAGE_SIZE, (f + 1) * PAGE_SIZE)
  }

  /** The frames __free_memory_core takes from a run. */
  predicate FrameOf(run: Region, f: nat, maxLow: nat) {
    PfnUp(run.base) <= f < Min(PfnDown(run.End), maxLow)
  }

  ghost predicate FrameOfSome(runs: seq<Region>, f: nat, maxLow: nat) {
    exists i :: 0 <= i < |runs| && FrameOf(runs[i], f, maxLow)
  }

  /** Frame f lies wholly in the run. */
  predicate Inside(run: Region, f: nat) { run.base <= f * PAGE_SIZE && (f + 1) * PAGE_SIZE <= run.End }

  /** A run that PFN_UP treats right: it does not start in the last page, or no frame is asked for. */
  predicate StartsLow(run: Region, maxLow: nat) { run.base <= TWO64 - PAGE_SIZE || maxLow == 0 }

  ghost predicate AllStartLow(runs: seq<Region>, maxLow: nat) {
    forall i :: 0 <= i < |runs| ==> StartsLow(runs[i], maxLow)
  }

  /** A frame below maxLow is taken from a run exactly when it lies wholly in the run. */
  lemma FrameOfIsInside(run: Region, f: nat, maxLow: nat)
    requires StartsLow(run, maxLow)
    ensures FrameOf(run, f, maxLow) <==> Inside(run, f) && f < maxLow
  {
    if run.base <= TWO64 - PAGE_SIZE { PfnUpExact(run.base); }
  }

  /** Every run gives exactly its own frames if and only if none starts in the last page, or none is asked for. */
  lemma FramesExactly(runs: seq<Region>, maxLow: nat)
    requires Separated(runs) && Below(runs, TWO64 - 1)
    ensures AllStartLow(runs, maxLow) <==>
            forall i, f: nat :: 0 <= i < |runs| ==> (FrameOf(runs[i], f, maxLow) <==> Inside(runs[i], f) && f < maxLow)
  {
    if AllStartLow(runs, maxLow) {
      forall i, f: nat | 0 <= i < |runs| ensures FrameOf(runs[i], f, maxLow) <==> Inside(runs[i], f) && f < maxLow {
        FrameOfIsInside(runs[i], f, maxLow);
      }
    } else {
      var i :| 0 <= i < |runs| && !StartsLow(runs[i], maxLow);
      LastPageTakesAll(runs[i], 0, maxLow);
    }
  }

  /** A run that starts in the last page is taken for all of memory below maxLow. */
  lemma LastPageTakesAll(run: Region, f: nat, maxLow: nat)
    requires TWO64 - PAGE_SIZE < run.base < run.End < TWO64 && f < maxLow && f < TWO64 / PAGE_SIZE - 1
    ensures FrameOf(run, f, maxLow) && !Inside(run, f)
  {
  }

  /** As for the 99 bytes from 2^64 - 100 on. */
  lemma LastPageExample(f: nat, maxLow: nat)
    requires f < maxLow && f < TWO64 / PAGE_SIZE - 1
    ensures FrameOf(Region(TWO64 - 100, 99), f, maxLow) && !Inside(Region(TWO64 - 100, 99), f)
  {
    LastPageTakesAll(Region(TWO64 - 100, 99), f, maxLow);
  }

  /** A frame lies wholly in free memory exactly when it lies inside one maximal run. */
  lemma WholeFrameInOneRun(m: seq<Region>, r: seq<Region>, runs: seq<Region>, f: nat, maxLow: nat)
    requires IsFreeRuns(m, r, runs) && AllStartLow(runs, maxLow)
    ensures FrameOfSome(runs, f, maxLow) <==> WholeFrame(m, r, f) && f < maxLow
  {
    var lo, hi := f * PAGE_SIZE, (f + 1) * PAGE_SIZE;
    if FrameOfSome(runs, f, maxLow) {
      var i :| 0 <= i < |runs| && FrameOf(runs[i], f, maxLow);
      FrameOfIsInside(runs[i], f, maxLow);
      forall x: nat | lo <= x < hi ensures Available(m, r, x) { assert runs[i].Has(x); assert In(runs, x); }
    }
    if WholeFrame(m, r, f) && f < maxLow {
      assert In(runs, lo) by { assert Available(m, r, lo); }
      var i :| 0 <= i < |runs| && runs[i].Has(lo);
      RunEndsFree(runs, i);
      assert !Available(m, r, runs[i].End);
      FrameOfIsInside(runs[i], f, maxLow);
    }
  }

  lemma RunEndsFree(runs: seq<Region>, i: nat)
    requires Separated(runs) && i < |runs|
    ensures !In(runs, runs[i].End)
  {
    forall k | 0 <= k < |runs| ensures !runs[k].Has(runs[i].End) {
      if k < i { assert runs[k].End < runs[i].base; } else if k > i { assert runs[i].End < runs[k].base; }
    }
  }

  /** __free_memory_core on one run. */
  method FreeMemoryCore(zone: Zone, start: nat, end: nat, maxLow: nat) returns (count: nat)
    requires zone.Valid() && start <= end < TWO64
    requires forall f: nat :: FrameOf(Region(start, end - start), f, maxLow) ==> zone.InMap(f) && !Free(zone.Lists(), f)
    modifies zone, zone.pages, zone.areas
    ensures zone.Valid() && zone.managed == old(zone.managed) + count
    ensures forall f: nat :: Free(zone.Lists(), f) <==>
                             old(Free(zone.Lists(), f)) || FrameOf(Region(start, end - start), f, maxLow)
    ensures |FreeSet(zone.Lists())| == old(|FreeSet(zone.Lists())|) + count
  {
    var startPfn, endPfn := PfnUp(start), Min(PfnDown(end), maxLow);
    ghost var run, before := Region(start, end - start), zone.Lists();
    if startPfn >= endPfn {
      return 0;
    }
    assert zone.InMap(startPfn) by { assert FrameOf(run, startPfn, maxLow); }
    assert zone.InMap(endPfn - 1) by { assert FrameOf(run, endPfn - 1, maxLow); }
    forall x: nat | startPfn <= x < endPfn ensures !Free(before, x) { assert FrameOf(run, x, maxLow); }
    FreePagesMemory(zone, startPfn, endPfn);
    FreeSetGrows(before, zone.Lists(), startPfn, endPfn);
    count := endPfn - startPfn;
  }

  lemma FreeSetGrows(before: Lists, after: Lists, start: nat, end: nat)
    requires start <= end && FreedFrames(before, after, start, end)
    requires forall x: nat :: start <= x < end ==> !Free(before, x)
    ensures |FreeSet(after)| == |FreeSet(before)| + (end - start)
  {
    FreeSetHas(before);
    FreeSetHas(after);
    DisjointSum(FreeSet(after), FreeSet(before), start, end);
  }

  /** The page map holds a struct page for every frame that memory touches. */
  ghost predicate MapCovers(zone: Zone, m: seq<Region>) {
    forall x: nat :: In(m, x) ==> zone.InMap(x / PAGE_SIZE)
  }

  /** The frames of the next run are in the map, and none of them belongs to an earlier run. */
  lemma NextRunReady(zone: Zone, m: seq<Region>, r: seq<Region>, seen: seq<Region>, run: Region, rest: seq<Region>,
                     f: nat, maxLow: nat)
    requires Ready(m, r, seen + ([run] + rest), maxLow) && MapCovers(zone, m)
    requires FrameOf(run, f, maxLow)
    ensures zone.InMap(f) && !FrameOfSome(seen, f, maxLow)
  {
    var runs, x := seen + ([run] + rest), f * PAGE_SIZE;
    assert runs[|seen|] == run;
    FrameOfIsInside(run, f, maxLow);
    assert run.Has(x) && In(runs, x);
    assert Available(m, r, x) && x / PAGE_SIZE == f;
    forall i | 0 <= i < |seen| ensures !FrameOf(seen[i], f, maxLow) {
      assert runs[i] == seen[i] && runs[i].End < runs[|seen|].base;
      FrameOfIsInside(seen[i], f, maxLow);
    }
  }

  lemma FrameOfSnoc(seen: seq<Region>, run: Region, f: nat, maxLow: nat)
    ensures FrameOfSome(seen + [run], f, maxLow) <==> FrameOfSome(seen, f, maxLow) || FrameOf(run, f, maxLow)
  {
    var s := seen + [run];
    assert s[|seen|] == run && forall i :: 0 <= i < |seen| ==> s[i] == seen[i];
  }

  lemma RunsBelow(m: seq<Region>, r: seq<Region>, runs: seq<Region>, limit: nat)
    requires IsFreeRuns(m, r, runs) && Below(m, limit)
    ensures Below(runs, limit)
  {
    forall i | 0 <= i < |runs| ensures runs[i].End <= limit {
      assert runs[i].Has(runs[i].End - 1);
      assert In(runs, runs[i].End - 1);
    }
  }

  /** The maximal runs of free memory, none of which PFN_UP treats wrong. */
  ghost predicate Ready(m: seq<Region>, r: seq<Region>, runs: seq<Region>, maxLow: nat) {
    IsFreeRuns(m, r, runs) && AllStartLow(runs, maxLow) && Below(runs, PHYS_ADDR_MAX)
  }

  /** The frames handed over so far are those of the runs seen so far. */
  ghost predicate HandedOver(ls: Lists, seen: seq<Region>, maxLow: nat, count: nat) {
    (forall f: nat :: Free(ls, f) <==> FrameOfSome(seen, f, maxLow)) && |FreeSet(ls)| == count
  }

  /** The loop of free_low_memory_core_early over the free ranges. */
  method FreeLowMemory(mb: Memblock, zone: Zone, maxLow: nat) returns (count: nat)
    requires mb.Valid() && zone.Valid() && zone.managed == 0 && (forall f: nat :: !Free(zone.Lists(), f))
    requires AllStartLow(Runs(mb.memory.Live(), mb.reserved.Live(), 0, 0), maxLow) && MapCovers(zone, mb.memory.Live())
    modifies zone, zone.pages, zone.areas
    ensures mb.Valid() && mb.State() == old(mb.State()) && zone.Valid() && zone.managed == count
    ensures forall f: nat :: Free(zone.Lists(), f) <==>
                             f < maxLow && WholeFrame(mb.memory.Live(), mb.reserved.Live(), f)
    ensures count == |FreeSet(zone.Lists())|
  {
    ghost var m, r := mb.memory.Live(), mb.reserved.Live();
    ghost var runs := Runs(m, r, 0, 0);
    RunsAreFreeRuns(m, r);
    RunsBelow(m, r, runs, PHYS_ADDR_MAX);
    assert Ready(m, r, runs, maxLow);
    hide Ready, IsFreeRuns, AllStartLow, Below, WholeFrame, Available;
    count := 0;
    ghost var a: nat, b: nat, seen: seq<Region> := 0, 0, [];
    assert FreeSet(zone.Lists()) == {} by { FreeSetHas(zone.Lists()); }
    var i, start, end := NextMemRange(0, mb.memory, mb.reserved);
    assert seen + Runs(m, r, 0, 0) == runs;
    hide Runs, HandedOver, CursorAt;
    while i != ULLONG_MAX
      invariant mb.Valid() && mb.State() == Arrays(m, r) && zone.Valid() && zone.managed == count
      invariant a <= |m| && b <= |r| && CursorAt(m, r, a, b, i, start, end)
      invariant seen + Runs(m, r, a, b) == runs && HandedOver(zone.Lists(), seen, maxLow, count)
      decreases |m| + |r| - a - b
    {
      i, start, end, count, a, b, seen := OneRun(mb, zone, i, start, end, maxLow, count, m, r, runs, a, b, seen);
    }
    Finished(m, r, a, b, start, end, seen, runs);
    AllHandedOver(zone.Lists(), m, r, seen, maxLow, count);
  }

  lemma Finished(m: seq<Region>, r: seq<Region>, a: nat, b: nat, start: nat, end: nat, seen: seq<Region>,
                 runs: seq<Region>)
    requires ArrayInv(m) && ArrayInv(r) && b <= |r| && CursorAt(m, r, a, b, ULLONG_MAX, start, end)
    requires seen + Runs(m, r, a, b) == runs
    ensures seen == runs
  {
    assert Runs(m, r, a, b) == [];
  }

  /** One round of the loop: free the frames of the run at hand and step to the next. */
  method OneRun(mb: Memblock, zone: Zone, i: nat, start: nat, end: nat, maxLow: nat, count: nat,
                ghost m: seq<Region>, ghost r: seq<Region>, ghost runs: seq<Region>, ghost a: nat, ghost b: nat,
                ghost seen: seq<Region>)
    returns (i': nat, start': nat, end': nat, count': nat, ghost a': nat, ghost b': nat, ghost seen': seq<Region>)
    requires mb.Valid() && mb.State() == Arrays(m, r) && zone.Valid() && zone.managed == count && MapCovers(zone, m)
    requires i != ULLONG_MAX && a <= |m| && b <= |r| && CursorAt(m, r, a, b, i, start, end)
    requires seen + Runs(m, r, a, b) == runs && HandedOver(zone.Lists(), seen, maxLow, count)
             && Ready(m, r, runs, maxLow)
    modifies zone, zone.pages, zone.areas
    ensures mb.Valid() && mb.State() == Arrays(m, r) && zone.Valid() && zone.managed == count'
    ensures a' <= |m| && b' <= |r| && a + b < a' + b' && CursorAt(m, r, a', b', i', start', end')
    ensures seen' + Runs(m, r, a', b') == runs && HandedOver(zone.Lists(), seen', maxLow, count')
  {
    hide Ready, HandedOver, CursorAt, Runs;
    i', start', end', a', b' := StepForward(mb.memory, mb.reserved, i, start, end, a, b);
    count' := HandOverRun(zone, start, end, maxLow, count, m, r, seen, Runs(m, r, a', b'));
    seen' := seen + [Region(start, end - start)];
    assert seen' + Runs(m, r, a', b') == seen + ([Region(start, end - start)] + Runs(m, r, a', b'));
  }

  lemma AllHandedOver(ls: Lists, m: seq<Region>, r: seq<Region>, runs: seq<Region>, maxLow: nat, count: nat)
    requires HandedOver(ls, runs, maxLow, count) && Ready(m, r, runs, maxLow)
    ensures forall f: nat :: Free(ls, f) <==> f < maxLow && WholeFrame(m, r, f)
  {
    forall f: nat ensures Free(ls, f) <==> f < maxLow && WholeFrame(m, r, f) {
      WholeFrameInOneRun(m, r, runs, f, maxLow);
    }
  }

  /** The loop body: hand over one more run. */
  method HandOverRun(zone: Zone, start: nat, end: nat, maxLow: nat, count: nat,
                     ghost m: seq<Region>, ghost r: seq<Region>, ghost seen: seq<Region>, ghost rest: seq<Region>)
    returns (count': nat)
    requires start < end && zone.Valid() && zone.managed == count && MapCovers(zone, m)
    requires Ready(m, r, seen + ([Region(start, end - start)] + rest), maxLow)
    requires HandedOver(zone.Lists(), seen, maxLow, count)
    modifies zone, zone.pages, zone.areas
    ensures zone.Valid() && zone.managed == count'
    ensures HandedOver(zone.Lists(), seen + [Region(start, end - start)], maxLow, count')
  {
    ghost var run := Region(start, end - start);
    assert (seen + ([run] + rest))[|seen|] == run;
    forall f: nat | FrameOf(run, f, maxLow) ensures zone.InMap(f) && !Free(zone.Lists(), f) {
      NextRunReady(zone, m, r, seen, run, rest, f, maxLow);
    }
    var n := FreeMemoryCore(zone, start, end, maxLow);
    forall f: nat
      ensures FrameOfSome(seen + [run], f, maxLow) <==> FrameOfSome(seen, f, maxLow) || FrameOf(run, f, maxLow)
    {
      FrameOfSnoc(seen, run, f, maxLow);
    }
    count' := count + n;
  }

  datatype BootResult = Stopped | Released(pages: nat)

  /**
   memblock_free_all: the free frames of the zone become exactly the frames
   below maxLow that lie wholly in memory minus reserved; the count returned is
   their number, the pages on the free lists and the zone's managed pages.
   */
  method FreeAll(mb: Memblock, zone: Zone, maxLow: nat) returns (res: BootResult)
    requires mb.Valid() && zone.Valid() && (forall f: nat :: !Free(zone.Lists(), f))
    requires AllStartLow(Runs(mb.memory.Live(), mb.reserved.Live(), 0, 0), maxLow) && MapCovers(zone, mb.memory.Live())
    modifies mb, zone, zone.pages, zone.areas
    ensures res == Stopped <==> old(mb.stopped)
    ensures mb.stopped && mb.Valid() && mb.State() == old(mb.State()) && zone.Valid()
    ensures res.Released? ==>
              && (forall f: nat :: Free(zone.Lists(), f)
                                   <==> f < maxLow && WholeFrame(mb.memory.Live(), mb.reserved.Live(), f))
              && res.pages == |FreeSet(zone.Lists())| == PageCount(zone.Lists(), MAX_ORDER) == zone.managed
  {
    if mb.stopped {
      return Stopped;
    }
    mb.stopped := true;
    zone.managed := 0;
    var pages := FreeLowMemory(mb, zone, maxLow);
    PageCountIsFreeFrames(zone.Lists());
    res := Released(pages);
  }
}
