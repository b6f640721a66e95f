/**
 The packed two-index cursors over "memory minus reserved": the forward and the
 reverse iterator both list exactly the maximal free runs.
 */
module MemblockCursor {
  import opened Bits
  import opened Intervals
  import opened MemblockRegions

  const ULLONG_MAX: nat := 0xffff_ffff_ffff_ffff

  /** (u32) of a C int. */
  function ToU32(i: int): nat
    requires -1 <= i < TWO32 / 2
  {
    if i < 0 then i + TWO32 else i
  }

  /** (u32)a | (u64)b << 32 */
  function Pack(a: int, b: int): nat
    requires -1 <= a < TWO32 / 2 && -1 <= b < TWO32 / 2
  {
    ToU32(a) + ToU32(b) * TWO32
  }

  /** The low or high half of a cursor read back as a C int. */
  function ToInt(half: nat): int {
    if half < TWO32 / 2 then half else half - TWO32
  }

  function IdxA(idx: nat): int { ToInt(idx % TWO32) }
  function IdxB(idx: nat): int { ToInt((idx / TWO32) % TWO32) }

  lemma UnpackPack(a: int, b: int)
    requires -1 <= a < TWO32 / 2 && -1 <= b < TWO32 / 2
    ensures IdxA(Pack(a, b)) == a && IdxB(Pack(a, b)) == b
    ensures Pack(a, b) == ULLONG_MAX <==> a == -1 && b == -1
  {
    var lo, hi := ToU32(a), ToU32(b);
    DivModUnique(Pack(a, b), TWO32, hi, lo);
  }

  /** The cursor holds the two indices and is not the end marker. */
  ghost predicate Packed(idx: nat, a: int, b: int) {
    -1 <= a < TWO32 / 2 && -1 <= b < TWO32 / 2 && idx == Pack(a, b) && idx != ULLONG_MAX
  }

  // The gaps of the reserved array: gap j lies before reserved region j.

  function GapStart(r: seq<Region>, j: nat): nat
    requires j <= |r|
  {
    if j == 0 then 0 else r[j - 1].End
  }

  function GapEnd(r: seq<Region>, j: nat): nat
    requires j <= |r|
  {
    if j < |r| then r[j].base else PHYS_ADDR_MAX
  }

  datatype Hit = Done | Hit(start: nat, end: nat, a: int, b: int)

  /** The next free run at or after memory region a and gap b, and where to go on. */
  function Next(m: seq<Region>, r: seq<Region>, a: nat, b: nat): Hit
    decreases |m| - a, |r| + 1 - b
  {
    if a >= |m| then Done
    else if b > |r| then Next(m, r, a + 1, b)
    else if GapStart(r, b) >= m[a].End then Next(m, r, a + 1, b)
    else if m[a].base < GapEnd(r, b) then
      var after := if m[a].End <= GapEnd(r, b) then (a + 1, b) else (a, b + 1);
      Hit(Max(m[a].base, GapStart(r, b)), Min(m[a].End, GapEnd(r, b)), after.0, after.1)
    else Next(m, r, a, b + 1)
  }

  ghost predicate MemFrom(m: seq<Region>, a: nat, x: nat) {
    exists i :: a <= i < |m| && m[i].Has(x)
  }

  predicate InGap(r: seq<Region>, j: nat, x: nat)
    requires j <= |r|
  {
    GapStart(r, j) <= x < GapEnd(r, j)
  }

  ghost predicate GapFrom(r: seq<Region>, b: nat, x: nat) {
    exists j :: b <= j <= |r| && InGap(r, j, x)
  }

  /** Address x is free and not yet passed by a cursor at (a, b). */
  ghost predicate FreeFrom(m: seq<Region>, r: seq<Region>, a: nat, b: nat, x: nat) {
    MemFrom(m, a, x) && GapFrom(r, b, x)
  }

  lemma MemFromStep(m: seq<Region>, a: nat, x: nat)
    requires a < |m|
    ensures MemFrom(m, a, x) <==> m[a].Has(x) || MemFrom(m, a + 1, x)
  {
  }

  lemma GapFromStep(r: seq<Region>, b: nat, x: nat)
    requires b <= |r|
    ensures GapFrom(r, b, x) <==> InGap(r, b, x) || GapFrom(r, b + 1, x)
  {
  }

  lemma MemFromAbove(m: seq<Region>, a: nat, x: nat)
    requires ArrayInv(m) && MemFrom(m, a, x)
    ensures a < |m| && m[a].base <= x && (a > 0 ==> m[a - 1].End < x)
  {
  }

  lemma GapFromAbove(r: seq<Region>, b: nat, x: nat)
    requires ArrayInv(r) && GapFrom(r, b, x)
    ensures b <= |r| && GapStart(r, b) <= x
    ensures b > 0 && !IsDummy(r) ==> GapEnd(r, b - 1) < x
    ensures b > 0 ==> GapEnd(r, b - 1) <= x
  {
  }

  /** What one step of the forward cursor finds, and that what is left lies strictly above it. */
  ghost predicate StepOk(m: seq<Region>, r: seq<Region>, a: nat, b: nat, h: Hit) {
    match h
    case Done => forall x: nat :: !FreeFrom(m, r, a, b, x)
    case Hit(start, end, a', b') =>
      && start < end && a <= a' <= |m| && b <= b' <= |r| && a' + b' > a + b
      && (forall x: nat :: FreeFrom(m, r, a, b, x) <==> start <= x < end || FreeFrom(m, r, a', b', x))
      && (forall x: nat :: FreeFrom(m, r, a', b', x) ==> end < x)
  }

  lemma {:induction false} NextCorrect(m: seq<Region>, r: seq<Region>, a: nat, b: nat)
    requires ArrayInv(m) && ArrayInv(r) && b <= |r|
    ensures StepOk(m, r, a, b, Next(m, r, a, b))
    decreases |m| - a, |r| + 1 - b
  {
    if a < |m| {
      if GapStart(r, b) >= m[a].End {
        SkipMem(m, r, a, b);
        NextCorrect(m, r, a + 1, b);
      } else if m[a].base >= GapEnd(r, b) {
        SkipGap(m, r, a, b);
        NextCorrect(m, r, a, b + 1);
      } else {
        HitStep(m, r, a, b);
      }
    }
  }

  lemma NextBounds(m: seq<Region>, r: seq<Region>, a: nat, b: nat)
    requires ArrayInv(m) && ArrayInv(r) && b <= |r|
    ensures var h := Next(m, r, a, b);
            h.Hit? ==> h.start < h.end && a <= h.a <= |m| && b <= h.b <= |r| && a + b < h.a + h.b
  {
    NextCorrect(m, r, a, b);
  }

  lemma SkipMem(m: seq<Region>, r: seq<Region>, a: nat, b: nat)
    requires ArrayInv(m) && ArrayInv(r) && a < |m| && b <= |r| && m[a].End <= GapStart(r, b)
    ensures forall x: nat :: FreeFrom(m, r, a, b, x) <==> FreeFrom(m, r, a + 1, b, x)
  {
    forall x: nat ensures FreeFrom(m, r, a, b, x) <==> FreeFrom(m, r, a + 1, b, x) {
      MemFromStep(m, a, x);
      if GapFrom(r, b, x) { GapFromAbove(r, b, x); }
    }
  }

  lemma SkipGap(m: seq<Region>, r: seq<Region>, a: nat, b: nat)
    requires ArrayInv(m) && ArrayInv(r) && a < |m| && b <= |r| && GapEnd(r, b) <= m[a].base
    requires GapStart(r, b) < m[a].End
    ensures b < |r| && forall x: nat :: FreeFrom(m, r, a, b, x) <==> FreeFrom(m, r, a, b + 1, x)
  {
    forall x: nat ensures FreeFrom(m, r, a, b, x) <==> FreeFrom(m, r, a, b + 1, x) {
      GapFromStep(r, b, x);
      if MemFrom(m, a, x) { MemFromAbove(m, a, x); }
    }
  }

  /** Past the region or gap that ends first, everything still free lies strictly above both ends. */
  lemma HitAbove(m: seq<Region>, r: seq<Region>, a: nat, b: nat, x: nat)
    requires ArrayInv(m) && ArrayInv(r) && a < |m| && b <= |r|
    requires GapStart(r, b) < m[a].End && m[a].base < GapEnd(r, b)
    ensures MemFrom(m, a + 1, x) ==> m[a].End < x
    ensures GapFrom(r, b + 1, x) ==> GapEnd(r, b) < x
  {
    if MemFrom(m, a + 1, x) { MemFromAbove(m, a + 1, x); }
    if GapFrom(r, b + 1, x) { GapFromAbove(r, b + 1, x); }
  }

  lemma HitStep(m: seq<Region>, r: seq<Region>, a: nat, b: nat)
    requires ArrayInv(m) && ArrayInv(r) && a < |m| && b <= |r|
    requires GapStart(r, b) < m[a].End && m[a].base < GapEnd(r, b)
    ensures StepOk(m, r, a, b, Next(m, r, a, b))
  {
    var h := Next(m, r, a, b);
    HitNonEmpty(m, r, a, b);
    forall x: nat
      ensures FreeFrom(m, r, a, b, x) <==> h.start <= x < h.end || FreeFrom(m, r, h.a, h.b, x)
      ensures FreeFrom(m, r, h.a, h.b, x) ==> h.end < x
    {
      MemFromStep(m, a, x);
      GapFromStep(r, b, x);
      HitAbove(m, r, a, b, x);
    }
  }

  lemma HitNonEmpty(m: seq<Region>, r: seq<Region>, a: nat, b: nat)
    requires ArrayInv(m) && ArrayInv(r) && a < |m| && b <= |r|
    requires GapStart(r, b) < m[a].End && m[a].base < GapEnd(r, b)
    ensures m[a].base < m[a].End <= PHYS_ADDR_MAX && GapStart(r, b) < GapEnd(r, b)
  {
  }

  /** All free runs from memory region a and gap b on. */
  ghost function Runs(m: seq<Region>, r: seq<Region>, a: nat, b: nat): seq<Region>
    decreases |m| + |r| - a - b
  {
    match Next(m, r, a, b)
    case Done => []
    case Hit(s, e, a', b') =>
      if s < e && 0 <= a' && 0 <= b' && a + b < a' + b' <= |m| + |r| then
        [Region(s, e - s)] + Runs(m, r, a', b')
      else []
  }

  /** The runs are sorted, non-empty, never touching, and cover exactly what is free from (a, b) on. */
  ghost predicate RunsOk(m: seq<Region>, r: seq<Region>, a: nat, b: nat, runs: seq<Region>) {
    Separated(runs) && forall x: nat :: In(runs, x) <==> FreeFrom(m, r, a, b, x)
  }

  lemma {:induction false} RunsFrom(m: seq<Region>, r: seq<Region>, a: nat, b: nat)
    requires ArrayInv(m) && ArrayInv(r) && b <= |r|
    ensures RunsOk(m, r, a, b, Runs(m, r, a, b))
    decreases |m| + |r| - a - b
  {
    NextCorrect(m, r, a, b);
    var h := Next(m, r, a, b);
    if h.Hit? {
      RunsFrom(m, r, h.a, h.b);
      ConsRun(m, r, a, b, h, Runs(m, r, h.a, h.b));
    }
  }

  /** A run found by one step, followed by the runs of what is left. */
  lemma ConsRun(m: seq<Region>, r: seq<Region>, a: nat, b: nat, h: Hit, rest: seq<Region>)
    requires h.Hit? && StepOk(m, r, a, b, h)
    requires RunsOk(m, r, h.a, h.b, rest)
    ensures RunsOk(m, r, a, b, [Region(h.start, h.end - h.start)] + rest)
  {
    var run := Region(h.start, h.end - h.start);
    if rest != [] { LeastIn(rest); }
    SeparatedCons(run, rest);
    forall x: nat ensures In([run] + rest, x) <==> FreeFrom(m, r, a, b, x) { InCons(run, rest, x); }
  }

  /** x is in memory and not reserved. */
  ghost predicate Available(m: seq<Region>, r: seq<Region>, x: nat) {
    In(m, x) && !In(r, x)
  }

  lemma AvailableIsFreeFrom(m: seq<Region>, r: seq<Region>, x: nat)
    requires ArrayInv(m) && ArrayInv(r)
    ensures FreeFrom(m, r, 0, 0, x) <==> Available(m, r, x)
  {
    if In(m, x) {
      var i :| 0 <= i < |m| && m[i].Has(x);
      assert x < PHYS_ADDR_MAX;
      if !In(r, x) { GapAround(r, x, 0); }
    }
  }

  lemma {:induction false} GapAround(r: seq<Region>, x: nat, j: nat)
    requires ArrayInv(r) && !In(r, x) && x < PHYS_ADDR_MAX && j <= |r| && GapStart(r, j) <= x
    ensures GapFrom(r, j, x)
    decreases |r| - j
  {
    if x < GapEnd(r, j) {
      assert InGap(r, j, x);
    } else {
      assert !r[j].Has(x);
      GapAround(r, x, j + 1);
    }
  }

  /** The list of maximal runs of memory minus reserved. */
  ghost predicate IsFreeRuns(m: seq<Region>, r: seq<Region>, runs: seq<Region>) {
    Separated(runs) && forall x: nat :: In(runs, x) <==> Available(m, r, x)
  }

  lemma RunsAreFreeRuns(m: seq<Region>, r: seq<Region>)
    requires ArrayInv(m) && ArrayInv(r)
    ensures IsFreeRuns(m, r, Runs(m, r, 0, 0))
  {
    RunsFrom(m, r, 0, 0);
    forall x: nat ensures In(Runs(m, r, 0, 0), x) <==> Available(m, r, x) { AvailableIsFreeFrom(m, r, x); }
  }

  /** An array small enough for its indices to fit a C int. */
  ghost predicate Indexable(t: MemblockType)
    reads t
  {
    t.Shaped() && t.cnt < TWO32 / 2 - 1
  }

  ghost predicate Usable(t: MemblockType)
    reads t, t.regions
  {
    t.Valid() && Indexable(t)
  }

  /**
   __next_mem_range: advance the packed cursor to the next free run. ULLONG_MAX
   signals the end, and no other result is ULLONG_MAX.
   */
  method NextMemRange(idx: nat, memory: MemblockType, reserved: MemblockType)
    returns (idx': nat, start: nat, end: nat)
    requires Indexable(memory) && Indexable(reserved)
    requires 0 <= IdxA(idx) <= memory.cnt && 0 <= IdxB(idx) <= reserved.cnt
    ensures CursorAt(memory.Live(), reserved.Live(), IdxA(idx), IdxB(idx), idx', start, end)
  {
    ghost var m, r := memory.Live(), reserved.Live();
    var a: nat, b: nat := IdxA(idx), IdxB(idx);
    start, end := 0, 0;
    while a < memory.cnt
      invariant a <= memory.cnt && b <= reserved.cnt + 1
      invariant Next(m, r, a, b) == Next(m, r, IdxA(idx), IdxB(idx))
    {
      var mStart, mEnd := memory.regions[a].base, memory.regions[a].base + memory.regions[a].size;
      var found, rStart, rEnd;
      found, b, rStart, rEnd := ScanGaps(reserved, b, mStart, mEnd, m, a);
      if found {
        start, end := Max(mStart, rStart), Min(mEnd, rEnd);
        if mEnd <= rEnd {
          a := a + 1;
        } else {
          b := b + 1;
        }
        UnpackPack(a, b);
        return Pack(a, b), start, end;
      }
      a := a + 1;
    }
    idx' := ULLONG_MAX;
  }

  /** The inner loop of __next_mem_range: the first gap from b0 on that meets or passes [mStart, mEnd). */
  method ScanGaps(reserved: MemblockType, b0: nat, mStart: nat, mEnd: nat, ghost m: seq<Region>, ghost a: nat)
    returns (found: bool, b: nat, rStart: nat, rEnd: nat)
    requires reserved.Shaped() && b0 <= reserved.cnt + 1
    requires a < |m| && m[a].base == mStart && m[a].End == mEnd
    ensures b <= reserved.cnt + 1 && Next(m, reserved.Live(), a, b) == Next(m, reserved.Live(), a, b0)
    ensures if found then
              && b <= reserved.cnt && rStart == GapStart(reserved.Live(), b) < mEnd
              && mStart < rEnd == GapEnd(reserved.Live(), b)
            else b > reserved.cnt || GapStart(reserved.Live(), b) >= mEnd
  {
    b, rStart, rEnd := b0, 0, 0;
    while b < reserved.cnt + 1
      invariant b <= reserved.cnt + 1 && Next(m, reserved.Live(), a, b) == Next(m, reserved.Live(), a, b0)
    {
      rStart := if b != 0 then reserved.regions[b - 1].base + reserved.regions[b - 1].size else 0;
      rEnd := if b < reserved.cnt then reserved.regions[b].base else PHYS_ADDR_MAX;
      if rStart >= mEnd {
        return false, b, rStart, rEnd;
      }
      if mStart < rEnd {
        return true, b, rStart, rEnd;
      }
      b := b + 1;
    }
    found := false;
  }

  /** The cursor and out-parameters after a call made at (a, b). */
  ghost predicate CursorAt(m: seq<Region>, r: seq<Region>, a: nat, b: nat, i: nat, start: nat, end: nat) {
    match Next(m, r, a, b)
    case Done => i == ULLONG_MAX
    case Hit(s, e, a', b') => Packed(i, a', b') && start == s && end == e
  }

  /** The cursor that found a run leads to the runs behind it. */
  lemma StepUp(m: seq<Region>, r: seq<Region>, a: nat, b: nat, i: nat, start: nat, end: nat) returns (a': nat, b': nat)
    requires ArrayInv(m) && ArrayInv(r) && b <= |r| && CursorAt(m, r, a, b, i, start, end) && i != ULLONG_MAX
    ensures IdxA(i) == a' && IdxB(i) == b' && start < end && a <= a' <= |m| && b <= b' <= |r| && a + b < a' + b'
    ensures Runs(m, r, a, b) == [Region(start, end - start)] + Runs(m, r, a', b')
  {
    hide Next, ArrayInv, IdxA, IdxB, Pack;
    NextBounds(m, r, a, b);
    var h := Next(m, r, a, b);
    a', b' := h.a, h.b;
    UnpackPack(a', b');
  }

  /** The forward loop's step from one run to the next; (a, b) is where the call that found the run was made. */
  method StepForward(memory: MemblockType, reserved: MemblockType, i: nat, start: nat, end: nat, ghost a: nat,
                     ghost b: nat)
    returns (i': nat, start': nat, end': nat, ghost a': nat, ghost b': nat)
    requires Usable(memory) && Usable(reserved) && i != ULLONG_MAX && a <= memory.cnt && b <= reserved.cnt
    requires CursorAt(memory.Live(), reserved.Live(), a, b, i, start, end)
    ensures a <= a' <= memory.cnt && b <= b' <= reserved.cnt && a + b < a' + b' && start < end
    ensures CursorAt(memory.Live(), reserved.Live(), a', b', i', start', end')
    ensures Runs(memory.Live(), reserved.Live(), a, b)
            == [Region(start, end - start)] + Runs(memory.Live(), reserved.Live(), a', b')
  {
    ghost var m, r := memory.Live(), reserved.Live();
    hide Next, Runs, CursorAt;
    a', b' := StepUp(m, r, a, b, i, start, end);
    i', start', end' := NextMemRange(i, memory, reserved);
  }

  lemma UpEnds(m: seq<Region>, r: seq<Region>, a: nat, b: nat, i: nat, start: nat, end: nat)
    requires CursorAt(m, r, a, b, i, start, end) && i == ULLONG_MAX
    ensures Next(m, r, a, b) == Done
  {
    hide Next;
  }

  /** The runs seen so far and those still to come from (a, b) on are all runs. */
  ghost predicate Seen(m: seq<Region>, r: seq<Region>, a: nat, b: nat, runs: seq<Region>) {
    runs + Runs(m, r, a, b) == Runs(m, r, 0, 0)
  }

  lemma NothingSeen(m: seq<Region>, r: seq<Region>)
    ensures Seen(m, r, 0, 0, [])
  {
    hide Runs;
  }

  lemma SeenOneMore(m: seq<Region>, r: seq<Region>, a: nat, b: nat, a': nat, b': nat, runs: seq<Region>, run: Region)
    requires Seen(m, r, a, b, runs) && Runs(m, r, a, b) == [run] + Runs(m, r, a', b')
    ensures Seen(m, r, a', b', runs + [run])
  {
    hide Runs;
  }

  lemma WalkedUp(m: seq<Region>, r: seq<Region>, a: nat, b: nat, seen: seq<Region>)
    requires ArrayInv(m) && ArrayInv(r) && Next(m, r, a, b) == Done && Seen(m, r, a, b, seen)
    ensures IsFreeRuns(m, r, seen)
  {
    assert Runs(m, r, a, b) == [];
    assert seen + Runs(m, r, a, b) == seen;
    RunsAreFreeRuns(m, r);
  }

  /** for_each_free_mem_range: the runs in the order the loop body sees them. */
  method ForEachFreeRange(memory: MemblockType, reserved: MemblockType) returns (runs: seq<Region>)
    requires Usable(memory) && Usable(reserved)
    ensures IsFreeRuns(memory.Live(), reserved.Live(), runs)
  {
    ghost var m, r := memory.Live(), reserved.Live();
    hide Next, Runs, CursorAt, IsFreeRuns, Seen;
    runs := [];
    NothingSeen(m, r);
    ghost var a: nat, b: nat := 0, 0;
    var i, start, end := NextMemRange(0, memory, reserved);
    while i != ULLONG_MAX
      invariant a <= |m| && b <= |r| && CursorAt(m, r, a, b, i, start, end) && Seen(m, r, a, b, runs)
      decreases |m| + |r| - a - b
    {
      ghost var a0, b0 := a, b;
      var start0, end0 := start, end;
      i, start, end, a, b := StepForward(memory, reserved, i, start, end, a, b);
      SeenOneMore(m, r, a0, b0, a, b, runs, Region(start0, end0 - start0));
      runs := runs + [Region(start0, end0 - start0)];
    }
    UpEnds(m, r, a, b, i, start, end);
    WalkedUp(m, r, a, b, runs);
  }
}
