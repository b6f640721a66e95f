/** The reverse cursor over "memory minus reserved". */
module MemblockReverse {
  import opened Bits
  import opened Intervals
  import opened MemblockRegions
  import opened MemblockCursor

  /** The free run next below memory region a and gap b, and where to go on. */
  function Prev(m: seq<Region>, r: seq<Region>, a: int, b: int): Hit
    requires a < |m| && b <= |r|
    decreases a + 1, b + 1
  {
    if a < 0 then Done
    else if b < 0 then Prev(m, r, a - 1, b)
    else if GapEnd(r, b) <= m[a].base then Prev(m, r, a - 1, b)
    else if m[a].End > GapStart(r, b) then
      var after := if m[a].base >= GapStart(r, b) then (a - 1, b) else (a, b - 1);
      Hit(Max(m[a].base, GapStart(r, b)), Min(m[a].End, GapEnd(r, b)), after.0, after.1)
    else Prev(m, r, a, b - 1)
  }

  ghost predicate MemUpto(m: seq<Region>, a: int, x: nat) {
    exists i :: 0 <= i <= a && i < |m| && m[i].Has(x)
  }

  ghost predicate GapUpto(r: seq<Region>, b: int, x: nat) {
    exists j :: 0 <= j <= b && j <= |r| && InGap(r, j, x)
  }

  /** Address x is free and not yet passed by a reverse cursor at (a, b). */
  ghost predicate FreeUpto(m: seq<Region>, r: seq<Region>, a: int, b: int, x: nat) {
    MemUpto(m, a, x) && GapUpto(r, b, x)
  }

  lemma MemUptoStep(m: seq<Region>, a: nat, x: nat)
    requires a < |m|
    ensures MemUpto(m, a, x) <==> m[a].Has(x) || MemUpto(m, a - 1, x)
  {
  }

  lemma GapUptoStep(r: seq<Region>, b: nat, x: nat)
    requires b <= |r|
    ensures GapUpto(r, b, x) <==> InGap(r, b, x) || GapUpto(r, b - 1, x)
  {
  }

  lemma MemUptoBelow(m: seq<Region>, a: int, x: nat)
    requires ArrayInv(m) && a < |m| && MemUpto(m, a, x)
    ensures 0 <= a && x < m[a].End && (a + 1 < |m| ==> x + 1 < m[a + 1].base)
  {
  }

  lemma GapUptoBelow(r: seq<Region>, b: int, x: nat)
    requires ArrayInv(r) && b <= |r| && GapUpto(r, b, x)
    ensures 0 <= b && x < GapEnd(r, b)
    ensures b + 1 <= |r| && !IsDummy(r) ==> x + 1 < GapStart(r, b + 1)
  {
  }

  /** What one step of the reverse cursor finds, and that what is left lies strictly below it. */
  ghost predicate StepDown(m: seq<Region>, r: seq<Region>, a: int, b: int, h: Hit) {
    match h
    case Done => forall x: nat :: !FreeUpto(m, r, a, b, x)
    case Hit(start, end, a', b') =>
      && start < end && -1 <= a' <= a && 0 <= b' <= b && a' + b' < a + b
      && (forall x: nat :: FreeUpto(m, r, a, b, x) <==> start <= x < end || FreeUpto(m, r, a', b', x))
      && (forall x: nat :: FreeUpto(m, r, a', b', x) ==> x + 1 < start)
  }

  lemma {:induction false} PrevCorrect(m: seq<Region>, r: seq<Region>, a: int, b: int)
    requires ArrayInv(m) && ArrayInv(r) && -1 <= a < |m| && -1 <= b <= |r|
    ensures StepDown(m, r, a, b, Prev(m, r, a, b))
    decreases a + 1, b + 1
  {
    hide ArrayInv, FreeUpto;
    if 0 <= a {
      if b < 0 || GapEnd(r, b) <= m[a].base {
        SkipMemDown(m, r, a, b);
        PrevCorrect(m, r, a - 1, b);
      } else if m[a].End <= GapStart(r, b) {
        SkipGapDown(m, r, a, b);
        PrevCorrect(m, r, a, b - 1);
      } else {
        HitDown(m, r, a, b);
      }
    } else {
      NothingBelow(m, r, a, b);
    }
  }

  lemma NothingBelow(m: seq<Region>, r: seq<Region>, a: int, b: int)
    requires a < 0 && b <= |r|
    ensures forall x: nat :: !FreeUpto(m, r, a, b, x)
  {
  }

  lemma PrevBounds(m: seq<Region>, r: seq<Region>, a: int, b: int)
    requires ArrayInv(m) && ArrayInv(r) && -1 <= a < |m| && -1 <= b <= |r|
    ensures var h := Prev(m, r, a, b);
            h.Hit? ==> h.start < h.end && -1 <= h.a <= a && 0 <= h.b <= b && h.a + h.b < a + b
  {
    PrevCorrect(m, r, a, b);
  }

  lemma SkipMemDown(m: seq<Region>, r: seq<Region>, a: nat, b: int)
    requires ArrayInv(m) && ArrayInv(r) && a < |m| && b <= |r| && (0 <= b ==> GapEnd(r, b) <= m[a].base)
    ensures forall x: nat :: FreeUpto(m, r, a, b, x) <==> FreeUpto(m, r, a - 1, b, x)
  {
    forall x: nat ensures FreeUpto(m, r, a, b, x) <==> FreeUpto(m, r, a - 1, b, x) {
      MemUptoStep(m, a, x);
      if GapUpto(r, b, x) { GapUptoBelow(r, b, x); }
    }
  }

  lemma SkipGapDown(m: seq<Region>, r: seq<Region>, a: nat, b: nat)
    requires ArrayInv(m) && ArrayInv(r) && a < |m| && b <= |r| && m[a].End <= GapStart(r, b)
    ensures forall x: nat :: FreeUpto(m, r, a, b, x) <==> FreeUpto(m, r, a, b - 1, x)
  {
    forall x: nat ensures FreeUpto(m, r, a, b, x) <==> FreeUpto(m, r, a, b - 1, x) {
      GapUptoStep(r, b, x);
      if MemUpto(m, a, x) { MemUptoBelow(m, a, x); }
    }
  }

  lemma HitBelow(m: seq<Region>, r: seq<Region>, a: nat, b: nat, x: nat)
    requires ArrayInv(m) && ArrayInv(r) && a < |m| && b <= |r|
    requires GapStart(r, b) < m[a].End && m[a].base < GapEnd(r, b)
    ensures MemUpto(m, a - 1, x) ==> x + 1 < m[a].base
    ensures GapUpto(r, b - 1, x) ==> x + 1 < GapStart(r, b)
  {
    if MemUpto(m, a - 1, x) { MemUptoBelow(m, a - 1, x); }
    if GapUpto(r, b - 1, x) { GapUptoBelow(r, b - 1, x); }
  }

  lemma HitDown(m: seq<Region>, r: seq<Region>, a: nat, b: nat)
    requires ArrayInv(m) && ArrayInv(r) && a < |m| && b <= |r|
    requires GapStart(r, b) < m[a].End && m[a].base < GapEnd(r, b)
    ensures StepDown(m, r, a, b, Prev(m, r, a, b))
  {
    var h := Prev(m, r, a, b);
    HitNonEmpty(m, r, a, b);
    forall x: nat
      ensures FreeUpto(m, r, a, b, x) <==> h.start <= x < h.end || FreeUpto(m, r, h.a, h.b, x)
      ensures FreeUpto(m, r, h.a, h.b, x) ==> x + 1 < h.start
    {
      MemUptoStep(m, a, x);
      GapUptoStep(r, b, x);
      HitBelow(m, r, a, b, x);
    }
  }

  /** All free runs below memory region a and gap b, from the top down. */
  ghost function RunsBelow(m: seq<Region>, r: seq<Region>, a: int, b: int): seq<Region>
    requires a < |m| && b <= |r|
    decreases if a + b < -2 then 0 else a + b + 2
  {
    match Prev(m, r, a, b)
    case Done => []
    case Hit(s, e, a', b') =>
      if s < e && -1 <= a' < |m| && 0 <= b' <= |r| && a' + b' < a + b then
        [Region(s, e - s)] + RunsBelow(m, r, a', b')
      else []
  }

  /** Sorted from the top down, non-empty, no two overlapping or touching. */
  ghost predicate Descending(rs: seq<Region>) {
    && (forall i :: 0 <= i < |rs| ==> rs[i].size > 0)
    && (forall i, j :: 0 <= i < j < |rs| ==> rs[j].End < rs[i].base)
  }

  ghost predicate RunsDownOk(m: seq<Region>, r: seq<Region>, a: int, b: int, runs: seq<Region>) {
    Descending(runs) && forall x: nat :: In(runs, x) <==> FreeUpto(m, r, a, b, x)
  }

  lemma {:induction false} RunsDown(m: seq<Region>, r: seq<Region>, a: int, b: int)
    requires ArrayInv(m) && ArrayInv(r) && -1 <= a < |m| && -1 <= b <= |r|
    ensures RunsDownOk(m, r, a, b, RunsBelow(m, r, a, b))
    decreases a + b + 2
  {
    PrevCorrect(m, r, a, b);
    var h := Prev(m, r, a, b);
    if h.Hit? {
      RunsDown(m, r, h.a, h.b);
      ConsRunDown(m, r, a, b, h, RunsBelow(m, r, h.a, h.b));
    }
  }

  lemma ConsRunDown(m: seq<Region>, r: seq<Region>, a: int, b: int, h: Hit, rest: seq<Region>)
    requires h.Hit? && StepDown(m, r, a, b, h)
    requires RunsDownOk(m, r, h.a, h.b, rest)
    ensures RunsDownOk(m, r, a, b, [Region(h.start, h.end - h.start)] + rest)
  {
    var run := Region(h.start, h.end - h.start);
    forall i | 0 <= i < |rest| ensures rest[i].End < run.base {
      assert rest[i].Has(rest[i].End - 1);
      assert In(rest, rest[i].End - 1);
    }
    forall x: nat ensures In([run] + rest, x) <==> FreeUpto(m, r, a, b, x) { InCons(run, rest, x); }
  }

  lemma AvailableIsFreeUpto(m: seq<Region>, r: seq<Region>, x: nat)
    requires ArrayInv(m) && ArrayInv(r)
    ensures FreeUpto(m, r, |m| - 1, |r|, x) <==> Available(m, r, x)
  {
    AvailableIsFreeFrom(m, r, x);
    assert MemUpto(m, |m| - 1, x) <==> MemFrom(m, 0, x);
    assert GapUpto(r, |r|, x) <==> GapFrom(r, 0, x);
  }

  /** The indices a reverse call starts from. */
  function StartA(idx: nat, m: seq<Region>): int { if idx == ULLONG_MAX then |m| - 1 else IdxA(idx) }
  function StartB(idx: nat, r: seq<Region>): int { if idx == ULLONG_MAX then |r| else IdxB(idx) }

  /** The cursor and out-parameters after a reverse call made at (a, b). */
  ghost predicate CursorDown(m: seq<Region>, r: seq<Region>, a: int, b: int, i: nat, start: nat, end: nat)
    requires a < |m| && b <= |r|
  {
    match Prev(m, r, a, b)
    case Done => i == ULLONG_MAX
    case Hit(s, e, a', b') => Packed(i, a', b') && start == s && end == e
  }

  lemma DownEnds(m: seq<Region>, r: seq<Region>, a: int, b: int, i: nat, start: nat, end: nat)
    requires a < |m| && b <= |r| && CursorDown(m, r, a, b, i, start, end) && i == ULLONG_MAX
    ensures Prev(m, r, a, b) == Done
  {
    hide Prev;
  }

  /**
   __next_mem_range_rev: move the packed cursor down to the next free run.
   ULLONG_MAX starts the walk and signals its end, and no other result is ULLONG_MAX.
   */
  method NextMemRangeRev(idx: nat, memory: MemblockType, reserved: MemblockType)
    returns (idx': nat, start: nat, end: nat)
    requires Indexable(memory) && Indexable(reserved)
    requires -1 <= StartA(idx, memory.Live()) < memory.cnt && 0 <= StartB(idx, reserved.Live()) <= reserved.cnt
    ensures var m, r := memory.Live(), reserved.Live();
            CursorDown(m, r, StartA(idx, m), StartB(idx, r), idx', start, end)
  {
    ghost var m, r := memory.Live(), reserved.Live();
    ghost var hit := Prev(m, r, StartA(idx, m), StartB(idx, r));
    var a, b := IdxA(idx), IdxB(idx);
    if idx == ULLONG_MAX {
      a, b := memory.cnt - 1, reserved.cnt;
    }
    start, end := 0, 0;
    while a >= 0
      invariant -1 <= a < memory.cnt && -1 <= b <= reserved.cnt
      invariant Prev(m, r, a, b) == hit
    {
      var mStart, mEnd := memory.regions[a].base, memory.regions[a].base + memory.regions[a].size;
      var found, rStart, rEnd;
      found, b, rStart, rEnd := ScanGapsRev(reserved, b, mStart, mEnd, m, a);
      if found {
        start, end := Max(mStart, rStart), Min(mEnd, rEnd);
        if mStart >= rStart {
          a := a - 1;
        } else {
          b := b - 1;
        }
        UnpackPack(a, b);
        return Pack(a, b), start, end;
      }
      a := a - 1;
    }
    idx' := ULLONG_MAX;
  }

  /** The inner loop of __next_mem_range_rev: the first gap from b0 down that meets or passes [mStart, mEnd). */
  method ScanGapsRev(reserved: MemblockType, b0: int, mStart: nat, mEnd: nat, ghost m: seq<Region>, ghost a: nat)
    returns (found: bool, b: int, rStart: nat, rEnd: nat)
    requires reserved.Shaped() && -1 <= b0 <= reserved.cnt
    requires a < |m| && m[a].base == mStart && m[a].End == mEnd
    ensures -1 <= b <= b0 && Prev(m, reserved.Live(), a, b) == Prev(m, reserved.Live(), a, b0)
    ensures if found then
              && 0 <= b && rStart == GapStart(reserved.Live(), b) < mEnd
              && mStart < rEnd == GapEnd(reserved.Live(), b)
            else b < 0 || GapEnd(reserved.Live(), b) <= mStart
  {
    b, rStart, rEnd := b0, 0, 0;
    while b >= 0
      invariant -1 <= b <= b0 && Prev(m, reserved.Live(), a, b) == Prev(m, reserved.Live(), a, b0)
    {
      rStart := if b != 0 then reserved.regions[b - 1].base + reserved.regions[b - 1].size else 0;
      rEnd := if b < reserved.cnt then reserved.regions[b].base else PHYS_ADDR_MAX;
      if rEnd <= mStart {
        return false, b, rStart, rEnd;
      }
      if mEnd > rStart {
        return true, b, rStart, rEnd;
      }
      b := b - 1;
    }
    found := false;
  }

  /** The cursor that found a run leads to the runs below it. */
  lemma StepBack(m: seq<Region>, r: seq<Region>, a: int, b: int, i: nat, start: nat, end: nat)
    returns (a': int, b': int)
    requires ArrayInv(m) && ArrayInv(r) && -1 <= a < |m| && 0 <= b <= |r|
    requires CursorDown(m, r, a, b, i, start, end) && i != ULLONG_MAX
    ensures var h := Prev(m, r, a, b); h.Hit? && h.start == start && h.end == end && h.a == a' && h.b == b'
    ensures IdxA(i) == a' && IdxB(i) == b' && start < end && -1 <= a' <= a && 0 <= b' <= b && a' + b' < a + b
    ensures RunsBelow(m, r, a, b) == [Region(start, end - start)] + RunsBelow(m, r, a', b')
  {
    hide Prev, ArrayInv, IdxA, IdxB, Pack;
    PrevBounds(m, r, a, b);
    var h := Prev(m, r, a, b);
    a', b' := h.a, h.b;
    UnpackPack(a', b');
  }

  /** The reverse loop's step from one run to the next; (a, b) is where the call that found the run was made. */
  method StepReverse(memory: MemblockType, reserved: MemblockType, i: nat, start: nat, end: nat, ghost a: int,
                     ghost b: int)
    returns (i': nat, start': nat, end': nat, ghost a': int, ghost b': int)
    requires Usable(memory) && Usable(reserved) && i != ULLONG_MAX
    requires -1 <= a < memory.cnt && 0 <= b <= reserved.cnt
    requires CursorDown(memory.Live(), reserved.Live(), a, b, i, start, end)
    ensures a' == Prev(memory.Live(), reserved.Live(), a, b).a && b' == Prev(memory.Live(), reserved.Live(), a, b).b
    ensures -1 <= a' <= a && 0 <= b' <= b && a' + b' < a + b && start < end
    ensures CursorDown(memory.Live(), reserved.Live(), a', b', i', start', end')
    ensures RunsBelow(memory.Live(), reserved.Live(), a, b)
            == [Region(start, end - start)] + RunsBelow(memory.Live(), reserved.Live(), a', b')
  {
    ghost var m, r := memory.Live(), reserved.Live();
    hide Prev, RunsBelow, CursorDown;
    a', b' := StepBack(m, r, a, b, i, start, end);
    i', start', end' := NextMemRangeRev(i, memory, reserved);
  }

  /** The maximal runs of memory minus reserved, from the top down. */
  ghost predicate IsFreeRunsDown(m: seq<Region>, r: seq<Region>, runs: seq<Region>) {
    Descending(runs) && forall x: nat :: In(runs, x) <==> Available(m, r, x)
  }

  lemma RunsBelowAreFreeRuns(m: seq<Region>, r: seq<Region>)
    requires ArrayInv(m) && ArrayInv(r)
    ensures IsFreeRunsDown(m, r, RunsBelow(m, r, |m| - 1, |r|))
  {
    RunsDown(m, r, |m| - 1, |r|);
    forall x: nat ensures In(RunsBelow(m, r, |m| - 1, |r|), x) <==> Available(m, r, x) { AvailableIsFreeUpto(m, r, x); }
  }

  /** The runs seen so far and those still below (a, b) are all runs. */
  ghost predicate Seen(m: seq<Region>, r: seq<Region>, a: int, b: int, runs: seq<Region>)
    requires a < |m| && b <= |r|
  {
    runs + RunsBelow(m, r, a, b) == RunsBelow(m, r, |m| - 1, |r|)
  }

  lemma NothingSeen(m: seq<Region>, r: seq<Region>)
    ensures Seen(m, r, |m| - 1, |r|, [])
  {
    hide RunsBelow;
  }

  lemma SeenOneMore(m: seq<Region>, r: seq<Region>, a: int, b: int, a': int, b': int, runs: seq<Region>, run: Region)
    requires a < |m| && b <= |r| && a' < |m| && b' <= |r| && Seen(m, r, a, b, runs)
    requires RunsBelow(m, r, a, b) == [run] + RunsBelow(m, r, a', b')
    ensures Seen(m, r, a', b', runs + [run])
  {
    hide RunsBelow;
  }

  /** for_each_free_mem_range_reverse: the runs in the order the loop body sees them. */
  method ForEachFreeRangeReverse(memory: MemblockType, reserved: MemblockType) returns (runs: seq<Region>)
    requires Usable(memory) && Usable(reserved)
    ensures IsFreeRunsDown(memory.Live(), reserved.Live(), runs)
  {
    ghost var m, r := memory.Live(), reserved.Live();
    hide Prev, RunsBelow, CursorDown, IsFreeRunsDown, Seen;
    runs := [];
    NothingSeen(m, r);
    ghost var a, b := |m| - 1, |r|;
    var i, start, end := NextMemRangeRev(ULLONG_MAX, memory, reserved);
    while i != ULLONG_MAX
      invariant -1 <= a < |m| && 0 <= b <= |r| && CursorDown(m, r, a, b, i, start, end)
      invariant Seen(m, r, a, b, runs)
      decreases a + b + 1
    {
      ghost var a0, b0 := a, b;
      var start0, end0 := start, end;
      i, start, end, a, b := StepReverse(memory, reserved, i, start, end, a, b);
      SeenOneMore(m, r, a0, b0, a, b, runs, Region(start0, end0 - start0));
      runs := runs + [Region(start0, end0 - start0)];
    }
    DownEnds(m, r, a, b, i, start, end);
    WalkedDown(m, r, a, b, runs);
  }

  lemma WalkedDown(m: seq<Region>, r: seq<Region>, a: int, b: int, seen: seq<Region>)
    requires ArrayInv(m) && ArrayInv(r) && a < |m| && b <= |r| && Prev(m, r, a, b) == Done
    requires Seen(m, r, a, b, seen)
    ensures IsFreeRunsDown(m, r, seen)
  {
    assert RunsBelow(m, r, a, b) == [];
    assert seen + RunsBelow(m, r, a, b) == seen;
    RunsBelowAreFreeRuns(m, r);
  }

  function Reversed(s: seq<Region>): seq<Region> {
    seq(|s|, i requires 0 <= i < |s| => s[|s| - 1 - i])
  }

  /** Both walks see the same runs, in opposite orders. */
  lemma WalksAgree(m: seq<Region>, r: seq<Region>, up: seq<Region>, down: seq<Region>)
    requires IsFreeRuns(m, r, up) && IsFreeRunsDown(m, r, down)
    ensures up == Reversed(down)
  {
    var s := Reversed(down);
    forall x: nat ensures In(s, x) <==> In(down, x) {
      if In(down, x) {
        var i :| 0 <= i < |down| && down[i].Has(x);
        assert s[|down| - 1 - i].Has(x);
      }
    }
    SeparatedUnique(up, s);
  }
}
