/** Top-down allocation from "memory minus reserved", and whole runs of allocations. */
module MemblockAlloc {
  import opened Bits
  import opened Intervals
  import opened MemblockRegions
  import opened MemblockCursor
  import opened MemblockReverse

  const SMP_CACHE_BYTES: nat := 64

  ghost predicate IsPow2(a: nat) {
    exists k: nat :: k < 64 && a == Pow2(k)
  }

  /** x & ~(align - 1) on 64-bit values. */
  function RoundDown(x: nat, align: nat): nat
    requires align <= TWO64
  {
    And(x, TWO64 - align)
  }

  lemma RoundDownIs(x: nat, align: nat)
    requires IsPow2(align) && x < TWO64
    ensures 0 < align <= TWO64 && RoundDown(x, align) == x - x % align
  {
    var k :| k < 64 && align == Pow2(k);
    PowersOfTwo();
    AndHighMask(x, 64, k);
  }

  /** The greatest multiple of align at or below x. */
  lemma RoundDownGreatest(x: nat, align: nat, c: nat)
    requires align > 0 && c % align == 0 && c <= x
    ensures c <= x - x % align && (x - x % align) % align == 0
  {
    var q, p := c / align, x / align;
    MulMonotone(p + 1, q, align);
    MulMonotone(q, p, align);
    assert (p + 1) * align == p * align + align;
    DivModUnique(x - x % align, align, p, 0);
  }

  ghost predicate AllAvailable(m: seq<Region>, r: seq<Region>, lo: nat, hi: nat) {
    forall x: nat :: lo <= x < hi ==> Available(m, r, x)
  }

  /** [c, c + size) is aligned, within [lo, hi), in memory and not reserved. */
  ghost predicate Fits(m: seq<Region>, r: seq<Region>, c: nat, size: nat, align: nat, lo: nat, hi: nat) {
    align > 0 && c % align == 0 && lo <= c && c + size <= hi && AllAvailable(m, r, c, c + size)
  }

  /** Not yet passed by a reverse cursor at (a, b). */
  ghost predicate Pending(m: seq<Region>, r: seq<Region>, a: int, b: int, lo: nat, hi: nat) {
    forall x: nat :: lo <= x < hi ==> FreeUpto(m, r, a, b, x)
  }

  /** A stretch not yet passed lies inside the next run or is still not passed after it. */
  lemma InRunOrBelow(m: seq<Region>, r: seq<Region>, a: int, b: int, h: Hit, lo: nat, hi: nat)
    requires h.Hit? && StepDown(m, r, a, b, h) && lo < hi && Pending(m, r, a, b, lo, hi)
    ensures (h.start <= lo && hi <= h.end) || Pending(m, r, h.a, h.b, lo, hi)
  {
    if h.start <= lo {
      assert FreeUpto(m, r, a, b, hi - 1);
    } else {
      assert !FreeUpto(m, r, a, b, h.start - 1);
    }
  }

  lemma RunAvailable(m: seq<Region>, r: seq<Region>, a: int, b: int, h: Hit)
    requires ArrayInv(m) && ArrayInv(r) && a < |m| && b <= |r| && h.Hit? && StepDown(m, r, a, b, h)
    ensures AllAvailable(m, r, h.start, h.end)
  {
    forall x: nat | h.start <= x < h.end ensures Available(m, r, x) {
      assert FreeUpto(m, r, a, b, x);
      AvailableIsFreeUpto(m, r, x);
    }
  }

  function Clamp(v: nat, lo: nat, hi: nat): nat { Min(Max(v, lo), hi) }

  /** What the loop body decides about the run [start, end): the base to return, or 0 to go on. */
  function Candidate(start: nat, end: nat, lo: nat, hi: nat, size: nat, align: nat): nat
    requires align <= TWO64
  {
    var thisStart, thisEnd := Clamp(start, lo, hi), Clamp(end, lo, hi);
    if thisEnd < size then 0
    else if RoundDown(thisEnd - size, align) >= thisStart then RoundDown(thisEnd - size, align) else 0
  }

  /** Within one run the candidate is the greatest aligned base that fits, or 0 if none does. */
  lemma CandidateGreatest(start: nat, end: nat, lo: nat, hi: nat, size: nat, align: nat)
    requires start < end && 0 < lo <= hi < TWO64 && size > 0 && IsPow2(align)
    ensures 0 < align <= TWO64
    ensures var c := Candidate(start, end, lo, hi, size, align);
            && (c != 0 ==> c % align == 0 && lo <= c && c + size <= hi && start <= c && c + size <= end)
            && (forall d: nat :: d % align == 0 && lo <= d && d + size <= hi && start <= d && d + size <= end ==>
                  c != 0 && d <= c)
  {
    var thisEnd := Clamp(end, lo, hi);
    if thisEnd >= size {
      RoundDownIs(thisEnd - size, align);
      RoundDownGreatest(thisEnd - size, align, 0);
      forall d: nat | d % align == 0 && d <= thisEnd - size ensures d <= RoundDown(thisEnd - size, align) {
        RoundDownGreatest(thisEnd - size, align, d);
      }
    } else {
      RoundDownIs(0, align);
    }
  }

  /** No base that fits has been passed by a reverse cursor at (a, b). */
  ghost predicate NonePassed(m: seq<Region>, r: seq<Region>, a: int, b: int,
                             size: nat, align: nat, lo: nat, hi: nat) {
    forall c: nat :: Fits(m, r, c, size, align, lo, hi) ==> Pending(m, r, a, b, c, c + size)
  }

  lemma NonePassedAtStart(m: seq<Region>, r: seq<Region>, size: nat, align: nat, lo: nat, hi: nat)
    requires ArrayInv(m) && ArrayInv(r)
    ensures NonePassed(m, r, |m| - 1, |r|, size, align, lo, hi)
  {
    var last := |m| - 1;
    forall c: nat | Fits(m, r, c, size, align, lo, hi) ensures Pending(m, r, last, |r|, c, c + size) {
      forall x: nat | c <= x < c + size ensures FreeUpto(m, r, last, |r|, x) { AvailableIsFreeUpto(m, r, x); }
    }
  }

  /** One round of the search: the run's candidate is the answer, or nothing that fits is lost by going on. */
  lemma SearchStep(m: seq<Region>, r: seq<Region>, a: int, b: int, h: Hit, size: nat, align: nat, lo: nat, hi: nat)
    requires ArrayInv(m) && ArrayInv(r) && a < |m| && b <= |r| && h.Hit? && StepDown(m, r, a, b, h)
    requires 0 < lo <= hi < TWO64 && size > 0 && IsPow2(align) && NonePassed(m, r, a, b, size, align, lo, hi)
    ensures 0 < align <= TWO64
    ensures var c := Candidate(h.start, h.end, lo, hi, size, align);
            if c != 0 then
              Fits(m, r, c, size, align, lo, hi) && forall d: nat :: Fits(m, r, d, size, align, lo, hi) ==> d <= c
            else NonePassed(m, r, h.a, h.b, size, align, lo, hi)
  {
    CandidateGreatest(h.start, h.end, lo, hi, size, align);
    RunAvailable(m, r, a, b, h);
    var c := Candidate(h.start, h.end, lo, hi, size, align);
    forall d: nat | Fits(m, r, d, size, align, lo, hi)
      ensures if c != 0 then d <= c else Pending(m, r, h.a, h.b, d, d + size)
    {
      InRunOrBelow(m, r, a, b, h, d, d + size);
      if Pending(m, r, h.a, h.b, d, d + size) { assert FreeUpto(m, r, h.a, h.b, d); }
    }
  }

  lemma SearchEnd(m: seq<Region>, r: seq<Region>, a: int, b: int, size: nat, align: nat, lo: nat, hi: nat)
    requires StepDown(m, r, a, b, Done) && size > 0 && NonePassed(m, r, a, b, size, align, lo, hi)
    ensures forall c: nat :: !Fits(m, r, c, size, align, lo, hi)
  {
    forall c: nat ensures !Fits(m, r, c, size, align, lo, hi) {
      assert Fits(m, r, c, size, align, lo, hi) ==> FreeUpto(m, r, a, b, c);
    }
  }

  /**
   __memblock_find_range_top_down: the greatest aligned base in [lo, hi) whose
   range is in memory and not reserved, and 0 exactly when there is none.
   */
  method FindRangeTopDown(memory: MemblockType, reserved: MemblockType, lo: nat, hi: nat, size: nat, align: nat)
    returns (found: nat)
    requires Usable(memory) && Usable(reserved) && 0 < lo <= hi <= PHYS_ADDR_MAX && IsPow2(align) && align <= TWO64
    ensures size > 0 && found != 0 ==>
              && Fits(memory.Live(), reserved.Live(), found, size, align, lo, hi)
              && forall c: nat :: Fits(memory.Live(), reserved.Live(), c, size, align, lo, hi) ==> c <= found
    ensures size > 0 && found == 0 ==> forall c: nat :: !Fits(memory.Live(), reserved.Live(), c, size, align, lo, hi)
  {
    ghost var m, r := memory.Live(), reserved.Live();
    hide Prev, CursorDown, StepDown, NonePassed, Fits, IsPow2, Candidate;
    ghost var a, b := |m| - 1, |r|;
    NonePassedAtStart(m, r, size, align, lo, hi);
    var i, start, end := NextMemRangeRev(ULLONG_MAX, memory, reserved);
    while i != ULLONG_MAX
      invariant -1 <= a < |m| && 0 <= b <= |r| && CursorDown(m, r, a, b, i, start, end)
      invariant size > 0 ==> NonePassed(m, r, a, b, size, align, lo, hi)
      decreases a + b + 1
    {
      PrevCorrect(m, r, a, b);
      ghost var lowerA, lowerB := StepBack(m, r, a, b, i, start, end);
      if size > 0 { SearchStep(m, r, a, b, Prev(m, r, a, b), size, align, lo, hi); }
      var cand := ExamineRun(start, end, lo, hi, size, align);
      if cand != 0 {
        return cand;
      }
      i, start, end, a, b := StepReverse(memory, reserved, i, start, end, a, b);
    }
    PrevCorrect(m, r, a, b);
    DownEnds(m, r, a, b, i, start, end);
    if size > 0 { SearchEnd(m, r, a, b, size, align, lo, hi); }
    found := 0;
  }

  /** The loop body of the search on one run. */
  method ExamineRun(start: nat, end: nat, lo: nat, hi: nat, size: nat, align: nat) returns (cand: nat)
    requires align <= TWO64
    ensures cand == Candidate(start, end, lo, hi, size, align)
  {
    var thisStart, thisEnd := Clamp(start, lo, hi), Clamp(end, lo, hi);
    if thisEnd < size {
      return 0;
    }
    cand := RoundDown(thisEnd - size, align);
    if cand < thisStart {
      cand := 0;
    }
  }

  datatype AllocResult = NoMemory | Got(base: nat) | Panic

  /** The two arrays as values. */
  datatype Arrays = Arrays(memory: seq<Region>, reserved: seq<Region>)

  /** rs' holds what rs holds and [lo, hi). */
  ghost predicate Grown(rs: seq<Region>, rs': seq<Region>, lo: nat, hi: nat) {
    ArrayInv(rs') && forall x: nat :: In(rs', x) <==> In(rs, x) || lo <= x < hi
  }

  /** base is the greatest aligned address at or above the first page whose range is free. */
  ghost predicate Greatest(s: Arrays, size: nat, align: nat, base: nat) {
    && Fits(s.memory, s.reserved, base, size, align, PAGE_SIZE, PHYS_ADDR_MAX)
    && forall c: nat :: Fits(s.memory, s.reserved, c, size, align, PAGE_SIZE, PHYS_ADDR_MAX) ==> c <= base
  }

  /** An array of max entries has no room for the pieces of [lo, hi) that it does not hold yet. */
  ghost predicate NoRoom(rs: seq<Region>, max: nat, lo: nat, hi: nat) {
    lo < hi && !IsDummy(rs) && |rs| + GapCount(rs, lo, hi) > max
  }

  /** What an allocation that yields base does. */
  ghost predicate Allocated(s: Arrays, size: nat, align: nat, base: nat, s': Arrays) {
    s'.memory == s.memory && Greatest(s, size, align, base) && Grown(s.reserved, s'.reserved, base, base + size)
  }

  /** The alignment asked for, 0 standing for that of a cache line. */
  function Effective(align: nat): nat { if align == 0 then SMP_CACHE_BYTES else align }

  class Memblock {
    const memory: MemblockType
    const reserved: MemblockType
    var stopped: bool

    ghost predicate Valid()
      reads this, memory, memory.regions, reserved, reserved.regions
    {
      && memory != reserved && memory.regions != reserved.regions
      && Usable(memory) && Usable(reserved)
      && memory.max < TWO32 / 2 - 1 && reserved.max < TWO32 / 2 - 1
    }

    ghost function State(): Arrays
      requires memory.Shaped() && reserved.Shaped()
      reads memory, memory.regions, reserved, reserved.regions
    {
      Arrays(memory.Live(), reserved.Live())
    }

    /** Both arrays hold a single empty entry and have room for 128 regions. */
    constructor ()
      ensures Valid() && !stopped && fresh(memory) && fresh(reserved) && fresh(memory.regions)
              && fresh(reserved.regions)
      ensures forall x :: !In(memory.Live(), x) && !In(reserved.Live(), x)
    {
      memory := new MemblockType(128);
      reserved := new MemblockType(128);
      stopped := false;
    }

    /** memblock_add; false where the source panics on a full array. */
    method Add(base: nat, size: nat) returns (ok: bool)
      requires Valid() && base <= PHYS_ADDR_MAX && size <= PHYS_ADDR_MAX
      modifies memory, memory.regions
      ensures Valid() && reserved.Live() == old(reserved.Live())
      ensures ok <==> !NoRoom(old(memory.Live()), memory.max, base, CapEnd(base, size))
      ensures if ok then Grown(old(memory.Live()), memory.Live(), base, CapEnd(base, size))
              else memory.Live() == old(memory.Live())
    {
      ok := memory.AddRange(base, size);
    }

    /** memblock_reserve; false where the source panics on a full array. */
    method Reserve(base: nat, size: nat) returns (ok: bool)
      requires Valid() && base <= PHYS_ADDR_MAX && size <= PHYS_ADDR_MAX
      modifies reserved, reserved.regions
      ensures Valid() && memory.Live() == old(memory.Live())
      ensures ok <==> !NoRoom(old(reserved.Live()), reserved.max, base, CapEnd(base, size))
      ensures if ok then Grown(old(reserved.Live()), reserved.Live(), base, CapEnd(base, size))
              else reserved.Live() == old(reserved.Live())
    {
      ok := reserved.AddRange(base, size);
    }

    /** memblock_alloc_range_nid with a power-of-two alignment, or 0 for the cache line size. */
    method AllocRange(size: nat, align: nat) returns (res: AllocResult)
      requires Valid() && 0 < size <= PHYS_ADDR_MAX && (align == 0 || IsPow2(align)) && align <= TWO64
      modifies reserved, reserved.regions
      ensures Valid()
      ensures var s, eff := old(State()), Effective(align);
              && (res == NoMemory <==>
                   !stopped && forall c: nat :: !Fits(s.memory, s.reserved, c, size, eff, PAGE_SIZE, PHYS_ADDR_MAX))
              && (res == Panic <==>
                   stopped || exists c: nat ::
                     Greatest(s, size, eff, c) && NoRoom(s.reserved, reserved.max, c, c + size))
              && if res.Got? then Allocated(s, size, eff, res.base, State()) else State() == s
    {
      if stopped {
        return Panic;
      }
      var eff := Effective(align);
      CacheLineIsPow2();
      var found := FindRangeTopDown(memory, reserved, PAGE_SIZE, PHYS_ADDR_MAX, size, eff);
      if found == 0 {
        return NoMemory;
      }
      assert Greatest(State(), size, eff, found);
      assert forall c: nat :: Greatest(State(), size, eff, c) ==> c == found;
      var ok := Reserve(found, size);
      res := if ok then Got(found) else Panic;
    }

    /** One request; not ok where the source panics. */
    method Serve(q: Request) returns (ok: bool, e: Event)
      requires Valid() && ValidRequest(q)
      modifies memory, memory.regions, reserved, reserved.regions
      ensures Valid()
      ensures if ok then Answers(q, e) && Step(old(State()), e, State()) else State() == old(State())
    {
      hide Valid, In, Grown, NoRoom, Greatest, Fits, IsPow2, CapEnd;
      match q
      case AddMemory(base, size) =>
        ok := Add(base, size);
        e := Event.Add(base, size);
      case ReserveRange(base, size) =>
        ok := Reserve(base, size);
        e := Event.Reserve(base, size);
      case Allocate(size, align) =>
        var res := AllocRange(size, align);
        ok := res != Panic;
        e := if res.Got? then Event.Alloc(res.base, size, Effective(align)) else Event.Refuse(size, Effective(align));
    }

    /** Any sequence of requests, up to the first panic: the arrays go through a boot, and no address is handed out
        twice. */
    method Boot(requests: seq<Request>) returns (panicked: bool, events: seq<Event>, ghost states: seq<Arrays>)
      requires Valid() && forall i :: 0 <= i < |requests| ==> ValidRequest(requests[i])
      modifies memory, memory.regions, reserved, reserved.regions
      ensures Valid() && |events| <= |requests| && (panicked <==> |events| < |requests|)
      ensures forall i :: 0 <= i < |events| ==> Answers(requests[i], events[i])
      ensures IsBoot(states, events) && states[0] == old(State()) && states[|events|] == State()
      ensures forall i, j, x: nat :: 0 <= i < j < |events| && Holds(events[i], x) ==> !Holds(events[j], x)
    {
      hide ArrayInv, Sum, ValidRequest, Answers, Step, Holds;
      events, states := [], [State()];
      panicked := false;
      while |events| < |requests|
        invariant Valid() && |events| <= |requests| && IsBoot(states, events)
        invariant states[0] == old(State()) && states[|events|] == State()
        invariant forall i :: 0 <= i < |events| ==> Answers(requests[i], events[i])
        decreases |requests| - |events|
      {
        var ok, e := Serve(requests[|events|]);
        if !ok {
          panicked := true;
          break;
        }
        BootGoesOn(states, events, e, State());
        events, states := events + [e], states + [State()];
      }
      forall i, j, x: nat | 0 <= i < j < |events| && Holds(events[i], x) ensures !Holds(events[j], x) {
        HandedOnce(states, events, i, j, x);
      }
    }
  }

  lemma BootGoesOn(states: seq<Arrays>, events: seq<Event>, e: Event, s: Arrays)
    requires IsBoot(states, events) && Step(states[|events|], e, s)
    ensures IsBoot(states + [s], events + [e])
  {
    hide Step;
  }

  lemma CacheLineIsPow2()
    ensures IsPow2(SMP_CACHE_BYTES)
  {
    assert Pow2(6) == SMP_CACHE_BYTES;
  }

  // Whole boots: any interleaving of add, reserve and alloc.

  /** What is asked for, and what has happened: a request that could not be served leaves both arrays alone. */
  datatype Request =
    | AddMemory(base: nat, size: nat)
    | ReserveRange(base: nat, size: nat)
    | Allocate(size: nat, align: nat)
  datatype Event =
    | Add(base: nat, size: nat)
    | Reserve(base: nat, size: nat)
    | Alloc(base: nat, size: nat, align: nat)
    | Refuse(size: nat, align: nat)

  ghost predicate Step(s: Arrays, e: Event, s': Arrays) {
    match e
    case Add(base, size) =>
      base <= PHYS_ADDR_MAX && s'.reserved == s.reserved && Grown(s.memory, s'.memory, base, CapEnd(base, size))
    case Reserve(base, size) =>
      base <= PHYS_ADDR_MAX && s'.memory == s.memory && Grown(s.reserved, s'.reserved, base, CapEnd(base, size))
    case Alloc(base, size, align) => Allocated(s, size, align, base, s')
    case Refuse(size, align) =>
      s' == s && forall c: nat :: !Fits(s.memory, s.reserved, c, size, align, PAGE_SIZE, PHYS_ADDR_MAX)
  }

  ghost predicate ValidRequest(q: Request) {
    match q
    case Allocate(size, align) => 0 < size <= PHYS_ADDR_MAX && (align == 0 || IsPow2(align)) && align <= TWO64
    case _ => q.base <= PHYS_ADDR_MAX && q.size <= PHYS_ADDR_MAX
  }

  /** The event is an answer to the request. */
  predicate Answers(q: Request, e: Event) {
    match q
    case AddMemory(base, size) => e == Event.Add(base, size)
    case ReserveRange(base, size) => e == Event.Reserve(base, size)
    case Allocate(size, align) => (e.Alloc? || e.Refuse?) && e.size == size && e.align == Effective(align)
  }

  /** states[0] --events[0]--> states[1] --events[1]--> ... */
  ghost predicate IsBoot(states: seq<Arrays>, events: seq<Event>) {
    |states| == |events| + 1 && forall i :: 0 <= i < |events| ==> Step(states[i], events[i], states[i + 1])
  }

  lemma {:induction false} OnlyGrows(states: seq<Arrays>, events: seq<Event>, i: nat, j: nat, x: nat)
    requires IsBoot(states, events) && i <= j < |states|
    ensures In(states[i].memory, x) ==> In(states[j].memory, x)
    ensures In(states[i].reserved, x) ==> In(states[j].reserved, x)
    decreases j - i
  {
    if i < j {
      assert Step(states[i], events[i], states[i + 1]);
      OnlyGrows(states, events, i + 1, j, x);
    }
  }

  /** No two allocations of a boot share an address, whatever is added and reserved in between. */
  lemma AllocationsDisjoint(states: seq<Arrays>, events: seq<Event>, i: nat, j: nat, x: nat)
    requires IsBoot(states, events) && i < j < |events| && events[i].Alloc? && events[j].Alloc?
    ensures !(events[i].base <= x < events[i].base + events[i].size
              && events[j].base <= x < events[j].base + events[j].size)
  {
    assert Step(states[i], events[i], states[i + 1]) && Step(states[j], events[j], states[j + 1]);
    OnlyGrows(states, events, i + 1, j, x);
    assert events[j].base <= x < events[j].base + events[j].size ==> Available(states[j].memory, states[j].reserved, x);
  }

  /** An allocation of x. */
  predicate Holds(e: Event, x: nat) { e.Alloc? && e.base <= x < e.base + e.size }

  lemma HandedOnce(states: seq<Arrays>, events: seq<Event>, i: nat, j: nat, x: nat)
    requires IsBoot(states, events) && i < j < |events| && Holds(events[i], x)
    ensures !Holds(events[j], x)
  {
    if events[j].Alloc? {
      AllocationsDisjoint(states, events, i, j, x);
    }
  }

  /** Every allocation lies in memory, was not reserved before, and stays reserved to the end. */
  lemma AllocationsOwned(states: seq<Arrays>, events: seq<Event>, i: nat, x: nat)
    requires IsBoot(states, events) && i < |events| && events[i].Alloc?
    requires events[i].base <= x < events[i].base + events[i].size
    ensures forall k :: 0 <= k <= i ==> !In(states[k].reserved, x)
    ensures forall k :: i < k < |states| ==> In(states[k].memory, x) && In(states[k].reserved, x)
  {
    assert Step(states[i], events[i], states[i + 1]);
    assert Available(states[i].memory, states[i].reserved, x);
    forall k | 0 <= k <= i ensures !In(states[k].reserved, x) { OnlyGrows(states, events, k, i, x); }
    forall k | i < k < |states| ensures In(states[k].memory, x) && In(states[k].reserved, x) {
      OnlyGrows(states, events, i + 1, k, x);
    }
  }
}
