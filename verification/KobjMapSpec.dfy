/** Device-number ranges: the flat list of registrations that kobj_map's buckets speed up. */
module KobjMapSpec {
  import opened Wrappers
  import opened Bits

  const MINORS: nat := 0x10_0000
  const BUCKETS: nat := 255

  /** A registration: the device numbers from dev on, range of them, answered by one probe. */
  datatype Reg = Reg(dev: nat, range: nat, probe: nat)

  predicate Widths(r: Reg) { r.dev < TWO32 && r.range < TWO64 }

  function Major(x: nat): nat { x / MINORS }

  /** dev + range - 1 in 64 bits. */
  function LastDev(r: Reg): nat { (r.dev + r.range - 1) % TWO64 }

  predicate Covers(r: Reg, d: nat) { r.dev <= d && d <= LastDev(r) }

  /** For ranges that are not empty and do not run past 2^64, this is the interval one expects. */
  lemma CoversInterval(r: Reg, d: nat)
    requires Widths(r) && 0 < r.range && r.dev + r.range <= TWO64
    ensures Covers(r, d) <==> r.dev <= d < r.dev + r.range
  {
  }

  /** How many buckets a registration goes into: computed in 32 bits, then capped. */
  function Spread(r: Reg): nat {
    var n := (Major(LastDev(r)) % TWO32 - Major(r.dev) + 1) % TWO32;
    if n > BUCKETS then BUCKETS else n
  }

  /** The buckets of a registration are Spread many, from its first major on, around the table. */
  predicate InBucket(r: Reg, b: nat) { (b - Major(r.dev)) % BUCKETS < Spread(r) }

  function Bucket(d: nat): nat { Major(d) % BUCKETS }

  /** The registration is in the bucket of every device number it covers. */
  ghost predicate Reaches(r: Reg) {
    forall d :: 0 <= d < TWO32 && Covers(r, d) ==> InBucket(r, Bucket(d))
  }

  /** How many majors the device numbers it covers have. */
  function MajorsCovered(r: Reg): nat {
    var last := if LastDev(r) < TWO32 then LastDev(r) else TWO32 - 1;
    if last < r.dev then 0 else Major(last) - Major(r.dev) + 1
  }

  /** It reaches them all exactly when the 32-bit bucket count did not come out too small. */
  lemma ReachesExactly(r: Reg)
    requires Widths(r)
    ensures Reaches(r) <==> Spread(r) >= MajorsCovered(r) || Spread(r) == BUCKETS
  {
    var last := if LastDev(r) < TWO32 then LastDev(r) else TWO32 - 1;
    if Spread(r) < MajorsCovered(r) && Spread(r) < BUCKETS {
      // The first device number of the first major left out, or the registration's own first number.
      var m := Major(r.dev) + Spread(r);
      var d := if Spread(r) == 0 then r.dev else m * MINORS;
      MissedMajor(r, d, last);
      assert !InBucket(r, Bucket(d));
    } else {
      forall d | 0 <= d < TWO32 && Covers(r, d) ensures InBucket(r, Bucket(d)) {
        ReachedMajor(r, d, last);
      }
    }
  }

  lemma MissedMajor(r: Reg, d: nat, last: nat)
    requires Widths(r) && r.dev <= last <= LastDev(r) && last < TWO32 && Spread(r) < BUCKETS
    requires Spread(r) < Major(last) - Major(r.dev) + 1
    requires d == if Spread(r) == 0 then r.dev else (Major(r.dev) + Spread(r)) * MINORS
    ensures d < TWO32 && Covers(r, d) && !InBucket(r, Bucket(d))
  {
    hide Spread, LastDev;
    assert Major(d) == Major(r.dev) + Spread(r);
    BucketOffset(Major(r.dev), Spread(r));
  }

  lemma ReachedMajor(r: Reg, d: nat, last: nat)
    requires Widths(r) && d < TWO32 && Covers(r, d) && last == (if LastDev(r) < TWO32 then LastDev(r) else TWO32 - 1)
    requires Spread(r) >= MajorsCovered(r) || Spread(r) == BUCKETS
    ensures InBucket(r, Bucket(d))
  {
    hide Spread, LastDev;
    var k := Major(d) - Major(r.dev);
    assert 0 <= k <= Major(last) - Major(r.dev);
    BucketOffset(Major(r.dev), k);
  }

  lemma BucketOffset(m: nat, k: nat)
    ensures ((m + k) % BUCKETS - m) % BUCKETS == k % BUCKETS && k % BUCKETS <= k
  {
  }

  lemma MajorsBelow(d: nat, last: nat)
    requires d <= last < 0x10_0000_0000_0000 - MINORS
    ensures Major(d) <= Major(last) < TWO32 - 1
  {
  }

  /** Every range that is not empty and ends below 2^52 - 2^20 is reached. */
  lemma OrdinaryRangesReach(r: Reg)
    requires Widths(r) && 0 < r.range && r.dev + r.range <= 0x10_0000_0000_0000 - MINORS
    ensures Reaches(r)
  {
    hide Reaches, Major;
    var last := LastDev(r);
    assert last == r.dev + r.range - 1;
    hide LastDev;
    MajorsBelow(r.dev, last);
    MajorsBelow(Min(last, TWO32 - 1), last);
    ReachesExactly(r);
  }

  /** A range of 2^52 numbers from 0 covers every device but lands in no bucket. */
  lemma HugeRangeUnreached(probe: nat, d: nat, b: nat)
    requires d < TWO32
    ensures var r := Reg(0, 0x10_0000_0000_0000, probe); Widths(r) && Covers(r, d) && !InBucket(r, b) && !Reaches(r)
  {
    var r := Reg(0, 0x10_0000_0000_0000, probe);
    assert Spread(r) == 0;
    assert Covers(r, 0) && !InBucket(r, Bucket(0));
  }

  /** So does the empty range from 0, whose last number wraps around. */
  lemma EmptyRangeUnreached(probe: nat, d: nat, b: nat)
    requires d < TWO32
    ensures var r := Reg(0, 0, probe); Widths(r) && Covers(r, d) && !InBucket(r, b)
  {
    assert Spread(Reg(0, 0, probe)) == 0;
  }

  /** Into a list sorted by range, before the first range that is not smaller. */
  function Insert(l: seq<Reg>, r: Reg): seq<Reg> {
    if l == [] || l[0].range >= r.range then [r] + l else [l[0]] + Insert(l[1..], r)
  }

  /** What a bucket holds after the registrations of regs, the newest of them first in regs. */
  function BucketOf(regs: seq<Reg>, base: Reg, b: nat): seq<Reg> {
    if regs == [] then [base]
    else
      var rest := BucketOf(regs[1..], base, b);
      if InBucket(regs[0], b) then Insert(rest, regs[0]) else rest
  }

  function FirstCovering(l: seq<Reg>, d: nat): Option<Reg> {
    if l == [] then None else if Covers(l[0], d) then Some(l[0]) else FirstCovering(l[1..], d)
  }

  /** The narrowest registration that covers d; the newest of them when there are several. */
  function Narrowest(regs: seq<Reg>, base: Reg, d: nat): Option<Reg> {
    if regs == [] then if Covers(base, d) then Some(base) else None
    else
      var rest := Narrowest(regs[1..], base, d);
      if Covers(regs[0], d) && (rest == None || regs[0].range <= rest.value.range) then Some(regs[0]) else rest
  }

  predicate Sorted(l: seq<Reg>) { forall i, j :: 0 <= i < j < |l| ==> l[i].range <= l[j].range }

  lemma {:induction false} InsertHas(l: seq<Reg>, r: Reg)
    ensures forall x :: x in Insert(l, r) <==> x == r || x in l
  {
    if l == [] || l[0].range >= r.range {
    } else {
      InsertHas(l[1..], r);
      assert l == [l[0]] + l[1..];
    }
  }

  lemma {:induction false} InsertSorted(l: seq<Reg>, r: Reg)
    requires Sorted(l)
    ensures Sorted(Insert(l, r))
  {
    if l == [] || l[0].range >= r.range {
    } else {
      var rest := Insert(l[1..], r);
      InsertSorted(l[1..], r);
      InsertHas(l[1..], r);
      forall x | x in rest ensures l[0].range <= x.range {
      }
      SortedCons(l[0], rest);
    }
  }

  lemma SortedCons(x: Reg, l: seq<Reg>)
    requires Sorted(l) && forall y :: y in l ==> x.range <= y.range
    ensures Sorted([x] + l)
  {
  }

  lemma {:induction false} FirstIsNarrow(l: seq<Reg>, d: nat)
    requires Sorted(l) && l != []
    ensures FirstCovering(l, d).Some? ==> l[0].range <= FirstCovering(l, d).value.range
  {
    if !Covers(l[0], d) && |l| > 1 {
      FirstIsNarrow(l[1..], d);
    }
  }

  /** A new registration is met first if it covers d and nothing narrower does. */
  lemma {:induction false} FirstAfterInsert(l: seq<Reg>, r: Reg, d: nat)
    requires Sorted(l)
    ensures var first := FirstCovering(l, d);
            FirstCovering(Insert(l, r), d) ==
              if Covers(r, d) && (first == None || r.range <= first.value.range) then Some(r) else first
  {
    if l == [] {
    } else if l[0].range >= r.range {
      FirstIsNarrow(l, d);
      assert ([r] + l)[1..] == l;
    } else {
      FirstAfterInsert(l[1..], r, d);
      assert ([l[0]] + Insert(l[1..], r))[1..] == Insert(l[1..], r);
    }
  }

  lemma {:induction false} BucketSorted(regs: seq<Reg>, base: Reg, b: nat)
    ensures Sorted(BucketOf(regs, base, b))
  {
    if regs != [] {
      BucketSorted(regs[1..], base, b);
      InsertSorted(BucketOf(regs[1..], base, b), regs[0]);
    }
  }

  /** The registrations that are in bucket b, the newest first. */
  function Here(regs: seq<Reg>, b: nat): seq<Reg> {
    if regs == [] then [] else (if InBucket(regs[0], b) then [regs[0]] else []) + Here(regs[1..], b)
  }

  lemma {:induction false} HereHas(regs: seq<Reg>, b: nat)
    ensures forall r :: r in Here(regs, b) <==> r in regs && InBucket(r, b)
  {
    if regs != [] {
      HereHas(regs[1..], b);
      assert regs == [regs[0]] + regs[1..];
    }
  }

  /** Walking a bucket finds the narrowest of the registrations that are in it, whatever has been registered. */
  lemma {:induction false} BucketFindsNarrowest(regs: seq<Reg>, base: Reg, b: nat, d: nat)
    ensures FirstCovering(BucketOf(regs, base, b), d) == Narrowest(Here(regs, b), base, d)
  {
    if regs == [] {
      assert [base][1..] == [];
    } else {
      var rest := Here(regs[1..], b);
      BucketFindsNarrowest(regs[1..], base, b, d);
      BucketSorted(regs[1..], base, b);
      FirstAfterInsert(BucketOf(regs[1..], base, b), regs[0], d);
      assert [] + rest == rest && ([regs[0]] + rest)[1..] == rest;
    }
  }

  /** That is the narrowest of all registrations exactly when nothing covers d, or the narrowest is the base
      registration, or it is in the bucket: one that is missing there does no harm behind a narrower one. */
  lemma BucketFindsNarrowestOfAll(regs: seq<Reg>, base: Reg, b: nat, d: nat)
    requires base !in regs
    ensures var n := Narrowest(regs, base, d);
            FirstCovering(BucketOf(regs, base, b), d) == n <==> n == None || n.value == base || InBucket(n.value, b)
    ensures FirstCovering(BucketOf(regs, base, b), d) == Narrowest(Here(regs, b), base, d)
  {
    BucketFindsNarrowest(regs, base, b, d);
    var n := Narrowest(regs, base, d);
    NarrowestMember(regs, base, d);
    NarrowestMember(Here(regs, b), base, d);
    HereHas(regs, b);
    if n == None || n.value == base || InBucket(n.value, b) {
      NarrowestHere(regs, base, b, d);
    }
  }

  lemma {:induction false} NarrowestMember(regs: seq<Reg>, base: Reg, d: nat)
    ensures var n := Narrowest(regs, base, d); n.Some? ==> (n.value in regs || n.value == base) && Covers(n.value, d)
  {
    if regs != [] { NarrowestMember(regs[1..], base, d); }
  }

  /** Dropping registrations that are not the narrowest leaves the narrowest. */
  lemma {:induction false} NarrowestHere(regs: seq<Reg>, base: Reg, b: nat, d: nat)
    requires var n := Narrowest(regs, base, d); n == None || n.value == base || InBucket(n.value, b)
    requires base !in regs
    ensures Narrowest(Here(regs, b), base, d) == Narrowest(regs, base, d)
  {
    if regs != [] {
      var r, tail, n := regs[0], regs[1..], Narrowest(regs, base, d);
      var rest := Here(tail, b);
      assert [] + rest == rest && ([r] + rest)[1..] == rest;
      if n == Narrowest(tail, base, d) {
        NarrowestHere(tail, base, b, d);
      } else {
        NarrowerThanRest(tail, base, b, d, r.range);
      }
    }
  }

  /** Dropping registrations never makes the narrowest narrower. */
  lemma {:induction false} NarrowerThanRest(regs: seq<Reg>, base: Reg, b: nat, d: nat, range: nat)
    requires var n := Narrowest(regs, base, d); n == None || range <= n.value.range
    ensures var n := Narrowest(Here(regs, b), base, d); n == None || range <= n.value.range
  {
    if regs != [] {
      var r, rest := regs[0], Here(regs[1..], b);
      assert [] + rest == rest && ([r] + rest)[1..] == rest;
      NarrowerThanRest(regs[1..], base, b, d, range);
    }
  }

  /** Position k holds the narrowest registration covering d, and the newest of that range. */
  ghost predicate IsChosen(all: seq<Reg>, d: nat, k: nat) {
    && k < |all| && Covers(all[k], d)
    && (forall i :: 0 <= i < k && Covers(all[i], d) ==> all[i].range > all[k].range)
    && forall i :: k < i < |all| && Covers(all[i], d) ==> all[i].range >= all[k].range
  }

  /** Narrowest is what its name says; it fails only when nothing covers d. */
  lemma {:induction false} NarrowestExact(regs: seq<Reg>, base: Reg, d: nat)
    ensures match Narrowest(regs, base, d)
            case None => forall i :: 0 <= i <= |regs| ==> !Covers((regs + [base])[i], d)
            case Some(r) => exists k: nat :: IsChosen(regs + [base], d, k) && (regs + [base])[k] == r
  {
    var all := regs + [base];
    if regs == [] {
      assert Covers(base, d) ==> IsChosen(all, d, 0);
    } else {
      NarrowestExact(regs[1..], base, d);
      var rest, r := regs[1..] + [base], Narrowest(regs, base, d);
      assert forall i :: 0 < i < |all| ==> all[i] == rest[i - 1];
      var old_ := Narrowest(regs[1..], base, d);
      if old_ == None {
        assert Covers(all[0], d) ==> IsChosen(all, d, 0);
      } else {
        var k: nat :| IsChosen(rest, d, k) && rest[k] == old_.value;
        ChosenAfter(all, rest, d, k);
        assert r == Some(all[0]) ==> IsChosen(all, d, 0) || r == old_;
      }
    }
  }

  lemma ChosenAfter(all: seq<Reg>, rest: seq<Reg>, d: nat, k: nat)
    requires |all| == |rest| + 1 && (forall i :: 0 < i < |all| ==> all[i] == rest[i - 1]) && IsChosen(rest, d, k)
    ensures if Covers(all[0], d) && all[0].range <= rest[k].range then IsChosen(all, d, 0)
            else IsChosen(all, d, k + 1) && all[k + 1] == rest[k]
  {
    assert forall i :: 0 <= i < |rest| ==> rest[i] == all[i + 1];
  }

  /** What a probe does when asked about a device: answer or decline, and possibly register more ranges first. */
  datatype Answer = Answer(found: bool, adds: seq<Reg>)
  datatype Result = Result(found: Option<Reg>, consulted: seq<Reg>, regs: seq<Reg>)

  /** The registrations after those of adds, made in order. */
  function Added(regs: seq<Reg>, adds: seq<Reg>): seq<Reg>
    decreases |adds|
  {
    if adds == [] then regs else Added([adds[0]] + regs, adds[1..])
  }

  /** The list a lookup of d searches: all registrations, or those that are in d's bucket. */
  function Searched(regs: seq<Reg>, d: nat, all: bool): seq<Reg> { if all then regs else Here(regs, Bucket(d)) }

  /** kobj_lookup on a flat list: ask the narrowest registration; when it declines, go on only if a narrower
      one has appeared. */
  function FlatLookup(regs: seq<Reg>, base: Reg, d: nat, all: bool, best: nat, step: nat,
                      oracle: (nat, Reg) -> Answer): Result
    decreases best
  {
    match Narrowest(Searched(regs, d, all), base, d)
    case None => Result(None, [], regs)
    case Some(r) =>
      if r.range == 0 || r.range - 1 >= best then Result(None, [], regs)
      else
        var a := oracle(step, r);
        var regs' := Added(regs, a.adds);
        if a.found then Result(Some(r), [r], regs')
        else
          var rest := FlatLookup(regs', base, d, all, r.range - 1, step + 1, oracle);
          Result(rest.found, [r] + rest.consulted, rest.regs)
  }

  /** The registrations asked cover the device, and each is narrower than the one before; the one found is the last. */
  lemma {:induction false} LookupNarrows(regs: seq<Reg>, base: Reg, d: nat, all: bool, best: nat, step: nat,
                                         oracle: (nat, Reg) -> Answer)
    ensures var c := FlatLookup(regs, base, d, all, best, step, oracle).consulted;
            && (forall i :: 0 <= i < |c| ==> Covers(c[i], d) && 0 < c[i].range <= best)
            && (forall i, j :: 0 <= i < j < |c| ==> c[j].range < c[i].range)
    ensures var x := FlatLookup(regs, base, d, all, best, step, oracle);
            x.found.Some? ==> x.consulted != [] && x.found.value == x.consulted[|x.consulted| - 1]
    decreases best
  {
    hide Narrowest, Covers, Searched, Added;
    NarrowestMember(Searched(regs, d, all), base, d);
    var n := Narrowest(Searched(regs, d, all), base, d);
    if n.Some? && n.value.range != 0 && n.value.range - 1 < best {
      var a := oracle(step, n.value);
      if !a.found {
        LookupNarrows(Added(regs, a.adds), base, d, all, n.value.range - 1, step + 1, oracle);
      }
    }
  }

  /** When probes register nothing, only the narrowest registration is ever asked. */
  lemma LookupAsksOnce(regs: seq<Reg>, base: Reg, d: nat, all: bool, oracle: (nat, Reg) -> Answer)
    requires forall k, r :: oracle(k, r).adds == []
    requires base.range < TWO64 && forall r :: r in regs ==> Widths(r)
    ensures var n := Narrowest(Searched(regs, d, all), base, d);
            FlatLookup(regs, base, d, all, TWO64 - 1, 0, oracle) ==
              if n == None || n.value.range == 0 then Result(None, [], regs)
              else Result(if oracle(0, n.value).found then n else None, [n.value], regs)
  {
    NarrowestMember(Searched(regs, d, all), base, d);
    HereHas(regs, Bucket(d));
    hide Narrowest, Covers, Here, InBucket;
    var n := Narrowest(Searched(regs, d, all), base, d);
    if n.Some? {
      assert oracle(0, n.value).adds == [];
    }
  }

  /** Then the buckets ask what the whole list would exactly when its narrowest is the base or in d's bucket, or there
      is nothing to ask: nothing covers d, or the narrowest has the empty range, which stops the walk, in both. */
  lemma LookupExactly(regs: seq<Reg>, base: Reg, d: nat, oracle: (nat, Reg) -> Answer)
    requires forall k, r :: oracle(k, r).adds == []
    requires base.range < TWO64 && base !in regs && forall r :: r in regs ==> Widths(r)
    ensures var n, here := Narrowest(regs, base, d), Narrowest(Here(regs, Bucket(d)), base, d);
            FlatLookup(regs, base, d, false, TWO64 - 1, 0, oracle).consulted ==
              FlatLookup(regs, base, d, true, TWO64 - 1, 0, oracle).consulted
            <==> || n == None || n.value == base || InBucket(n.value, Bucket(d))
                 || (n.value.range == 0 && (here == None || here.value.range == 0))
  {
    LookupAsksOnce(regs, base, d, false, oracle);
    LookupAsksOnce(regs, base, d, true, oracle);
    BucketFindsNarrowestOfAll(regs, base, Bucket(d), d);
    NarrowestMember(regs, base, d);
    NarrowestMember(Here(regs, Bucket(d)), base, d);
    HereHas(regs, Bucket(d));
    hide Narrowest, Covers, Here, InBucket, FlatLookup;
  }

  /** Every registration that covers d is in d's bucket. */
  ghost predicate AllReachDevice(regs: seq<Reg>, d: nat) {
    forall r :: r in regs && Covers(r, d) ==> InBucket(r, Bucket(d))
  }

  /** Whatever probes register, buckets that miss nothing covering d give the same lookup as the whole list. */
  lemma {:induction false} LookupOfAll(regs: seq<Reg>, base: Reg, d: nat, best: nat, step: nat,
                                       oracle: (nat, Reg) -> Answer)
    requires AllReachDevice(regs, d) && forall k, r :: AllReachDevice(oracle(k, r).adds, d)
    ensures FlatLookup(regs, base, d, false, best, step, oracle) == FlatLookup(regs, base, d, true, best, step, oracle)
    decreases best
  {
    NothingMissing(regs, base, d);
    hide Narrowest, AllReachDevice, Added, Covers, Here;
    var n := Narrowest(regs, base, d);
    if n.Some? && n.value.range != 0 && n.value.range - 1 < best {
      var a := oracle(step, n.value);
      AddedReach(regs, a.adds, d);
      if !a.found {
        LookupOfAll(Added(regs, a.adds), base, d, n.value.range - 1, step + 1, oracle);
      }
    }
  }

  lemma {:induction false} NothingMissing(regs: seq<Reg>, base: Reg, d: nat)
    requires AllReachDevice(regs, d)
    ensures Narrowest(Here(regs, Bucket(d)), base, d) == Narrowest(regs, base, d)
  {
    if regs != [] {
      var rest := Here(regs[1..], Bucket(d));
      assert [] + rest == rest && ([regs[0]] + rest)[1..] == rest;
      NothingMissing(regs[1..], base, d);
    }
  }

  lemma {:induction false} AddedReach(regs: seq<Reg>, adds: seq<Reg>, d: nat)
    requires AllReachDevice(regs, d) && AllReachDevice(adds, d)
    ensures AllReachDevice(Added(regs, adds), d)
    decreases |adds|
  {
    if adds != [] {
      AddedReach([adds[0]] + regs, adds[1..], d);
    }
  }

  lemma {:induction false} AddedAppend(regs: seq<Reg>, adds: seq<Reg>, r: Reg)
    ensures Added(regs, adds + [r]) == [r] + Added(regs, adds)
    decreases |adds|
  {
    if adds == [] {
      assert ([] + [r])[1..] == [];
    } else {
      assert (adds + [r])[1..] == adds[1..] + [r];
      AddedAppend([adds[0]] + regs, adds[1..], r);
    }
  }
}
