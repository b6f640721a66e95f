/** Adding a range to one memblock region array: set union on sorted, merged intervals. */
module MemblockRegions {
  import opened Bits
  import opened Intervals

  const PHYS_ADDR_MAX: nat := 0xffff_ffff_ffff_ffff

  /** The stretch [lo, hi) as zero or one region. */
  function Piece(lo: nat, hi: nat): seq<Region> {
    if lo < hi then [Region(lo, hi - lo)] else []
  }

  /** Where what is left of [base, end) starts once r is passed. */
  function Past(r: Region, base: nat, end: nat): nat {
    Max(base, Min(r.End, end))
  }

  /** The regions with every stretch of [base, end) they leave uncovered inserted in place. */
  function Fill(rs: seq<Region>, base: nat, end: nat): (s: seq<Region>) {
    if rs == [] || rs[0].base >= end then Piece(base, end) + rs
    else Piece(base, rs[0].base) + ([rs[0]] + Fill(rs[1..], Past(rs[0], base, end), end))
  }

  /** The number of stretches of [base, end) that the regions leave uncovered. */
  function GapCount(rs: seq<Region>, base: nat, end: nat): nat {
    if rs == [] || rs[0].base >= end then |Piece(base, end)|
    else |Piece(base, rs[0].base)| + GapCount(rs[1..], Past(rs[0], base, end), end)
  }

  /** Touching neighbours joined. */
  function Merged(rs: seq<Region>): (s: seq<Region>)
    decreases |rs|
  {
    if |rs| < 2 then rs
    else if rs[0].End == rs[1].base then Merged([Region(rs[0].base, rs[0].size + rs[1].size)] + rs[2..])
    else [rs[0]] + Merged(rs[1..])
  }

  lemma OrderedCons(r: Region, s: seq<Region>)
    requires Ordered(s) && r.size > 0 && forall i :: 0 <= i < |s| ==> r.End <= s[i].base
    ensures Ordered([r] + s)
  {
  }

  lemma InPiece(lo: nat, hi: nat, s: seq<Region>, x: nat)
    ensures In(Piece(lo, hi) + s, x) <==> lo <= x < hi || In(s, x)
  {
    if lo < hi {
      InCons(Region(lo, hi - lo), s, x);
    } else {
      assert Piece(lo, hi) + s == s;
    }
  }

  /** Filling inserts as many regions as the counting pass predicts. */
  lemma {:induction false} FillLength(rs: seq<Region>, base: nat, end: nat)
    ensures |Fill(rs, base, end)| == |rs| + GapCount(rs, base, end)
  {
    if rs != [] && rs[0].base < end { FillLength(rs[1..], Past(rs[0], base, end), end); }
  }

  /** Filling adds exactly the addresses of [base, end). */
  lemma {:induction false} FillIn(rs: seq<Region>, base: nat, end: nat, x: nat)
    requires base <= end
    ensures In(Fill(rs, base, end), x) <==> In(rs, x) || base <= x < end
  {
    if rs == [] || rs[0].base >= end {
      InPiece(base, end, rs, x);
    } else {
      var tail := Fill(rs[1..], Past(rs[0], base, end), end);
      FillIn(rs[1..], Past(rs[0], base, end), end, x);
      InHeadTail(rs, x);
      InCons(rs[0], tail, x);
      InPiece(base, rs[0].base, [rs[0]] + tail, x);
    }
  }

  /** Filling keeps the order; lo bounds everything from below. */
  lemma {:induction false} FillOrdered(rs: seq<Region>, base: nat, end: nat, lo: nat)
    requires Ordered(rs) && (base < end ==> lo <= base)
    requires forall i :: 0 <= i < |rs| ==> lo <= rs[i].base
    ensures Ordered(Fill(rs, base, end))
    ensures forall i :: 0 <= i < |Fill(rs, base, end)| ==> lo <= Fill(rs, base, end)[i].base
  {
    if rs == [] || rs[0].base >= end {
      PieceOrdered(base, end, rs, lo);
    } else {
      var from := Past(rs[0], base, end);
      FillOrdered(rs[1..], from, end, rs[0].End);
      OrderedCons(rs[0], Fill(rs[1..], from, end));
      PieceOrdered(base, rs[0].base, [rs[0]] + Fill(rs[1..], from, end), lo);
    }
  }

  lemma PieceOrdered(a: nat, b: nat, s: seq<Region>, lo: nat)
    requires Ordered(s) && (a < b ==> lo <= a)
    requires forall i :: 0 <= i < |s| ==> b <= s[i].base && lo <= s[i].base
    ensures Ordered(Piece(a, b) + s)
    ensures forall i :: 0 <= i < |Piece(a, b) + s| ==> lo <= (Piece(a, b) + s)[i].base
  {
    if a < b {
      OrderedCons(Region(a, b - a), s);
    } else {
      assert Piece(a, b) + s == s;
    }
  }

  /** Merging keeps the addresses and leaves no two regions touching. */
  lemma {:induction false} MergedCorrect(rs: seq<Region>)
    requires Ordered(rs)
    ensures Separated(Merged(rs)) && Sum(Merged(rs)) == Sum(rs)
    ensures forall x :: In(Merged(rs), x) <==> In(rs, x)
    ensures |Merged(rs)| <= |rs| && (rs != [] ==> Merged(rs) != [] && Merged(rs)[0].base == rs[0].base)
    decreases |rs|
  {
    if |rs| >= 2 {
      if rs[0].End == rs[1].base {
        JoinFirst(rs);
        MergedCorrect([Region(rs[0].base, rs[0].size + rs[1].size)] + rs[2..]);
      } else {
        MergedCorrect(rs[1..]);
        forall x: nat ensures In(Merged(rs), x) <==> In(rs, x) {
          InHeadTail(rs, x);
          InCons(rs[0], Merged(rs[1..]), x);
        }
        SeparatedCons(rs[0], Merged(rs[1..]));
      }
    }
  }

  lemma SeparatedCons(r: Region, s: seq<Region>)
    requires Separated(s) && r.size > 0 && (s != [] ==> r.End < s[0].base)
    ensures Separated([r] + s)
  {
    var t := [r] + s;
    forall i, j | 0 <= i < j < |t| ensures t[i].End < t[j].base {
      if i == 0 {
        assert t[j] == s[j - 1];
        assert j > 1 ==> s[0].End < s[j - 1].base;
      } else {
        assert t[i] == s[i - 1] && t[j] == s[j - 1];
      }
    }
  }

  /** Joining the first two regions when they touch changes neither addresses nor total. */
  lemma JoinFirst(rs: seq<Region>)
    requires Ordered(rs) && |rs| >= 2 && rs[0].End == rs[1].base
    ensures var s := [Region(rs[0].base, rs[0].size + rs[1].size)] + rs[2..];
            Ordered(s) && Sum(s) == Sum(rs) && forall x :: In(s, x) <==> In(rs, x)
  {
    var r := Region(rs[0].base, rs[0].size + rs[1].size);
    var s := [r] + rs[2..];
    assert s[1..] == rs[2..] && rs[1..][1..] == rs[2..];
    assert Ordered(rs[2..]);
    OrderedCons(r, rs[2..]);
    forall x: nat ensures In(s, x) <==> In(rs, x) {
      InCons(r, rs[2..], x);
      InHeadTail(rs, x);
      InHeadTail(rs[1..], x);
    }
  }

  lemma BelowByAddresses(rs: seq<Region>, limit: nat)
    requires Ordered(rs) && forall x: nat :: In(rs, x) ==> x < limit
    ensures Below(rs, limit)
  {
    forall i | 0 <= i < |rs| ensures rs[i].End <= limit {
      assert rs[i].Has(rs[i].End - 1);
      assert In(rs, rs[i].End - 1);
    }
  }

  /** The zero-filled array: a single empty entry. */
  predicate IsDummy(rs: seq<Region>) {
    |rs| == 1 && rs[0].base == 0 && rs[0].size == 0
  }

  /** An array holding one empty dummy region, or sorted merged regions within the address space. */
  ghost predicate ArrayInv(rs: seq<Region>) {
    IsDummy(rs) || (rs != [] && Separated(rs) && Below(rs, PHYS_ADDR_MAX))
  }

  function CapEnd(base: nat, size: nat): nat
    requires base <= PHYS_ADDR_MAX
  {
    base + Min(size, PHYS_ADDR_MAX - base)
  }

  /** The regions of an array, without the dummy. */
  function View(rs: seq<Region>): seq<Region> {
    if IsDummy(rs) then [] else rs
  }

  function Added(rs: seq<Region>, base: nat, end: nat): seq<Region> {
    Merged(Fill(rs, base, end))
  }

  /** Adding is union, and its result is sorted and merged again. */
  lemma AddedCorrect(rs: seq<Region>, base: nat, end: nat)
    requires Separated(rs) && base <= end
    ensures Separated(Added(rs, base, end)) && Ordered(Fill(rs, base, end))
    ensures forall x: nat :: In(Added(rs, base, end), x) <==> In(rs, x) || base <= x < end
    ensures Sum(Added(rs, base, end)) == Sum(Fill(rs, base, end))
  {
    FillOrdered(rs, base, end, 0);
    MergedCorrect(Fill(rs, base, end));
    forall x: nat ensures In(Added(rs, base, end), x) <==> In(rs, x) || base <= x < end { FillIn(rs, base, end, x); }
  }

  lemma AddedKeepsInv(rs: seq<Region>, base: nat, end: nat)
    requires Separated(rs) && Below(rs, PHYS_ADDR_MAX) && base < end <= PHYS_ADDR_MAX
    ensures ArrayInv(Added(rs, base, end)) && Sum(Added(rs, base, end)) == Sum(Fill(rs, base, end))
  {
    AddedCorrect(rs, base, end);
    var s := Added(rs, base, end);
    assert In(s, base);
    forall x: nat | In(s, x) ensures x < PHYS_ADDR_MAX { }
    BelowByAddresses(s, PHYS_ADDR_MAX);
  }

  lemma AddedToNothing(base: nat, end: nat)
    requires base < end <= PHYS_ADDR_MAX
    ensures var s := Added([], base, end);
            && s == [Region(base, end - base)] && ArrayInv(s) && Sum(s) == end - base
            && forall x: nat :: In(s, x) <==> base <= x < end
  {
    AddedCorrect([], base, end);
    AddedKeepsInv([], base, end);
  }

  /** An empty first region is the dummy, and holds no address. */
  lemma DummyIsFirst(rs: seq<Region>)
    requires ArrayInv(rs)
    ensures rs[0].size == 0 <==> IsDummy(rs)
    ensures IsDummy(rs) ==> forall x: nat :: !In(rs, x)
    ensures !IsDummy(rs) ==> Separated(rs)
  {
  }

  /** With nothing uncovered, adding changes nothing. */
  lemma NoGaps(rs: seq<Region>, base: nat, end: nat)
    requires Separated(rs) && base <= end && GapCount(rs, base, end) == 0
    ensures Added(rs, base, end) == rs
  {
    FillUnchanged(rs, base, end);
    AddedCorrect(rs, base, end);
    MergedCorrect(rs);
    SeparatedUnique(Added(rs, base, end), rs);
  }

  lemma {:induction false} FillUnchanged(rs: seq<Region>, base: nat, end: nat)
    requires GapCount(rs, base, end) == 0
    ensures Fill(rs, base, end) == rs
  {
    if rs != [] && rs[0].base < end {
      FillUnchanged(rs[1..], Past(rs[0], base, end), end);
      assert rs == [rs[0]] + rs[1..];
    }
  }

  /** The array depends only on what was added, not on the order. */
  lemma AddedCommutes(rs: seq<Region>, b1: nat, e1: nat, b2: nat, e2: nat)
    requires Separated(rs) && b1 <= e1 && b2 <= e2
    ensures Added(Added(rs, b1, e1), b2, e2) == Added(Added(rs, b2, e2), b1, e1)
  {
    AddedCorrect(rs, b1, e1);
    AddedCorrect(rs, b2, e2);
    AddedCorrect(Added(rs, b1, e1), b2, e2);
    AddedCorrect(Added(rs, b2, e2), b1, e1);
    SeparatedUnique(Added(Added(rs, b1, e1), b2, e2), Added(Added(rs, b2, e2), b1, e1));
  }

  class MemblockType {
    const max: nat
    const regions: array<Region>
    var cnt: nat
    var totalSize: nat

    ghost predicate Shaped()
      reads this
    {
      regions.Length == max && 1 <= cnt <= max
    }

    /** The live part of the array. */
    ghost function Live(): (s: seq<Region>)
      requires Shaped()
      reads this, regions
    {
      regions[..cnt]
    }

    /** Live regions sorted, merged, below PHYS_ADDR_MAX, and totalSize their total. */
    ghost predicate Valid()
      reads this, regions
    {
      Shaped() && ArrayInv(Live()) && totalSize == Sum(Live())
    }

    /** A zero-filled array: one empty dummy entry. */
    constructor (max: nat)
      requires max >= 1
      ensures Valid() && fresh(regions) && this.max == max && forall x :: !In(Live(), x)
    {
      this.max, cnt, totalSize := max, 1, 0;
      regions := new Region[max](_ => Region(0, 0));
      new;
    }

    /** totalSize is the number of addresses the regions hold. */
    lemma TotalSizeIsMeasure()
      requires Valid()
      ensures totalSize == |Addresses(Live())| && forall x :: x in Addresses(Live()) <==> In(Live(), x)
    {
      SumIsMeasure(Live());
    }

    method InsertRegion(idx: nat, base: nat, size: nat)
      requires Shaped() && idx <= cnt < max
      modifies this, regions
      ensures Shaped() && cnt == old(cnt) + 1 && totalSize == old(totalSize) + size
      ensures Live() == Inserted(old(Live()), idx, Region(base, size))
      ensures totalSize - Sum(Live()) == old(totalSize) - Sum(old(Live()))
    {
      SumInsert(Live(), idx, Region(base, size));
      ghost var was := Live();
      forall i | idx <= i < cnt { regions[i + 1] := regions[i]; }
      regions[idx] := Region(base, size);
      cnt := cnt + 1;
      totalSize := totalSize + size;
      IsInserted(Live(), was, idx, Region(base, size));
    }

    /**
     One round of memblock_add_range over the array: count the uncovered
     stretches of [obase, end) and, when told to, insert them.
     */
    method Scan(insert: bool, obase: nat, end: nat) returns (nrNew: nat)
      requires Shaped() && obase <= end
      requires insert ==> cnt + GapCount(Live(), obase, end) <= max
      modifies this, regions
      ensures Shaped() && nrNew == GapCount(old(Live()), obase, end)
      ensures Live() == if insert then Fill(old(Live()), obase, end) else old(Live())
      ensures totalSize - Sum(Live()) == old(totalSize) - Sum(old(Live()))
    {
      hide Fill, GapCount, Sum;
      var base: nat, idx: nat := obase, 0;
      nrNew := 0;
      assert Live()[0..] == Live();
      hide GapsFrom, FilledFrom;
      while idx < cnt && regions[idx].base < end
        invariant Shaped() && idx <= cnt && base <= end
        invariant nrNew + GapsFrom(Live(), idx, base, end) == GapCount(old(Live()), obase, end)
        invariant insert ==> FilledFrom(Live(), idx, base, end) == Fill(old(Live()), obase, end)
        invariant if insert then cnt == old(cnt) + nrNew else Live() == old(Live())
        invariant totalSize - Sum(Live()) == old(totalSize) - Sum(old(Live()))
        decreases cnt - idx
      {
        ghost var was, idx0, base0 := Live(), idx, base;
        GapsFromBound(was, idx, base, end);
        idx, base, nrNew := ScanRegion(insert, idx, base, end, nrNew);
        ScanStep(insert, was, Live(), idx0, base0, end, idx);
      }
      FilledFromEnd(Live(), idx, base, end);
      nrNew := ScanRest(insert, idx, base, end, nrNew);
    }

    /** The part of [base, end) left over at idx, past the last region that starts below end. */
    method ScanRest(insert: bool, idx: nat, base: nat, end: nat, nrNew: nat) returns (nrNew': nat)
      requires Shaped() && idx <= cnt && (idx < cnt ==> regions[idx].base >= end)
      requires insert && base < end ==> cnt < max
      modifies this, regions
      ensures Shaped() && nrNew' == nrNew + GapsFrom(old(Live()), idx, base, end)
      ensures Live() == if insert then FilledFrom(old(Live()), idx, base, end) else old(Live())
      ensures totalSize - Sum(Live()) == old(totalSize) - Sum(old(Live()))
    {
      nrNew' := nrNew;
      FilledFromEnd(Live(), idx, base, end);
      if base < end {
        nrNew' := nrNew' + 1;
        if insert {
          InsertRegion(idx, base, end - base);
        }
      }
    }

    /** The loop body of memblock_add_range for the region at idx, which starts below end. */
    method ScanRegion(insert: bool, idx: nat, base: nat, end: nat, nrNew: nat)
      returns (idx': nat, base': nat, nrNew': nat)
      requires Shaped() && idx < cnt && base <= end && regions[idx].base < end
      requires insert && regions[idx].base > base ==> cnt < max
      modifies this, regions
      ensures Shaped() && base' == Past(old(regions[idx]), base, end)
      ensures nrNew' == nrNew + if old(regions[idx].base) > base then 1 else 0
      ensures if insert && old(regions[idx].base) > base then
                idx' == idx + 2 && Live() == Inserted(old(Live()), idx, Region(base, old(regions[idx].base) - base))
              else idx' == idx + 1 && Live() == old(Live())
      ensures totalSize - Sum(Live()) == old(totalSize) - Sum(old(Live()))
    {
      idx', base', nrNew' := idx, base, nrNew;
      var rbase, rend := regions[idx].base, regions[idx].base + regions[idx].size;
      if rend > base {
        if rbase > base {
          nrNew' := nrNew' + 1;
          if insert {
            InsertRegion(idx, base, rbase - base);
            idx' := idx' + 1;
          }
        }
        base' := Min(rend, end);
      }
      idx' := idx' + 1;
    }

    /**
     Add [base, base + size), cut off at PHYS_ADDR_MAX: the array then holds the
     union, sorted and merged. "ok" is false where the source panics, which
     happens exactly when the uncovered stretches do not fit beside what is there.
     */
    method AddRange(base: nat, size: nat) returns (ok: bool)
      requires Valid() && base <= PHYS_ADDR_MAX && size <= PHYS_ADDR_MAX
      modifies this, regions
      ensures Valid()
      ensures ok <==> size == 0 || base == PHYS_ADDR_MAX || IsDummy(old(Live()))
                      || old(cnt) + GapCount(old(Live()), base, CapEnd(base, size)) <= max
      ensures if ok && CapEnd(base, size) > base then Live() == Added(View(old(Live())), base, CapEnd(base, size))
              else Live() == old(Live())
      ensures ok ==> forall x: nat :: In(Live(), x) <==> old(In(Live(), x)) || base <= x < CapEnd(base, size)
    {
      hide GapCount, Sum, Added, In, Separated;
      var capped := Min(size, PHYS_ADDR_MAX - base);
      var end := base + capped;
      if capped == 0 {
        return true;
      }
      DummyIsFirst(Live());
      if regions[0].size == 0 {
        regions[0] := Region(base, capped);
        totalSize := capped;
        AddedToNothing(base, end);
        assert Live() == [Region(base, capped)];
        return true;
      }
      AddedCorrect(Live(), base, end);
      ok := AddInTwoPasses(base, end);
    }

    /** Count, check the room, insert, merge. */
    method AddInTwoPasses(base: nat, end: nat) returns (ok: bool)
      requires Valid() && Separated(Live()) && base < end <= PHYS_ADDR_MAX
      modifies this, regions
      ensures Valid() && (ok <==> old(cnt) + GapCount(old(Live()), base, end) <= max)
      ensures Live() == if ok then Added(old(Live()), base, end) else old(Live())
    {
      ghost var was := Live();
      var nrNew := Scan(false, base, end);
      if nrNew == 0 {
        NoGaps(was, base, end);
        return true;
      }
      if cnt + nrNew > max {
        return false;
      }
      nrNew := Scan(true, base, end);
      AddedKeepsInv(was, base, end);
      MergeRegions();
      return true;
    }

    method MergeRegions()
      requires Shaped()
      modifies this`cnt, regions
      ensures Shaped() && Live() == Merged(old(Live()))
    {
      hide MergedFrom, Merged;
      var i := 0;
      MergedFromEnds(Live(), 0);
      while i < cnt - 1
        invariant Shaped() && 0 <= i < cnt
        invariant MergedFrom(Live(), i) == Merged(old(Live()))
        decreases cnt - i
      {
        MergedFromStep(Live(), i);
        if regions[i].base + regions[i].size != regions[i + 1].base {
          i := i + 1;
        } else {
          JoinNext(i);
        }
      }
      MergedFromEnds(Live(), i);
    }

    /** Grow region i by its successor and close the gap behind it. */
    method JoinNext(i: nat)
      requires Shaped() && i + 1 < cnt
      modifies this`cnt, regions
      ensures Shaped() && cnt == old(cnt) - 1 && Live() == Joined(old(Live()), i)
    {
      ghost var was := Live();
      regions[i] := Region(regions[i].base, regions[i].size + regions[i + 1].size);
      forall j | i + 2 <= j < cnt { regions[j - 1] := regions[j]; }
      cnt := cnt - 1;
      IsJoined(Live(), was, i);
    }
  }

  /** The part before idx as it is, the part from idx filled. */
  function FilledFrom(s: seq<Region>, idx: nat, base: nat, end: nat): seq<Region>
    requires idx <= |s|
  {
    s[..idx] + Fill(s[idx..], base, end)
  }

  function GapsFrom(s: seq<Region>, idx: nat, base: nat, end: nat): nat
    requires idx <= |s|
  {
    GapCount(s[idx..], base, end)
  }

  function Inserted(s: seq<Region>, idx: nat, r: Region): seq<Region>
    requires idx <= |s|
  {
    s[..idx] + [r] + s[idx..]
  }

  lemma IsInserted(t: seq<Region>, s: seq<Region>, idx: nat, r: Region)
    requires idx <= |s| && |t| == |s| + 1 && t[idx] == r
    requires forall j :: 0 <= j < idx ==> t[j] == s[j]
    requires forall j :: idx <= j < |s| ==> t[j + 1] == s[j]
    ensures t == Inserted(s, idx, r)
  {
    forall j | 0 <= j < |t| ensures t[j] == Inserted(s, idx, r)[j] {
      if j > idx { assert t[j] == s[j - 1]; }
    }
  }

  /** Passing the region at idx, with the stretch below it inserted first if there is one. */
  lemma FilledFromStep(s: seq<Region>, idx: nat, base: nat, end: nat)
    requires idx < |s| && s[idx].base < end
    ensures var r := s[idx];
            && (if r.base > base then
                  FilledFrom(s, idx, base, end)
                  == FilledFrom(Inserted(s, idx, Region(base, r.base - base)), idx + 2, Past(r, base, end), end)
                else FilledFrom(s, idx, base, end) == FilledFrom(s, idx + 1, Past(r, base, end), end))
            && GapsFrom(s, idx, base, end)
               == (if r.base > base then 1 else 0) + GapsFrom(s, idx + 1, Past(r, base, end), end)
            && (r.base > base ==>
                  GapsFrom(Inserted(s, idx, Region(base, r.base - base)), idx + 2, Past(r, base, end), end)
                  == GapsFrom(s, idx + 1, Past(r, base, end), end))
  {
    var r, from := s[idx], Past(s[idx], base, end);
    assert s[idx..][1..] == s[idx + 1..];
    if r.base > base {
      var t := Inserted(s, idx, Region(base, r.base - base));
      assert t[idx + 2..] == s[idx + 1..];
      assert t[..idx + 2] == s[..idx] + (Piece(base, r.base) + [r]);
    } else {
      assert s[..idx + 1] == s[..idx] + [r];
      assert FilledFrom(s, idx, base, end) == s[..idx] + ([r] + Fill(s[idx + 1..], from, end));
    }
  }

  lemma GapsFromBound(s: seq<Region>, idx: nat, base: nat, end: nat)
    requires idx < |s| && s[idx].base < end
    ensures base < s[idx].base ==> GapsFrom(s, idx, base, end) >= 1
  {
  }

  /** What one round of the scan leaves to be counted and filled. */
  lemma ScanStep(insert: bool, was: seq<Region>, now: seq<Region>, idx: nat, base: nat, end: nat, idx': nat)
    requires idx < |was| && was[idx].base < end
    requires if insert && was[idx].base > base then
               idx' == idx + 2 && now == Inserted(was, idx, Region(base, was[idx].base - base))
             else idx' == idx + 1 && now == was
    ensures idx' <= |now|
    ensures GapsFrom(was, idx, base, end)
            == (if was[idx].base > base then 1 else 0) + GapsFrom(now, idx', Past(was[idx], base, end), end)
    ensures insert ==> FilledFrom(now, idx', Past(was[idx], base, end), end) == FilledFrom(was, idx, base, end)
  {
    FilledFromStep(was, idx, base, end);
  }

  lemma FilledFromEnd(s: seq<Region>, idx: nat, base: nat, end: nat)
    requires idx <= |s| && (idx < |s| ==> s[idx].base >= end)
    ensures FilledFrom(s, idx, base, end) == if base < end then Inserted(s, idx, Region(base, end - base)) else s
    ensures GapsFrom(s, idx, base, end) == if base < end then 1 else 0
  {
    assert s[..idx] + s[idx..] == s;
    assert s[..idx] + ([Region(base, Max(0, end - base))] + s[idx..])
      == s[..idx] + [Region(base, Max(0, end - base))] + s[idx..];
  }

  lemma {:induction false} SumInsert(s: seq<Region>, idx: nat, r: Region)
    requires idx <= |s|
    ensures Sum(Inserted(s, idx, r)) == Sum(s) + r.size
  {
    var t := Inserted(s, idx, r);
    if idx == 0 {
      assert t[1..] == s;
    } else {
      assert t[1..] == Inserted(s[1..], idx - 1, r);
      SumInsert(s[1..], idx - 1, r);
    }
  }

  function Joined(s: seq<Region>, i: nat): seq<Region>
    requires i + 1 < |s|
  {
    s[..i] + [Region(s[i].base, s[i].size + s[i + 1].size)] + s[i + 2..]
  }

  lemma IsJoined(t: seq<Region>, s: seq<Region>, i: nat)
    requires i + 1 < |s| && |t| == |s| - 1 && t[i] == Region(s[i].base, s[i].size + s[i + 1].size)
    requires forall j :: 0 <= j < i ==> t[j] == s[j]
    requires forall j :: i + 2 <= j < |s| ==> t[j - 1] == s[j]
    ensures t == Joined(s, i)
  {
    forall j | 0 <= j < |t| ensures t[j] == Joined(s, i)[j] {
      if j > i { assert t[j] == s[j + 1]; }
    }
  }

  /** The part before i as it is, the part from i merged. */
  function MergedFrom(s: seq<Region>, i: nat): seq<Region>
    requires i <= |s|
  {
    s[..i] + Merged(s[i..])
  }

  lemma MergedFromEnds(s: seq<Region>, i: nat)
    requires i <= |s|
    ensures i == 0 ==> MergedFrom(s, i) == Merged(s)
    ensures i + 1 >= |s| ==> MergedFrom(s, i) == s
  {
    assert s[0..] == s && s[..i] + s[i..] == s;
  }

  lemma MergedFromStep(s: seq<Region>, i: nat)
    requires i + 1 < |s|
    ensures MergedFrom(s, i) == if s[i].End == s[i + 1].base then MergedFrom(Joined(s, i), i) else MergedFrom(s, i + 1)
  {
    assert s[i..][1..] == s[i + 1..] && s[i..][2..] == s[i + 2..];
    if s[i].End == s[i + 1].base {
      var t := Joined(s, i);
      assert t[..i] == s[..i] && t[i..] == [Region(s[i].base, s[i].size + s[i + 1].size)] + s[i + 2..];
    } else {
      assert s[..i + 1] == s[..i] + [s[i]];
      assert s[..i] + ([s[i]] + Merged(s[i + 1..])) == s[..i + 1] + Merged(s[i + 1..]);
    }
  }
}
