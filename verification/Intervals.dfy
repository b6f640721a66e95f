/** Sorted lists of half-open address intervals, as memblock keeps them. */
module Intervals {
  import opened Bits

  datatype Region = Region(base: nat, size: nat) {
    const End: nat := base + size
    predicate Has(x: nat) { base <= x < base + size }
  }

  /** Address x lies in one of the regions. */
  ghost predicate In(rs: seq<Region>, x: nat) {
    exists i :: 0 <= i < |rs| && rs[i].Has(x)
  }

  /** Sorted and non-overlapping; neighbours may touch. */
  ghost predicate Ordered(rs: seq<Region>) {
    && (forall i :: 0 <= i < |rs| ==> rs[i].size > 0)
    && (forall i, j :: 0 <= i < j < |rs| ==> rs[i].End <= rs[j].base)
  }

  /** Sorted, non-empty and fully merged: no two regions overlap or touch. */
  ghost predicate Separated(rs: seq<Region>) {
    && (forall i :: 0 <= i < |rs| ==> rs[i].size > 0)
    && (forall i, j :: 0 <= i < j < |rs| ==> rs[i].End < rs[j].base)
  }

  ghost predicate Below(rs: seq<Region>, limit: nat) {
    forall i :: 0 <= i < |rs| ==> rs[i].End <= limit
  }

  function Sum(rs: seq<Region>): nat {
    if rs == [] then 0 else rs[0].size + Sum(rs[1..])
  }

  lemma InCons(r: Region, rs: seq<Region>, x: nat)
    ensures In([r] + rs, x) <==> r.Has(x) || In(rs, x)
  {
    var s := [r] + rs;
    if r.Has(x) { assert s[0].Has(x); }
    if In(rs, x) {
      var i :| 0 <= i < |rs| && rs[i].Has(x);
      assert s[i + 1].Has(x);
    }
    if In(s, x) && !r.Has(x) {
      var i :| 0 <= i < |s| && s[i].Has(x);
      assert rs[i - 1].Has(x);
    }
  }

  lemma InHeadTail(rs: seq<Region>, x: nat)
    requires rs != []
    ensures In(rs, x) <==> rs[0].Has(x) || In(rs[1..], x)
  {
    assert rs == [rs[0]] + rs[1..];
    InCons(rs[0], rs[1..], x);
  }

  /** The merged list of a set of addresses is unique. */
  lemma {:induction false} SeparatedUnique(a: seq<Region>, b: seq<Region>)
    requires Separated(a) && Separated(b) && forall x :: In(a, x) <==> In(b, x)
    ensures a == b
    decreases |a|
  {
    if a == [] {
      if b != [] { assert b[0].Has(b[0].base); assert In(b, b[0].base); }
    } else {
      assert a[0].Has(a[0].base);
      assert In(a, a[0].base);
      SameHead(a, b);
      forall x ensures In(a[1..], x) <==> In(b[1..], x) {
        InHeadTail(a, x);
        InHeadTail(b, x);
        TailAbove(a, x);
        TailAbove(b, x);
      }
      SeparatedUnique(a[1..], b[1..]);
      assert a == [a[0]] + a[1..] && b == [b[0]] + b[1..];
    }
  }

  lemma TailAbove(rs: seq<Region>, x: nat)
    requires Separated(rs) && rs != []
    ensures In(rs[1..], x) ==> rs[0].End < x
  {
  }

  lemma SameHead(a: seq<Region>, b: seq<Region>)
    requires Separated(a) && Separated(b) && a != [] && b != []
    requires forall x :: In(a, x) <==> In(b, x)
    ensures a[0] == b[0]
  {
    LeastIn(a);
    LeastIn(b);
    assert In(a, b[0].base) && In(b, a[0].base);
    EndNotIn(a);
    EndNotIn(b);
    InHeadTail(a, b[0].End);
    InHeadTail(b, a[0].End);
  }

  lemma LeastIn(rs: seq<Region>)
    requires Separated(rs) && rs != []
    ensures In(rs, rs[0].base) && forall x :: In(rs, x) ==> rs[0].base <= x
  {
    assert rs[0].Has(rs[0].base);
  }

  lemma EndNotIn(rs: seq<Region>)
    requires Separated(rs) && rs != []
    ensures !In(rs, rs[0].End)
  {
  }

  ghost function Addresses(rs: seq<Region>): set<nat> {
    if rs == [] then {} else Range(rs[0].base, rs[0].End) + Addresses(rs[1..])
  }

  /** The sizes of ordered regions add up to the number of addresses they hold. */
  lemma {:induction false} SumIsMeasure(rs: seq<Region>)
    requires forall i, j :: 0 <= i < j < |rs| ==> rs[i].End <= rs[j].base
    ensures |Addresses(rs)| == Sum(rs)
    ensures forall x :: x in Addresses(rs) <==> In(rs, x)
  {
    if rs != [] {
      SumIsMeasure(rs[1..]);
      forall x ensures x in Addresses(rs) <==> In(rs, x) { InHeadTail(rs, x); }
      assert Range(rs[0].base, rs[0].End) !! Addresses(rs[1..]);
    }
  }
}
