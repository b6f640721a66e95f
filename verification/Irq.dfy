/** Interrupt descriptors: ranges of numbers handed out by searching a bitmap. */
module Irq {
  import opened Bits
  import opened Words
  import opened Bitmap

  const NR_IRQS: nat := 64
  const IRQ_BITMAP_BITS: nat := 8260

  datatype IrqDesc = IrqDesc(irq: nat)
  /** Stray: the search has failed, but 32-bit wrap-around lets its result pass as the start of a range. */
  datatype Outcome = Start(irq: nat) | Invalid | Exists | Panic | Stray
  /** A range handed out by one call. */
  datatype Handed = Handed(start: nat, cnt: nat)

  predicate InRange(h: Handed, i: nat) { h.start <= i < h.start + h.cnt }

  class IrqTable {
    const bits: array<nat>
    var tree: map<nat, IrqDesc>
    ghost var given: seq<Handed>

    /** The bitmap, the tree and the ranges handed out agree, and no two ranges overlap. */
    ghost predicate Valid()
      reads this, bits
    {
      && bits.Length * WORD >= IRQ_BITMAP_BITS && IsMap(bits[..])
      && (forall i: nat :: BitAt(bits[..], i) <==> i in tree)
      && (forall i: nat :: i in tree ==> i < NR_IRQS && tree[i].irq == i)
      && (forall i: nat :: i in tree <==> exists k :: 0 <= k < |given| && InRange(given[k], i))
      && Disjoint(given)
    }

    constructor ()
      ensures Valid() && tree == map[] && given == [] && fresh(bits)
    {
      bits := new nat[130](i => 0);
      tree, given := map[], [];
      new;
      forall i: nat ensures !BitAt(bits[..], i) {
        ZeroBits(i % WORD);
      }
    }

    /** The insertions of alloc_descs; memory says how many descriptors can still be had. */
    method InsertDescs(start: nat, cnt: nat, memory: nat) returns (panicked: bool)
      requires Unused(tree, start, cnt)
      modifies this`tree
      ensures panicked <==> memory < cnt
      ensures !panicked ==> forall i: nat :: i in tree <==> i in old(tree) || start <= i < start + cnt
      ensures !panicked ==> forall i: nat :: i in tree ==>
              tree[i] == if i in old(tree) then old(tree)[i] else IrqDesc(i)
    {
      var n := 0;
      while n < cnt
        invariant n <= cnt && n <= memory
        invariant forall i: nat :: i in tree <==> i in old(tree) || start <= i < start + n
        invariant forall i: nat :: i in tree ==> tree[i] == if i in old(tree) then old(tree)[i] else IrqDesc(i)
      {
        if n == memory {
          return true;
        }
        if start + n !in tree {
          tree := tree[start + n := IrqDesc(start + n)];
        }
        n := n + 1;
      }
      panicked := false;
    }

    /** What the search finds, said of the tree. */
    lemma AreaIsUnused(r: nat, from: nat, cnt: nat)
      requires Valid() && cnt >= 1
      requires r <= IRQ_BITMAP_BITS ==> r >= from && FreeArea(bits[..], IRQ_BITMAP_BITS, cnt, 0, 0, r)
      requires forall i: nat :: i >= from && FreeArea(bits[..], IRQ_BITMAP_BITS, cnt, 0, 0, i) ==> r <= i
      ensures r <= IRQ_BITMAP_BITS ==> r >= from && Unused(tree, r, cnt) && r + cnt <= IRQ_BITMAP_BITS
      ensures forall s: nat :: s >= from && s + cnt <= IRQ_BITMAP_BITS && Unused(tree, s, cnt) ==> r <= s
    {
      forall s: nat | s >= from && s + cnt <= IRQ_BITMAP_BITS && Unused(tree, s, cnt) ensures r <= s {
        assert Aligned(s, 0, 0);
        assert FreeArea(bits[..], IRQ_BITMAP_BITS, cnt, 0, 0, s);
      }
    }

    /** The search, said of the tree. */
    method FindArea(from: nat, cnt: nat) returns (found: nat)
      requires Valid() && 1 <= cnt < TWO32
      ensures IsFound(tree, from, cnt, found)
    {
      assert Pow2(0) == 1;
      found := FindNextZeroArea(bits, IRQ_BITMAP_BITS, from, cnt, 0, 0);
      AreaIsUnused(found, from, cnt);
      if cnt > IRQ_BITMAP_BITS || from >= IRQ_BITMAP_BITS {
        ghost var z: nat :| FirstClear(bits[..], IRQ_BITMAP_BITS, from, z) && found == AlignIndex(z, 0, 0) + cnt;
        AlignIndexIs(z, 0, 0);
        FirstClearUnused(from, z);
      }
    }

    lemma FirstClearUnused(from: nat, z: nat)
      requires Valid() && FirstClear(bits[..], IRQ_BITMAP_BITS, from, z)
      ensures z == FirstUnused(tree, from)
    {
      if from < IRQ_BITMAP_BITS {
        if z == IRQ_BITMAP_BITS { assert BitAt(bits[..], IRQ_BITMAP_BITS - 1) || from == z; }
        FirstUnusedIs(tree, from, z);
      }
    }

    /** alloc_descs, once the range is known to be unused. */
    method Hand(start: nat, cnt: nat, memory: nat) returns (r: Outcome)
      requires Valid() && cnt > 0 && start + cnt <= NR_IRQS && Unused(tree, start, cnt)
      modifies this, bits
      ensures r == Panic <==> memory < cnt
      ensures r != Panic ==> r == Start(start) && Valid() && given == old(given) + [Handed(start, cnt)]
      ensures r != Panic ==> forall i: nat :: i in tree <==> i in old(tree) || start <= i < start + cnt
    {
      var panicked := InsertDescs(start, cnt, memory);
      if panicked {
        return Panic;
      }
      BitmapSet(bits, start, cnt);
      GivenGrows(old(given), old(tree.Keys), Handed(start, cnt));
      given := given + [Handed(start, cnt)];
      return Start(start);
    }

    /** __irq_alloc_descs. */
    method AllocDescs(irq: int, from0: nat, cnt: nat, affinity: bool, memory: nat) returns (r: Outcome)
      requires Valid() && irq < TWO32 / 2 && from0 < TWO32 && cnt < TWO32
      modifies this, bits
      ensures r != Panic ==> Valid()
      ensures r == Invalid <==> BadRequest(irq, from0, cnt)
      ensures r == Stray <==> !BadRequest(irq, from0, cnt) && !affinity && Strays(old(tree), irq, from0, cnt)
      ensures r == Invalid || r == Exists || r == Stray ==> tree == old(tree) && given == old(given)
      ensures r == Exists <==> !BadRequest(irq, from0, cnt) && irq >= 0 && !Meets(old(tree), irq, cnt)
      ensures r.Start? <==> && !BadRequest(irq, from0, cnt) && !affinity && cnt <= memory
                            && Fits(old(tree), irq, from0, cnt)
      ensures r.Start? ==> var lo := From(irq, from0);
                && lo <= r.irq && r.irq + cnt <= NR_IRQS && Unused(old(tree), r.irq, cnt) && (irq >= 0 ==> r.irq == irq)
                && (forall s: nat :: lo <= s && s + cnt <= NR_IRQS && Unused(old(tree), s, cnt) ==> r.irq <= s)
                && (forall i: nat :: i in tree <==> i in old(tree) || r.irq <= i < r.irq + cnt)
                && given == old(given) + [Handed(r.irq, cnt)]
      ensures r == Panic <==> && !BadRequest(irq, from0, cnt) && (irq >= 0 ==> Meets(old(tree), irq, cnt))
                              && (affinity || !Strays(old(tree), irq, from0, cnt))
                              && (affinity || memory < cnt || !Fits(old(tree), irq, from0, cnt))
    {
      hide Strays, Valid, Unused, Meets, Fits, IsFound;
      if cnt == 0 {
        return Invalid;
      }
      var from := from0;
      if irq >= 0 {
        if from > irq {
          return Invalid;
        }
        from := irq;
      }
      var found := FindArea(from, cnt);
      var start := found % TWO32;
      PassesExactly(tree, irq, from0, cnt, found);
      FitsExactly(tree, irq, from0, cnt, found);
      LeastFound(tree, from, cnt, found);
      if irq >= 0 {
        MeetsExactly(tree, irq, cnt, found);
      }
      if irq >= 0 && start != irq {
        return Exists;
      }
      if (start + cnt) % TWO32 > NR_IRQS || affinity {
        return Panic;
      }
      if found > IRQ_BITMAP_BITS {
        return Stray;
      }
      r := Hand(start, cnt, memory);
    }
  }

  predicate BadRequest(irq: int, from0: nat, cnt: nat) { cnt == 0 || (irq >= 0 && from0 > irq) }

  /** Where the search starts: at the number asked for, or at from. */
  function From(irq: int, from0: nat): nat { if irq >= 0 then irq else from0 }

  /** The first unused number at or after lo, which the bitmap has no bit for if lo lies beyond it. */
  function FirstUnused(tree: map<nat, IrqDesc>, lo: nat): nat
    decreases IRQ_BITMAP_BITS - lo
  {
    if lo >= IRQ_BITMAP_BITS then IRQ_BITMAP_BITS else if lo in tree then FirstUnused(tree, lo + 1) else lo
  }

  lemma {:induction false} FirstUnusedIs(tree: map<nat, IrqDesc>, lo: nat, z: nat)
    requires lo <= z <= IRQ_BITMAP_BITS && (z < IRQ_BITMAP_BITS ==> z !in tree) && forall i :: lo <= i < z ==> i in tree
    ensures FirstUnused(tree, lo) == z
    decreases z - lo
  {
    if lo < z {
      FirstUnusedIs(tree, lo + 1, z);
    }
  }

  /** The counts with which a failed search passes both tests: no range can be that long, the search gives the first
      unused number plus the count, and that and the end computed from it wrap around to numbers that look right. */
  predicate Strays(tree: map<nat, IrqDesc>, irq: int, from0: nat, cnt: nat) {
    var end := FirstUnused(tree, From(irq, from0)) + cnt;
    cnt > IRQ_BITMAP_BITS && (irq >= 0 ==> end % TWO32 == irq) && (end + cnt) % TWO32 <= NR_IRQS
  }

  lemma {:induction false} FirstUnusedBound(tree: map<nat, IrqDesc>, lo: nat)
    ensures FirstUnused(tree, lo) <= IRQ_BITMAP_BITS
    decreases IRQ_BITMAP_BITS - lo
  {
    if lo < IRQ_BITMAP_BITS && lo in tree { FirstUnusedBound(tree, lo + 1); }
  }

  /** Counts up to almost 2^31 never stray. */
  lemma SmallCountsDoNotStray(tree: map<nat, IrqDesc>, irq: int, from0: nat, cnt: nat)
    requires IRQ_BITMAP_BITS + cnt < TWO32 / 2
    ensures !Strays(tree, irq, from0, cnt)
  {
    FirstUnusedBound(tree, From(irq, from0));
  }

  /** 2^31 numbers from 0 on, asked of an empty table, do. */
  lemma HugeCountStrays()
    ensures Strays(map[], -1, 0, TWO32 / 2)
  {
    assert FirstUnused(map[], 0) == 0;
  }

  /** What the search finds: the least unused range that fits the bitmap, or a number above its size; for counts larger
      than the bitmap that is the first unused number plus the count. */
  ghost predicate IsFound(tree: map<nat, IrqDesc>, from: nat, cnt: nat, found: nat) {
    && (found <= IRQ_BITMAP_BITS ==> found >= from && Unused(tree, found, cnt) && found + cnt <= IRQ_BITMAP_BITS)
    && (forall s: nat :: s >= from && s + cnt <= IRQ_BITMAP_BITS && Unused(tree, s, cnt) ==> found <= s)
    && found <= IRQ_BITMAP_BITS + cnt
    && (cnt > IRQ_BITMAP_BITS || from >= IRQ_BITMAP_BITS ==> found == FirstUnused(tree, from) + cnt)
  }

  /** The two tests on the 32-bit result of the search. */
  predicate Passes(irq: int, cnt: nat, found: nat) {
    (irq >= 0 ==> found % TWO32 == irq) && (found % TWO32 + cnt) % TWO32 <= NR_IRQS
  }

  /** A result passes the tests because it is a range within the table, or because it strays. */
  lemma PassesExactly(tree: map<nat, IrqDesc>, irq: int, from0: nat, cnt: nat, found: nat)
    requires 1 <= cnt < TWO32 && IsFound(tree, From(irq, from0), cnt, found)
    ensures Passes(irq, cnt, found) && found > IRQ_BITMAP_BITS <==> Strays(tree, irq, from0, cnt)
    ensures Passes(irq, cnt, found) && found <= IRQ_BITMAP_BITS ==> found % TWO32 == found && found + cnt <= NR_IRQS
  {
    hide Unused, FirstUnused, From;
    var a, b := found % TWO32, (found % TWO32 + cnt) % TWO32;
    assert (found + cnt) % TWO32 == b;
  }

  /** A range that can be handed out. */
  ghost predicate Fits(tree: map<nat, IrqDesc>, irq: int, from0: nat, cnt: nat) {
    exists s: nat :: From(irq, from0) <= s && s + cnt <= NR_IRQS && (irq >= 0 ==> s == irq) && Unused(tree, s, cnt)
  }

  /** The search from the number asked for ends there: the range is unused, or a failed search wraps around to it. */
  ghost predicate Meets(tree: map<nat, IrqDesc>, irq: nat, cnt: nat) {
    || (irq + cnt <= IRQ_BITMAP_BITS && Unused(tree, irq, cnt))
    || ((cnt > IRQ_BITMAP_BITS || irq >= IRQ_BITMAP_BITS) && (FirstUnused(tree, irq) + cnt) % TWO32 == irq)
  }

  lemma FitsExactly(tree: map<nat, IrqDesc>, irq: int, from0: nat, cnt: nat, found: nat)
    requires !BadRequest(irq, from0, cnt) && IsFound(tree, From(irq, from0), cnt, found)
    ensures Passes(irq, cnt, found) && found <= IRQ_BITMAP_BITS <==> Fits(tree, irq, from0, cnt)
  {
    hide Unused, FirstUnused;
  }

  lemma MeetsExactly(tree: map<nat, IrqDesc>, irq: nat, cnt: nat, found: nat)
    requires irq < TWO32 / 2 && IsFound(tree, irq, cnt, found)
    ensures found % TWO32 == irq <==> Meets(tree, irq, cnt)
  {
    hide Unused, FirstUnused;
  }

  /** What is found inside the table is unused and the least such range. */
  lemma LeastFound(tree: map<nat, IrqDesc>, from: nat, cnt: nat, found: nat)
    requires IsFound(tree, from, cnt, found)
    ensures found <= IRQ_BITMAP_BITS ==> from <= found && Unused(tree, found, cnt)
    ensures forall s: nat :: from <= s && s + cnt <= NR_IRQS && Unused(tree, s, cnt) ==> found <= s
  {
    hide Unused, FirstUnused;
  }

  /** No descriptor of the cnt numbers from s on is in use. */
  ghost predicate Unused(tree: map<nat, IrqDesc>, s: nat, cnt: nat) {
    forall i :: s <= i < s + cnt ==> i !in tree
  }

  ghost predicate Disjoint(given: seq<Handed>) {
    forall j, k, i: nat :: 0 <= j < k < |given| && InRange(given[j], i) ==> !InRange(given[k], i)
  }

  /** A range none of whose numbers is in use overlaps none handed out before. */
  lemma GivenGrows(given: seq<Handed>, used: set<nat>, h: Handed)
    requires Disjoint(given) && forall i: nat :: i in used <==> exists k :: 0 <= k < |given| && InRange(given[k], i)
    requires forall i: nat :: InRange(h, i) ==> i !in used
    ensures Disjoint(given + [h])
    ensures forall i: nat :: i in used || InRange(h, i) <==>
                             exists k :: 0 <= k < |given + [h]| && InRange((given + [h])[k], i)
  {
    var all := given + [h];
    forall i: nat | i in used || InRange(h, i) ensures exists k :: 0 <= k < |all| && InRange(all[k], i) {
      if InRange(h, i) {
        assert InRange(all[|given|], i);
      } else {
        var k :| 0 <= k < |given| && InRange(given[k], i);
        assert InRange(all[k], i);
      }
    }
  }
}
