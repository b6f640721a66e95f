/** The recently-used list of buffer heads, as a fixed array shifted in place. */
module BufferLru {
  const BH_LRU_SIZE: nat := 16

  class BufferHead {
    var dev: nat
    var blocknr: int
    var size: nat
    var mapped: bool
    /** Where in its page the block's data is. */
    var offset: nat
    /** b_this_page: the head of the next block of the page. */
    var next: BufferHead?

    constructor (s: nat, o: nat, n: BufferHead?)
      ensures blocknr == -1 && size == s && !mapped && offset == o && next == n
    {
      dev, blocknr, size, mapped, offset, next := 0, -1, s, false, o, n;
    }
  }

  /** x moved or put to the front of a list that keeps its length. */
  function Front(l: seq<BufferHead?>, x: BufferHead): seq<BufferHead?> {
    [x] + Drop(l, x)
  }

  /** The list without the first occurrence of x, or without its last entry. */
  function Drop(l: seq<BufferHead?>, x: BufferHead): seq<BufferHead?> {
    if l == [] then [] else if l[0] == x then l[1..] else if |l| == 1 then [] else [l[0]] + Drop(l[1..], x)
  }

  lemma {:induction false} DropAt(l: seq<BufferHead?>, x: BufferHead, i: nat)
    requires i < |l| && l[i] == x && x !in l[..i]
    ensures Drop(l, x) == l[..i] + l[i + 1..]
  {
    if i > 0 {
      assert l[1..][..i - 1] == l[1..i];
      DropAt(l[1..], x, i - 1);
      assert l[..i] == [l[0]] + l[1..i];
    }
  }

  lemma {:induction false} DropLast(l: seq<BufferHead?>, x: BufferHead)
    requires l != [] && x !in l
    ensures Drop(l, x) == l[..|l| - 1]
  {
    if |l| > 1 {
      DropLast(l[1..], x);
    }
  }

  /** No head is listed twice. */
  ghost predicate NoDuplicates(l: seq<BufferHead?>) {
    forall i, j :: 0 <= i < j < |l| && l[i] != null ==> l[i] != l[j]
  }

  /** Moving to the front keeps the length, the other entries in order, and the list free of duplicates. */
  lemma {:induction false} FrontKeeps(l: seq<BufferHead?>, x: BufferHead)
    requires l != [] && NoDuplicates(l)
    ensures |Front(l, x)| == |l| && Front(l, x)[0] == x && NoDuplicates(Front(l, x))
    ensures forall y :: y in Front(l, x) ==> y == x || y in l
  {
    if x in l {
      var i :| 0 <= i < |l| && l[i] == x;
      DropAt(l, x, i);
      hide Drop;
      Rotated(l, x, i);
    } else {
      DropLast(l, x);
      hide Drop;
      var f := Front(l, x);
      assert forall k :: 0 < k < |f| ==> f[k] == l[k - 1];
    }
  }

  lemma Rotated(l: seq<BufferHead?>, x: BufferHead, i: nat)
    requires i < |l| && l[i] == x && NoDuplicates(l)
    ensures var f := [x] + (l[..i] + l[i + 1..]);
            |f| == |l| && f[0] == x && NoDuplicates(f) && forall y :: y in f ==> y == x || y in l
  {
    var f := [x] + (l[..i] + l[i + 1..]);
    assert forall k :: 0 < k < |f| ==> f[k] == l[if k <= i then k - 1 else k];
  }

  /** The front, told entry by entry: up to i moved by one place, the rest as before. */
  lemma FrontIs(l: seq<BufferHead?>, f: seq<BufferHead?>, x: BufferHead, i: nat)
    requires 0 < |l| == |f| && i <= |l| && (i < |l| ==> l[i] == x) && (forall k :: 0 <= k < i ==> l[k] != x)
    requires f[0] == x && (forall k :: 0 < k <= i && k < |l| ==> f[k] == l[k - 1])
    requires forall k :: i < k < |l| ==> f[k] == l[k]
    ensures f == Front(l, x)
  {
    if i < |l| {
      DropAt(l, x, i);
      hide Drop;
      assert f == [x] + (l[..i] + l[i + 1..]);
    } else {
      DropLast(l, x);
      hide Drop;
      assert f == [x] + l[..|l| - 1];
    }
  }

  /** bh_lru_install. */
  method Install(lru: array<BufferHead?>, bh: BufferHead)
    requires lru.Length > 0
    modifies lru
    ensures lru[..] == Front(old(lru[..]), bh)
  {
    hide Front;
    var i := 0;
    var evictee: BufferHead? := bh;
    ghost var l := lru[..];
    while i < lru.Length
      invariant 0 <= i <= lru.Length && forall k :: 0 <= k < i ==> l[k] != bh
      invariant evictee == if i == 0 then bh else l[i - 1]
      invariant i > 0 ==> lru[0] == bh
      invariant forall k :: 0 < k < i ==> lru[k] == l[k - 1]
      invariant forall k :: i <= k < lru.Length ==> lru[k] == l[k]
    {
      evictee, lru[i] := lru[i], evictee;
      if evictee == bh {
        FrontIs(l, lru[..], bh, i);
        return;
      }
      i := i + 1;
    }
    FrontIs(l, lru[..], bh, i);
  }

  predicate Matches(bh: BufferHead?, dev: nat, block: nat, size: nat)
    reads bh
  {
    bh != null && bh.blocknr == block && bh.dev == dev && bh.size == size
  }

  /** lookup_bh_lru. */
  method Lookup(lru: array<BufferHead?>, dev: nat, block: nat, size: nat) returns (ret: BufferHead?)
    requires NoDuplicates(lru[..])
    modifies lru
    ensures ret == null ==> lru[..] == old(lru[..])
    ensures ret == null ==> forall k :: 0 <= k < lru.Length ==> !Matches(lru[k], dev, block, size)
    ensures ret != null ==> ret in old(lru[..]) && Matches(ret, dev, block, size) && lru[..] == Front(old(lru[..]), ret)
  {
    var i := 0;
    ghost var l := lru[..];
    while i < lru.Length
      invariant 0 <= i <= lru.Length && lru[..] == l
      invariant forall k :: 0 <= k < i ==> !Matches(lru[k], dev, block, size)
    {
      var bh := lru[i];
      if bh != null && bh.blocknr == block && bh.dev == dev && bh.size == size {
        ShiftDown(lru, i, bh);
        DropAt(l, bh, i);
        hide Drop;
        assert lru[..] == [bh] + (l[..i] + l[i + 1..]);
        return bh;
      }
      i := i + 1;
    }
    return null;
  }

  /** The inner loop of the lookup: entries before i move up by one, bh goes to the front. */
  method ShiftDown(lru: array<BufferHead?>, i0: nat, bh: BufferHead)
    requires i0 < lru.Length && lru[i0] == bh
    modifies lru
    ensures lru[..] == [bh] + old(lru[..i0]) + old(lru[i0 + 1..])
  {
    var i := i0;
    if i != 0 {
      while i != 0
        invariant 0 <= i <= i0
        invariant forall k :: 0 <= k < lru.Length ==> lru[k] == if i < k <= i0 then old(lru[k - 1]) else old(lru[k])
      {
        lru[i] := lru[i - 1];
        i := i - 1;
      }
      lru[0] := bh;
    }
  }
}
