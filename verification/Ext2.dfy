/** ext2 block mapping: from a block number in a file to a path of offsets, and along it to a disk block. */
module Ext2 {
  import opened Wrappers
  import opened Bits

  const NDIR_BLOCKS: nat := 12
  const IND_BLOCK: nat := 12
  const DIND_BLOCK: nat := 13
  const TIND_BLOCK: nat := 14
  const N_BLOCKS: nat := 15

  /** Blocks a file can have, with ptrs block numbers to a block. */
  function MaxBlocks(ptrs: nat): nat {
    NDIR_BLOCKS + ptrs + Mul(ptrs, ptrs) + Mul(Mul(ptrs, ptrs), ptrs)
  }

  /** The offsets that lead to a block: one in the inode, then one in each indirect block. */
  function PathOf(ptrs: nat, b: nat): (p: seq<nat>)
    requires ptrs > 0
    ensures |p| > 0
  {
    if b < NDIR_BLOCKS then [b]
    else if b - NDIR_BLOCKS < ptrs then [IND_BLOCK, b - NDIR_BLOCKS]
    else
      var d := b - NDIR_BLOCKS - ptrs;
      if d < Mul(ptrs, ptrs) then [DIND_BLOCK, Quot(d, ptrs), Rem(d, ptrs)]
      else
        var t := d - Mul(ptrs, ptrs);
        [TIND_BLOCK, Quot(Quot(t, ptrs), ptrs), Rem(Quot(t, ptrs), ptrs), Rem(t, ptrs)]
  }

  predicate ValidPath(ptrs: nat, p: seq<nat>) {
    && 1 <= |p| <= 4
    && (if |p| == 1 then p[0] < NDIR_BLOCKS else p[0] == NDIR_BLOCKS + |p| - 2)
    && forall i :: 1 <= i < |p| ==> p[i] < ptrs
  }

  /** The place of a path in the file: the blocks of the shorter paths come first. */
  function BlockOf(ptrs: nat, p: seq<nat>): nat
    requires ValidPath(ptrs, p)
  {
    if |p| == 1 then p[0]
    else if |p| == 2 then NDIR_BLOCKS + p[1]
    else if |p| == 3 then NDIR_BLOCKS + ptrs + Mul(p[1], ptrs) + p[2]
    else NDIR_BLOCKS + ptrs + Mul(ptrs, ptrs) + Mul(Mul(p[1], ptrs) + p[2], ptrs) + p[3]
  }

  /** Every block number in range has a valid path, and the path tells the block. */
  lemma PathOfBlock(ptrs: nat, b: nat)
    requires ptrs > 0 && b < MaxBlocks(ptrs)
    ensures ValidPath(ptrs, PathOf(ptrs, b)) && BlockOf(ptrs, PathOf(ptrs, b)) == b
  {
    hide Mul, Quot, Rem;
    if b >= NDIR_BLOCKS + ptrs {
      var d := b - NDIR_BLOCKS - ptrs;
      if d < Mul(ptrs, ptrs) {
        DivisionBound(d, ptrs, ptrs);
      } else {
        var t := d - Mul(ptrs, ptrs);
        DivisionBound(t, Mul(ptrs, ptrs), ptrs);
        DivisionBound(Quot(t, ptrs), ptrs, ptrs);
      }
    }
  }

  /** Every valid path belongs to one block in range. */
  lemma BlockOfPath(ptrs: nat, p: seq<nat>)
    requires ptrs > 0 && ValidPath(ptrs, p)
    ensures BlockOf(ptrs, p) < MaxBlocks(ptrs) && PathOf(ptrs, BlockOf(ptrs, p)) == p
  {
    hide Mul, Quot, Rem;
    if |p| == 3 {
      TwoDigits(ptrs, p[1], p[2], ptrs);
    } else if |p| == 4 {
      TwoDigits(ptrs, p[1], p[2], ptrs);
      TwoDigits(ptrs, Mul(p[1], ptrs) + p[2], p[3], Mul(ptrs, ptrs));
    }
  }

  /** How many more blocks the table that holds b's number still names. */
  function Boundary(ptrs: nat, b: nat): int
    requires ptrs > 0
  {
    var p := PathOf(ptrs, b);
    (if b < NDIR_BLOCKS then NDIR_BLOCKS else ptrs) - 1 - p[|p| - 1]
  }

  function Prefix(p: seq<nat>): seq<nat>
    requires p != []
  {
    p[..|p| - 1]
  }

  function Last(p: seq<nat>): nat
    requires p != []
  {
    p[|p| - 1]
  }

  lemma ShortPath(ptrs: nat, b: nat)
    requires ptrs > 0
    ensures |PathOf(ptrs, b)| == 1 <==> b < NDIR_BLOCKS
  {
  }

  lemma LastBound(ptrs: nat, p: seq<nat>)
    requires ValidPath(ptrs, p)
    ensures p != [] && Last(p) < if |p| == 1 then NDIR_BLOCKS else ptrs
  {
  }

  /** Moving on within the last table moves on by as many blocks. */
  lemma PathMoved(ptrs: nat, p: seq<nat>, c: nat)
    requires ValidPath(ptrs, p) && Last(p) + c < if |p| == 1 then NDIR_BLOCKS else ptrs
    ensures var p' := Prefix(p) + [Last(p) + c]; ValidPath(ptrs, p') && BlockOf(ptrs, p') == BlockOf(ptrs, p) + c
  {
    hide Mul;
  }

  /** The next blocks, up to the boundary and no further, are named by the same table. */
  lemma BoundaryExact(ptrs: nat, b: nat, c: nat)
    requires ptrs > 0 && b < MaxBlocks(ptrs)
    ensures 0 <= Boundary(ptrs, b)
    ensures c <= Boundary(ptrs, b) ==>
              b + c < MaxBlocks(ptrs) && PathOf(ptrs, b + c) == Prefix(PathOf(ptrs, b)) + [Last(PathOf(ptrs, b)) + c]
    ensures c > Boundary(ptrs, b) && b + c < MaxBlocks(ptrs) ==>
              Prefix(PathOf(ptrs, b + c)) != Prefix(PathOf(ptrs, b)) || |PathOf(ptrs, b + c)| > |PathOf(ptrs, b)|
  {
    hide PathOf, ValidPath, BlockOf, MaxBlocks;
    var p := PathOf(ptrs, b);
    PathOfBlock(ptrs, b);
    ShortPath(ptrs, b);
    LastBound(ptrs, p);
    if c <= Boundary(ptrs, b) {
      var p' := Prefix(p) + [Last(p) + c];
      PathMoved(ptrs, p, c);
      BlockOfPath(ptrs, p');
    } else if b + c < MaxBlocks(ptrs) {
      PathOfBlock(ptrs, b + c);
      LastBound(ptrs, PathOf(ptrs, b + c));
      SamePrefix(ptrs, p, PathOf(ptrs, b + c));
    }
  }

  /** Paths with the same prefix differ by their last offsets. */
  lemma SamePrefix(ptrs: nat, p: seq<nat>, q: seq<nat>)
    requires ValidPath(ptrs, p) && ValidPath(ptrs, q)
    ensures Prefix(p) == Prefix(q) ==> BlockOf(ptrs, q) - BlockOf(ptrs, p) == Last(q) - Last(p)
  {
    hide Mul;
    assert Prefix(p) == Prefix(q) ==> q == Prefix(p) + [Last(q)];
  }

  /** ext2_block_to_path on a 64-bit signed block number. */
  method BlockToPath(bits: nat, ptrs: nat, iblock: int, offsets: array<nat>)
    returns (panicked: bool, n: nat, boundary: int)
    requires ptrs == Pow2(bits) && ptrs >= NDIR_BLOCKS && offsets.Length == 4
    modifies offsets
    ensures panicked <==> !(0 <= iblock < MaxBlocks(ptrs))
    ensures !panicked ==> 1 <= n <= 4 && offsets[..n] == PathOf(ptrs, iblock) && boundary == Boundary(ptrs, iblock)
  {
    hide Mul, Quot, Rem, Pow2, And;
    var i, final := iblock, 0;
    panicked, n, boundary := false, 0, 0;
    if i < 0 {
      return true, 0, 0;
    } else if i < NDIR_BLOCKS {
      offsets[0] := i;
      n, final := 1, NDIR_BLOCKS;
    } else {
      i := i - NDIR_BLOCKS;
      if i < ptrs {
        offsets[0] := IND_BLOCK;
        offsets[1] := i;
        n, final := 2, ptrs;
      } else {
        i := i - ptrs;
        if i < Mul(ptrs, ptrs) {
          Masked(i, ptrs, bits);
          offsets[0] := DIND_BLOCK;
          offsets[1] := Quot(i, ptrs);
          offsets[2] := And(i, ptrs - 1);
          n, final := 3, ptrs;
        } else {
          i := i - Mul(ptrs, ptrs);
          DivTwice(i, ptrs);
          if Quot(i, Mul(ptrs, ptrs)) < ptrs {
            Masked(i, ptrs, bits);
            Masked(Quot(i, ptrs), ptrs, bits);
            offsets[0] := TIND_BLOCK;
            offsets[1] := Quot(i, Mul(ptrs, ptrs));
            offsets[2] := And(Quot(i, ptrs), ptrs - 1);
            offsets[3] := And(i, ptrs - 1);
            n, final := 4, ptrs;
          } else {
            return true, 0, 0;
          }
        }
      }
    }
    Masked(i, ptrs, bits);
    boundary := final - 1 - And(i, ptrs - 1);
  }

  lemma Masked(x: nat, ptrs: nat, bits: nat)
    requires ptrs == Pow2(bits)
    ensures And(x, ptrs - 1) == Rem(x, ptrs) && (x < ptrs ==> Rem(x, ptrs) == x)
  {
    AndLowMask(x, bits);
    hide And, Pow2;
    if x < ptrs { DivModUnique(x, ptrs, 0, x); }
  }

  lemma DivTwice(x: nat, n: nat)
    requires n > 0
    ensures Mul(n, n) > 0 && Quot(x, Mul(n, n)) == Quot(Quot(x, n), n)
    ensures Quot(x, Mul(n, n)) < n <==> x < Mul(Mul(n, n), n)
  {
    var q, r := x / n, x % n;
    var q', r' := q / n, q % n;
    NestedDigits(x, n, q, r, q', r');
    DivModUnique(x, Mul(n, n), q', r' * n + r);
    QuotBound(x, Mul(n, n), n);
  }

  lemma NestedDigits(x: nat, n: nat, q: nat, r: nat, q': nat, r': nat)
    requires x == q * n + r && q == q' * n + r' && r < n && r' < n
    ensures Mul(n, n) > 0 && x == q' * Mul(n, n) + (r' * n + r) && 0 <= r' * n + r < Mul(n, n)
  {
    MulAssociates(q', n, n);
    MulMonotone(r' + 1, n, n);
  }

  lemma QuotBound(x: nat, d: nat, n: nat)
    requires d > 0
    ensures Quot(x, d) < n <==> x < Mul(d, n)
  {
    var q := x / d;
    assert x == q * d + x % d;
    MulMonotone(q + 1, n, d);
    MulMonotone(n, q, d);
  }

  /** An inode as the mapping sees it: its fifteen block numbers, and the blocks of the device that can be read. */
  datatype Inode = Inode(bits: nat, data: seq<nat>, disk: map<nat, seq<nat>>)

  function Ptrs(ino: Inode): (n: nat)
    ensures n > 0
  {
    Pow2(ino.bits)
  }

  ghost predicate WellFormed(ino: Inode) {
    && Ptrs(ino) >= NDIR_BLOCKS && |ino.data| == N_BLOCKS
    && forall b :: b in ino.disk ==> |ino.disk[b]| == Ptrs(ino)
  }

  /** The table in a block; no block has number 0, which stands for the inode's own table. */
  function Table(ino: Inode, b: nat): seq<nat> {
    if b == 0 then ino.data else if b in ino.disk then ino.disk[b] else []
  }

  function Slot(ino: Inode, b: nat, i: nat): nat {
    if i < |Table(ino, b)| then Table(ino, b)[i] else 0
  }

  /** The block whose table the last offset of a path indexes. */
  function TableFor(ino: Inode, p: seq<nat>): Option<nat>
    decreases |p|, 0
  {
    if |p| <= 1 then Some(0)
    else match Resolve(ino, p[..|p| - 1])
      case None => None
      case Some(b) => if b in ino.disk then Some(b) else None
  }

  /** The block a path leads to, one table after the other; a zero on the way is a hole. */
  function Resolve(ino: Inode, p: seq<nat>): Option<nat>
    decreases |p|, 1
  {
    if p == [] then None
    else match TableFor(ino, p)
      case None => None
      case Some(b) => if Slot(ino, b, p[|p| - 1]) == 0 then None else Some(Slot(ino, b, p[|p| - 1]))
  }

  /** The meaning of the mapping: the disk block that holds block b of the file. */
  function Lookup(ino: Inode, b: nat): (r: Option<nat>)
    ensures r.Some? ==> r.value > 0
  {
    if b < MaxBlocks(Ptrs(ino)) then Resolve(ino, PathOf(Ptrs(ino), b)) else None
  }

  lemma {:induction false} BrokenPrefix(ino: Inode, p: seq<nat>, k: nat)
    requires 0 < k < |p| && (Resolve(ino, p[..k]) == None || Resolve(ino, p[..k]).value !in ino.disk)
    ensures Resolve(ino, p) == None
    decreases |p| - k
  {
    if k + 1 < |p| {
      assert p[..k + 1][..k] == p[..k];
      BrokenPrefix(ino, p, k + 1);
    }
  }

  lemma FirstLink(ino: Inode, p: seq<nat>, c: Indirect)
    requires p != [] && c.table == 0 && c.index == p[0] && Current(ino, c)
    ensures if c.key == 0 then Resolve(ino, p) == None else Linked(ino, p, c, 0)
  {
    assert p[..1] == [p[0]];
    if c.key == 0 && |p| > 1 { BrokenPrefix(ino, p, 1); }
    assert |p| == 1 ==> p == p[..1];
  }

  /** One link of the chain: the number read from an entry of a table. */
  datatype Indirect = Indirect(table: nat, index: nat, key: nat)

  predicate Current(ino: Inode, c: Indirect) { c.key == Slot(ino, c.table, c.index) }

  /** verify_chain: whether the links from the first to the last still hold what was read. */
  method VerifyChain(ino: Inode, chain: array<Indirect>, last: nat) returns (ok: bool)
    requires last < chain.Length
    ensures ok <==> forall i :: 0 <= i <= last ==> Current(ino, chain[i])
  {
    var from := 0;
    while from <= last && chain[from].key == Slot(ino, chain[from].table, chain[from].index)
      invariant 0 <= from <= last + 1 && forall i :: 0 <= i < from ==> Current(ino, chain[i])
    {
      from := from + 1;
    }
    assert from <= last ==> !Current(ino, chain[from]);
    ok := from > last;
  }

  /** The chain follows the path: each link is read from the block the one before it names. */
  ghost predicate Follows(ino: Inode, p: seq<nat>, chain: seq<Indirect>) {
    && |chain| <= |p|
    && forall i :: 0 <= i < |chain| ==> Linked(ino, p, chain[i], i)
  }

  ghost predicate Linked(ino: Inode, p: seq<nat>, c: Indirect, i: nat) {
    && i < |p| && Current(ino, c) && c.index == p[i]
    && TableFor(ino, p[..i + 1]) == Some(c.table) && Resolve(ino, p[..i + 1]) == Some(c.key)
  }

  lemma AllCurrent(ino: Inode, p: seq<nat>, chain: seq<Indirect>)
    requires Follows(ino, p, chain)
    ensures forall i :: 0 <= i < |chain| ==> Current(ino, chain[i])
  {
    forall i | 0 <= i < |chain| ensures Current(ino, chain[i]) {
      assert Linked(ino, p, chain[i], i);
    }
  }

  lemma NextLink(ino: Inode, p: seq<nat>, i: nat, c: Indirect, next: Indirect)
    requires i + 1 < |p| && Linked(ino, p, c, i) && c.key in ino.disk
    requires next == Indirect(c.key, p[i + 1], Slot(ino, c.key, p[i + 1]))
    ensures if next.key == 0 then Resolve(ino, p) == None else Linked(ino, p, next, i + 1)
  {
    assert p[..i + 2][..i + 1] == p[..i + 1];
    if next.key == 0 {
      assert p[..i + 2] == p || i + 2 < |p|;
      if i + 2 < |p| { BrokenPrefix(ino, p, i + 2); }
    }
  }

  /** ext2_get_branch: read the numbers along a path. It panics at a hole or an unreadable block, else fills the
      chain. */
  method GetBranch(ino: Inode, depth: nat, offsets: array<nat>, chain: array<Indirect>) returns (panicked: bool)
    requires 1 <= depth <= 4 && offsets.Length == 4 && chain.Length == 4
    modifies chain
    ensures panicked <==> Resolve(ino, offsets[..depth]) == None
    ensures !panicked ==> Follows(ino, offsets[..depth], chain[..depth])
  {
    hide Resolve, TableFor, Slot;
    ghost var p := offsets[..depth];
    chain[0] := Indirect(0, offsets[0], Slot(ino, 0, offsets[0]));
    FirstLink(ino, p, chain[0]);
    if chain[0].key == 0 {
      return true;
    }
    var i := 0;
    panicked := false;
    while i + 1 < depth
      invariant 0 <= i < depth && Follows(ino, p, chain[..i + 1]) && offsets[..depth] == p
    {
      assert Linked(ino, p, chain[..i + 1][i], i);
      var same := VerifyChain(ino, chain, i);
      assert same by { AllCurrent(ino, p, chain[..i + 1]); }
      if chain[i].key !in ino.disk || !same {
        BrokenPrefix(ino, p, i + 1);
        return true;
      }
      chain[i + 1] := Indirect(chain[i].key, offsets[i + 1], Slot(ino, chain[i].key, offsets[i + 1]));
      NextLink(ino, p, i, chain[i], chain[i + 1]);
      if chain[i + 1].key == 0 {
        return true;
      }
      i := i + 1;
    }
    assert Linked(ino, p, chain[..depth][depth - 1], depth - 1) && p[..depth] == p;
  }

  /** Consecutive blocks of the file in consecutive blocks of the disk. */
  datatype Run = Run(start: nat, count: nat, boundary: bool)

  ghost predicate IsRun(ino: Inode, b: nat, start: nat, count: nat) {
    forall x :: b <= x < b + count ==> Lookup(ino, x) == Some(start + (x - b))
  }

  /** A path that differs in its last offset reads another entry of the same table. */
  lemma Sibling(ino: Inode, p: seq<nat>, x: nat, link: Indirect)
    requires p != [] && Linked(ino, p, link, |p| - 1)
    ensures var key := Slot(ino, link.table, x); Resolve(ino, Prefix(p) + [x]) == if key == 0 then None else Some(key)
    ensures link.key > 0
  {
    var q := Prefix(p) + [x];
    assert p[..|p|] == p && q[..|q| - 1] == p[..|p| - 1];
    hide Slot;
    assert TableFor(ino, q) == TableFor(ino, p);
  }

  /** Up to the boundary, a block's own lookup reads the next entry of the same table. */
  lemma SameTable(ino: Inode, b: nat, c: nat, link: Indirect)
    requires b < MaxBlocks(Ptrs(ino)) && c <= Boundary(Ptrs(ino), b)
    requires var p := PathOf(Ptrs(ino), b); Linked(ino, p, link, |p| - 1)
    ensures var key := Slot(ino, link.table, link.index + c); Lookup(ino, b + c) == if key == 0 then None else Some(key)
    ensures link.key > 0 && link.key == Slot(ino, link.table, link.index)
  {
    hide PathOf, Ptrs, Resolve, TableFor, Slot, Boundary, MaxBlocks;
    var p := PathOf(Ptrs(ino), b);
    BoundaryExact(Ptrs(ino), b, c);
    Sibling(ino, p, Last(p) + c, link);
  }

  /** What ext2_get_blocks reports for block b when asked for at most max blocks. */
  ghost predicate Reports(ino: Inode, b: nat, max: nat, run: Run) {
    && 1 <= run.count <= max && IsRun(ino, b, run.start, run.count)
    && run.count <= Boundary(Ptrs(ino), b) + 1 && (run.boundary <==> run.count == Boundary(Ptrs(ino), b) + 1)
    && (run.boundary || run.count == max || Lookup(ino, b + run.count) != Some(run.start + run.count))
  }

  /** ext2_get_blocks: None when it panics. */
  method GetBlocks(ino: Inode, iblock: int, maxblocks: nat) returns (r: Option<Run>)
    requires WellFormed(ino)
    ensures r.None? <==> maxblocks == 0 || iblock < 0 || Lookup(ino, iblock) == None
    ensures r.Some? ==> Reports(ino, iblock, maxblocks, r.value)
  {
    assert Ptrs(ino) == Pow2(ino.bits);
    hide PathOf, Ptrs, Resolve, Slot, TableFor, Boundary, MaxBlocks;
    if maxblocks == 0 {
      return None;
    }
    var offsets, chain := new nat[4], new Indirect[4];
    var panicked, depth, toBoundary := BlockToPath(ino.bits, Ptrs(ino), iblock, offsets);
    if panicked {
      return None;
    }
    panicked := GetBranch(ino, depth, offsets, chain);
    if panicked {
      return None;
    }
    assert Linked(ino, PathOf(Ptrs(ino), iblock), chain[..depth][depth - 1], depth - 1);
    BoundaryExact(Ptrs(ino), iblock, 0);
    r := MapMore(ino, iblock, maxblocks, chain, depth, toBoundary);
  }

  /** The loop of ext2_get_blocks, once the first block is found. */
  method MapMore(ino: Inode, ghost b: nat, maxblocks: nat, chain: array<Indirect>, depth: nat, toBoundary: int)
    returns (r: Option<Run>)
    requires 1 <= depth <= 4 == chain.Length && maxblocks > 0
    requires b < MaxBlocks(Ptrs(ino)) && 0 <= toBoundary == Boundary(Ptrs(ino), b)
    requires depth == |PathOf(Ptrs(ino), b)| && Follows(ino, PathOf(Ptrs(ino), b), chain[..depth])
    ensures r.Some? && Reports(ino, b, maxblocks, r.value)
  {
    hide PathOf, Ptrs, Resolve, Slot, TableFor, Boundary, Lookup, MaxBlocks;
    ghost var p := PathOf(Ptrs(ino), b);
    var link, again := chain[depth - 1], false;
    assert Linked(ino, p, chain[..depth][depth - 1], depth - 1);
    SameTable(ino, b, 0, link);
    var start, count := link.key, 1;
    while count < maxblocks && count <= toBoundary
      invariant 1 <= count <= maxblocks && count <= toBoundary + 1 && IsRun(ino, b, start, count) && !again
    {
      var same := VerifyChain(ino, chain, depth - 1);
      assert same by { AllCurrent(ino, p, chain[..depth]); }
      SameTable(ino, b, count, link);
      if !same {
        again, count := true, 0;
        break;
      }
      var blk := Slot(ino, link.table, link.index + count);
      if blk != start + count {
        break;
      }
      count := count + 1;
    }
    r := if again then None else Some(Run(start, count, count > toBoundary));
  }

  /** ext2_get_block for a buffer head that asks for the given number of blocks, a number kept in 32 bits. */
  method GetBlock(ino: Inode, iblock: int, blocks: nat) returns (r: Option<Run>)
    requires WellFormed(ino)
    ensures var max := blocks % TWO32;
            if max == 0 || iblock < 0 || Lookup(ino, iblock) == None then r == None
            else r.Some? && Reports(ino, iblock, max, r.value)
  {
    r := GetBlocks(ino, iblock, blocks % TWO32);
  }
}
