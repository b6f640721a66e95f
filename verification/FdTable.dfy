/** File descriptor allocation over a two-level bitmap. */
module FdTable {
  import opened Bits
  import opened Words
  import opened Bitmap

  datatype Outcome = Fd(fd: nat) | Emfile | Panic | Done
  datatype Op = Alloc(start: nat, end: nat, cloexec: bool) | Put(fd: nat)

  /** The lowest number at or after start that is not in use, as far as the table goes. */
  function Lowest(used: set<nat>, max: nat, start: nat): (fd: nat)
    ensures fd >= start
    decreases max - start
  {
    if start >= max || start !in used then start else Lowest(used, max, start + 1)
  }

  function FlatAlloc(used: set<nat>, max: nat, start: nat, end: nat): Outcome {
    var fd := Lowest(used, max, start);
    if fd >= end then Emfile else if fd >= max then Panic else Fd(fd)
  }

  /** The same calls on a plain set of open descriptors. */
  function FlatRun(used: set<nat>, max: nat, ops: seq<Op>): (seq<Outcome>, set<nat>) {
    if ops == [] then ([], used)
    else
      var (rs, now) := FlatRun(used, max, ops[..|ops| - 1]);
      match ops[|ops| - 1]
      case Alloc(start, end, _) =>
        var r := FlatAlloc(now, max, start, end);
        (rs + [r], if r.Fd? then now + {r.fd} else now)
      case Put(fd) => (rs + [Done], now - {fd})
  }

  lemma FlatRunEmpty(used: set<nat>, max: nat)
    ensures FlatRun(used, max, []) == ([], used)
  {
  }

  lemma FlatRunGrows(used: set<nat>, max: nat, ops: seq<Op>, op: Op)
    ensures var (rs, now) := FlatRun(used, max, ops);
            FlatRun(used, max, ops + [op]) ==
              match op
              case Alloc(start, end, _) =>
                var r := FlatAlloc(now, max, start, end);
                (rs + [r], if r.Fd? then now + {r.fd} else now)
              case Put(fd) => (rs + [Done], now - {fd})
  {
    assert (ops + [op])[..|ops|] == ops;
  }

  /** Lowest, found by its properties. */
  lemma {:induction false} LowestIs(used: set<nat>, max: nat, start: nat, fd: nat)
    requires start <= fd && (fd >= max || fd !in used) && (start < fd ==> fd <= max)
    requires forall i: nat :: start <= i < fd ==> i in used
    ensures Lowest(used, max, start) == fd
    decreases fd - start
  {
    if start < fd {
      LowestIs(used, max, start + 1, fd);
    }
  }

  /** The three outcomes told by which descriptors are open. */
  lemma FlatAllocIs(used: set<nat>, m: seq<nat>, max: nat, start: nat, end: nat, r: Outcome)
    requires forall i: nat :: i in used <==> i < max && BitAt(m, i)
    requires forall i: nat :: BitAt(m, i) ==> i < max
    requires r == Emfile <==> forall i: nat :: start <= i < end ==> BitAt(m, i)
    requires r == Panic <==> (max < end && start < end && forall i: nat :: start <= i < max ==> BitAt(m, i))
    requires r.Fd? ==> start <= r.fd < end && r.fd < max && !BitAt(m, r.fd)
    requires r.Fd? ==> forall i: nat :: start <= i < r.fd ==> BitAt(m, i)
    requires r != Done
    ensures FlatAlloc(used, max, start, end) == r
  {
    hide BitAt;
    match r
    case Fd(fd) => LowestIs(used, max, start, fd);
    case Panic => LowestIs(used, max, start, if start < max then max else start);
    case Emfile =>
      assert start < end ==> BitAt(m, end - 1);
      LowestAtLeast(used, max, start, end);
  }

  lemma {:induction false} LowestAtLeast(used: set<nat>, max: nat, start: nat, end: nat)
    requires (start < end ==> end <= max) && forall i: nat :: start <= i < end ==> i in used
    ensures Lowest(used, max, start) >= end
    decreases end - start
  {
    if start < end {
      LowestAtLeast(used, max, start + 1, end);
    }
  }

  lemma AllOnes(a: nat, j: nat)
    requires a == TWO64 - 1
    ensures Bit(a, j) <==> j < WORD
  {
    FirstMaskBits(0, j);
    assert FirstWordMask(0) == a;
  }

  ghost predicate AllSet(a: nat) { forall j: nat :: j < WORD ==> Bit(a, j) }

  /** The full word is the one with all its bits set. */
  lemma FullWord(a: nat)
    requires a < TWO64
    ensures a == TWO64 - 1 <==> AllSet(a)
  {
    if a == TWO64 - 1 {
      forall j: nat | j < WORD ensures Bit(a, j) {
        AllOnes(a, j);
      }
    } else if AllSet(a) {
      FullIsOnes(a, TWO64 - 1);
    }
  }

  lemma FullIsOnes(a: nat, ones: nat)
    requires a < TWO64 && AllSet(a) && ones == TWO64 - 1
    ensures a == ones
  {
    PowersOfTwo();
    forall j: nat ensures Bit(a, j) <==> Bit(ones, j) {
      AllOnes(ones, j);
      if j >= WORD { HighBits(a, WORD, j); }
    }
    SameBits(a, ones);
  }

  /** __set_bit. */
  method SetBit(m: array<nat>, i: nat)
    requires i < m.Length * WORD && IsMap(m[..])
    modifies m
    ensures IsMap(m[..]) && forall j: nat :: BitAt(m[..], j) <==> BitAt(old(m[..]), j) || j == i
  {
    var mask := Pow2(i % WORD);
    m[i / WORD] := Or(m[i / WORD], mask);
    OneBitMask(i % WORD);
    WordSet(old(m[..]), m[..], i / WORD, mask, i % WORD, i % WORD + 1);
    hide BitAt;
    assert i / WORD * WORD + i % WORD == i;
  }

  lemma OneBitMask(s: nat)
    requires s < WORD
    ensures MaskIs(Pow2(s), s, s + 1)
  {
    Pow2Less(s);
    forall j: nat ensures Bit(Pow2(s), j) <==> j == s {
      BitOfMask(s + 1, s, j);
      assert Pow2(s + 1) - Pow2(s) == Pow2(s);
    }
  }

  /** __clear_bit. */
  method ClearBit(m: array<nat>, i: nat)
    requires i < m.Length * WORD && IsMap(m[..])
    modifies m
    ensures IsMap(m[..]) && forall j: nat :: BitAt(m[..], j) <==> BitAt(old(m[..]), j) && j != i
  {
    var mask := Xor(Pow2(i % WORD), TWO64 - 1);
    m[i / WORD] := And(m[i / WORD], mask);
    OneBitMask(i % WORD);
    AndBelow(old(m[i / WORD]), mask);
    forall j: nat ensures BitAt(m[..], j) <==> BitAt(old(m[..]), j) && j != i {
      BitOfAnd(old(m[i / WORD]), mask, j % WORD);
      BitOfNot(Pow2(i % WORD), j % WORD);
      SamePlace(i, j);
    }
  }

  lemma SamePlace(i: nat, j: nat)
    ensures i == j <==> i / WORD == j / WORD && i % WORD == j % WORD
  {
  }

  class Files {
    const maxFds: nat
    const openFds: array<nat>
    const fullBits: array<nat>
    const closeOnExec: array<nat>
    var nextFd: nat

    ghost predicate Maps()
      reads this, openFds, fullBits, closeOnExec
    {
      && openFds != fullBits && openFds != closeOnExec && fullBits != closeOnExec
      && openFds.Length * WORD >= maxFds
      && fullBits.Length * WORD >= openFds.Length && closeOnExec.Length * WORD >= maxFds
      && IsMap(openFds[..]) && IsMap(fullBits[..]) && IsMap(closeOnExec[..])
      && TwoLevel(openFds[..], fullBits[..])
      && (forall fd: nat :: BitAt(openFds[..], fd) ==> fd < maxFds)
    }

    /** The two levels agree, no bit lies beyond the table, and every descriptor below nextFd is open. */
    ghost predicate Valid()
      reads this, openFds, fullBits, closeOnExec
    {
      Maps() && forall fd: nat :: fd < nextFd ==> BitAt(openFds[..], fd)
    }

    /** An empty table. */
    constructor (max: nat)
      ensures Valid() && maxFds == max && nextFd == 0 && forall fd: nat :: !BitAt(openFds[..], fd)
      ensures fresh(openFds) && fresh(fullBits) && fresh(closeOnExec)
    {
      var words := (max + WORD - 1) / WORD;
      maxFds, nextFd := max, 0;
      openFds := new nat[words](i => 0);
      fullBits := new nat[words](i => 0);
      closeOnExec := new nat[words](i => 0);
      new;
      forall fd: nat ensures !BitAt(openFds[..], fd) && !BitAt(fullBits[..], fd) {
        ZeroBits(fd % WORD);
      }
    }

    /** find_next_fd: the first closed descriptor at or after start, or the size of the table. */
    method FindNextFd(start0: nat) returns (fd: nat)
      requires Valid() && start0 < maxFds
      ensures start0 <= fd <= maxFds && (fd < maxFds ==> !BitAt(openFds[..], fd))
      ensures forall i: nat :: start0 <= i < fd ==> BitAt(openFds[..], i)
    {
      hide BitAt;
      var start, maxbit := start0, maxFds / WORD;
      var word := FindNextBit(fullBits, maxbit, start / WORD, true);
      FullWordsOpen(start0, word);
      var bitbit := word * WORD;
      if bitbit > start {
        start := bitbit;
      }
      fd := FindNextBit(openFds, maxFds, start, true);
      if bitbit > maxFds {
        fd := maxFds;
      }
    }

    /** The words the upper level skips hold only open descriptors. */
    lemma FullWordsOpen(start: nat, word: nat)
      requires Valid() && word <= maxFds / WORD
      requires start / WORD < maxFds / WORD ==> AllBits(fullBits[..], start / WORD, word, true)
      requires start / WORD >= maxFds / WORD ==> word == maxFds / WORD
      ensures forall i: nat :: start <= i < word * WORD ==> BitAt(openFds[..], i)
    {
      forall i: nat | start <= i < word * WORD ensures BitAt(openFds[..], i) {
        assert BitAt(fullBits[..], i / WORD);
        AllOnes(openFds[i / WORD], i % WORD);
      }
    }

    /** __set_open_fd. */
    method SetOpenFd(fd: nat)
      requires Maps() && fd < maxFds
      modifies openFds, fullBits
      ensures Maps() && forall i: nat :: BitAt(openFds[..], i) <==> BitAt(old(openFds[..]), i) || i == fd
    {
      hide BitAt;
      SetBit(openFds, fd);
      var w := fd / WORD;
      if openFds[w] == TWO64 - 1 {
        SetBit(fullBits, w);
      }
      SetKeeps(old(openFds[..]), openFds[..], old(fullBits[..]), fullBits[..], fd);
    }

    /** __clear_open_fd. */
    method ClearOpenFd(fd: nat)
      requires Maps() && fd < maxFds
      modifies openFds, fullBits
      ensures Maps() && forall i: nat :: BitAt(openFds[..], i) <==> BitAt(old(openFds[..]), i) && i != fd
    {
      hide BitAt;
      ClearBit(openFds, fd);
      ClearBit(fullBits, fd / WORD);
      ClearKeeps(old(openFds[..]), openFds[..], old(fullBits[..]), fullBits[..], fd);
    }

    /** __alloc_fd. It takes the lowest closed descriptor at or after start, if that lies below end and in the table. */
    method AllocFd(start: nat, end: nat, cloexec: bool) returns (r: Outcome)
      requires Valid()
      modifies this`nextFd, openFds, fullBits, closeOnExec
      ensures Valid()
      ensures r != Done
      ensures r == Emfile <==> forall i: nat :: start <= i < end ==> BitAt(old(openFds[..]), i)
      ensures r == Panic <==> && maxFds < end && start < end
                              && forall i: nat :: start <= i < maxFds ==> BitAt(old(openFds[..]), i)
      ensures r.Fd? ==>
                && start <= r.fd < end && r.fd < maxFds && !BitAt(old(openFds[..]), r.fd)
                && (forall i: nat :: start <= i < r.fd ==> BitAt(old(openFds[..]), i))
                && (forall i: nat :: BitAt(openFds[..], i) <==> BitAt(old(openFds[..]), i) || i == r.fd)
                && (forall i: nat :: BitAt(closeOnExec[..], i) <==>
                                     if i == r.fd then cloexec else BitAt(old(closeOnExec[..]), i))
      ensures !r.Fd? ==> openFds[..] == old(openFds[..]) && closeOnExec[..] == old(closeOnExec[..])
      ensures !r.Fd? ==> nextFd == old(nextFd)
    {
      hide BitAt;
      var fd := start;
      if fd < nextFd {
        fd := nextFd;
      }
      if fd < maxFds {
        fd := FindNextFd(fd);
      }
      assert openFds[..] == old(openFds[..]);
      assert !BitAt(openFds[..], fd) && !BitAt(openFds[..], maxFds) && (start >= maxFds ==> !BitAt(openFds[..], start));
      if fd >= end {
        return Emfile;
      }
      if fd >= maxFds {
        return Panic;
      }
      if start <= nextFd {
        nextFd := fd + 1;
      }
      SetOpenFd(fd);
      if cloexec {
        SetBit(closeOnExec, fd);
      } else {
        ClearBit(closeOnExec, fd);
      }
      return Fd(fd);
    }

    ghost function OpenSet(): set<nat>
      reads this, openFds
    {
      set i: nat | i < maxFds && BitAt(openFds[..], i)
    }

    /** Any sequence of calls gives, call for call, what searching a plain set for the lowest number would. */
    method Run(ops: seq<Op>) returns (results: seq<Outcome>)
      requires Valid() && forall k :: 0 <= k < |ops| && ops[k].Put? ==> ops[k].fd < maxFds
      modifies this`nextFd, openFds, fullBits, closeOnExec
      ensures Valid() && |results| == |ops| && FlatRun(old(OpenSet()), maxFds, ops) == (results, OpenSet())
    {
      hide BitAt, FlatRun, FlatAlloc;
      results := [];
      FlatRunEmpty(OpenSet(), maxFds);
      assert ops[..0] == [];
      for k := 0 to |ops|
        invariant Valid() && |results| == k && FlatRun(old(OpenSet()), maxFds, ops[..k]) == (results, OpenSet())
      {
        ghost var was := OpenSet();
        FlatRunGrows(old(OpenSet()), maxFds, ops[..k], ops[k]);
        assert ops[..k + 1] == ops[..k] + [ops[k]];
        match ops[k]
        case Alloc(start, end, cloexec) =>
          ghost var m := openFds[..];
          var r := AllocFd(start, end, cloexec);
          FlatAllocIs(was, m, maxFds, start, end, r);
          assert OpenSet() == if r.Fd? then was + {r.fd} else was;
          results := results + [r];
        case Put(fd) =>
          PutUnusedFd(fd);
          assert OpenSet() == was - {fd};
          results := results + [Done];
      }
      assert ops[..|ops|] == ops;
    }

    /** __put_unused_fd. */
    method PutUnusedFd(fd: nat)
      requires Valid() && fd < maxFds
      modifies this`nextFd, openFds, fullBits
      ensures Valid() && forall i: nat :: BitAt(openFds[..], i) <==> BitAt(old(openFds[..]), i) && i != fd
    {
      hide BitAt;
      ClearOpenFd(fd);
      if fd < nextFd {
        nextFd := fd;
      }
    }
  }

  /** A bit of the upper level is set exactly when its word of the lower level is all ones. */
  ghost predicate TwoLevel(m: seq<nat>, full: seq<nat>) {
    forall w: nat :: w < |m| ==> (BitAt(full, w) <==> m[w] == TWO64 - 1)
  }

  lemma SetKeeps(was: seq<nat>, now: seq<nat>, full: seq<nat>, full': seq<nat>, fd: nat)
    requires |was| == |now| && IsMap(was) && IsMap(now) && TwoLevel(was, full) && fd / WORD < |was|
    requires forall i: nat :: BitAt(now, i) <==> BitAt(was, i) || i == fd
    requires forall w: nat :: BitAt(full', w) <==> BitAt(full, w) || (w == fd / WORD && now[w] == TWO64 - 1)
    ensures TwoLevel(now, full')
  {
    hide BitAt;
    OtherWords(was, now, fd);
    FullStays(was, now, fd);
  }

  lemma ClearKeeps(was: seq<nat>, now: seq<nat>, full: seq<nat>, full': seq<nat>, fd: nat)
    requires |was| == |now| && IsMap(was) && IsMap(now) && TwoLevel(was, full) && fd / WORD < |was|
    requires forall i: nat :: BitAt(now, i) <==> BitAt(was, i) && i != fd
    requires forall w: nat :: BitAt(full', w) <==> BitAt(full, w) && w != fd / WORD
    ensures TwoLevel(now, full')
  {
    hide BitAt;
    OtherWords(was, now, fd);
    NotFull(now, fd);
  }

  /** When maps differ at most in one bit, the words without it are the same. */
  lemma OtherWords(was: seq<nat>, now: seq<nat>, fd: nat)
    requires |was| == |now| && IsMap(was) && IsMap(now)
    requires forall i: nat :: i != fd ==> (BitAt(now, i) <==> BitAt(was, i))
    ensures forall w :: 0 <= w < |was| && w != fd / WORD ==> now[w] == was[w]
  {
    forall w | 0 <= w < |was| && w != fd / WORD ensures now[w] == was[w] {
      SameWord(was, now, w, fd);
    }
  }

  lemma SameWord(was: seq<nat>, now: seq<nat>, w: nat, fd: nat)
    requires |was| == |now| && IsMap(was) && IsMap(now)
    requires forall i: nat :: i != fd ==> (BitAt(now, i) <==> BitAt(was, i))
    requires w < |was| && w != fd / WORD
    ensures now[w] == was[w]
  {
    PowersOfTwo();
    forall j: nat ensures Bit(now[w], j) <==> Bit(was[w], j) {
      if j >= WORD {
        HighBits(now[w], WORD, j);
        HighBits(was[w], WORD, j);
      } else {
        InWord(w, j);
        assert BitAt(now, w * WORD + j) <==> BitAt(was, w * WORD + j);
      }
    }
    SameBits(now[w], was[w]);
  }

  /** A full word stays full when a bit is set. */
  lemma FullStays(was: seq<nat>, now: seq<nat>, fd: nat)
    requires |was| == |now| && IsMap(was) && IsMap(now) && fd / WORD < |was|
    requires forall i: nat :: BitAt(was, i) ==> BitAt(now, i)
    ensures was[fd / WORD] == TWO64 - 1 ==> now[fd / WORD] == TWO64 - 1
  {
    var w := fd / WORD;
    FullWord(was[w]);
    FullWord(now[w]);
    forall j: nat | j < WORD && Bit(was[w], j) ensures Bit(now[w], j) {
      InWord(w, j);
      assert BitAt(was, w * WORD + j);
    }
  }

  lemma NotFull(m: seq<nat>, fd: nat)
    requires IsMap(m) && fd / WORD < |m| && !BitAt(m, fd)
    ensures m[fd / WORD] != TWO64 - 1
  {
    FullWord(m[fd / WORD]);
  }
}
