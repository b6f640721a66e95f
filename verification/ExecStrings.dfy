/** Copying the program's name, environment and arguments to the new stack, from the top down. */
module ExecStrings {
  import opened Bits
  import opened UserMemory

  const MAX_ARG_STRLEN: nat := 131072
  const STACK_TOP: nat := 0x40_0000_0000
  const STK_LIM: nat := 0x80_0000
  const ARG_MAX: nat := 131072

  /** C strings: no NUL inside. */
  ghost predicate NoNul(s: seq<Byte>) {
    forall i :: 0 <= i < |s| ==> s[i] != 0
  }

  function Terminated(s: seq<Byte>): seq<Byte> { s + [0] }

  /** The strings one after the other, each with its NUL. */
  function Packed(ss: seq<seq<Byte>>): seq<Byte> {
    if ss == [] then [] else Terminated(ss[0]) + Packed(ss[1..])
  }

  ghost predicate ShortEnough(ss: seq<seq<Byte>>) {
    forall i :: 0 <= i < |ss| ==> |ss[i]| + 1 <= MAX_ARG_STRLEN
  }

  /** Bytes of the next chunk: up to the start of the page that holds the byte below pos. */
  function Chunk(pos: nat, len: nat): nat {
    Min(len, if pos % PAGE_SIZE == 0 then PAGE_SIZE else pos % PAGE_SIZE)
  }

  class Bprm {
    var mem: seq<Byte>
    var p: nat
    var argmin: int
    var exec: nat

    /** A fresh stack whose top word is left unused. */
    constructor (mem: seq<Byte>)
      requires |mem| == STACK_TOP
      ensures this.mem == mem && p == STACK_TOP - 8 && argmin == 0 && exec == 0
    {
      this.mem, p, argmin, exec := mem, STACK_TOP - 8, 0, 0;
    }

    /** bprm_stack_limits: how far down the strings may reach; false for -E2BIG. */
    method StackLimits(argc: nat, envc: nat, rlimit: nat) returns (ok: bool)
      modifies this`argmin
      ensures ok <==> (argc + envc) * 8 < StringLimit(rlimit)
      ensures ok ==> argmin == p - (StringLimit(rlimit) - (argc + envc) * 8)
      ensures !ok ==> argmin == old(argmin)
    {
      var limit := STK_LIM / 4 * 3;
      limit := Min(limit, rlimit / 4);
      limit := Max(limit, ARG_MAX);
      var ptrSize := (argc + envc) * 8;
      if limit <= ptrSize {
        return false;
      }
      limit := limit - ptrSize;
      argmin := p - limit;
      ok := true;
    }

    /** Write bytes that lie within one page. */
    method WriteInPage(pos: nat, bs: seq<Byte>)
      requires pos % PAGE_SIZE + |bs| <= PAGE_SIZE && pos + |bs| <= |mem|
      modifies this`mem
      ensures mem == Poke(old(mem), pos, bs)
    {
      mem := Poke(mem, pos, bs);
    }

    /**
     copy_string_kernel: the string and its NUL stand just below the old p,
     nothing else changes; false for -E2BIG.
     */
    method CopyString(arg: seq<Byte>) returns (ok: bool)
      requires NoNul(arg) && MAX_ARG_STRLEN <= argmin <= p <= |mem|
      modifies this`mem, this`p
      ensures ok <==> |arg| + 1 <= MAX_ARG_STRLEN && old(p) - (|arg| + 1) >= argmin
      ensures ok ==> p == old(p) - (|arg| + 1)
      ensures ok ==> Holds(mem, p, Terminated(arg)) && SameOutside(old(mem), mem, p, old(p))
      ensures !ok ==> mem == old(mem)
    {
      var pos, len := p, Min(|arg|, MAX_ARG_STRLEN) + 1;
      if len > MAX_ARG_STRLEN {
        return false;
      }
      p := p - len;
      if p < argmin {
        return false;
      }
      CopyChunks(pos, Terminated(arg));
      ok := true;
    }

    /**
     copy_strings_kernel: last string first, so that they end up in order below
     the old p; false for -E2BIG.
     */
    method CopyStrings(argv: seq<seq<Byte>>) returns (ok: bool)
      requires (forall i :: 0 <= i < |argv| ==> NoNul(argv[i])) && MAX_ARG_STRLEN <= argmin <= p <= |mem|
      modifies this`mem, this`p
      ensures ok <==> ShortEnough(argv) && old(p) - |Packed(argv)| >= argmin
      ensures ok ==> p == old(p) - |Packed(argv)|
      ensures ok ==> Holds(mem, p, Packed(argv)) && SameOutside(old(mem), mem, p, old(p))
    {
      var argc := |argv|;
      assert argv[argc..] == [];
      while argc > 0
        invariant 0 <= argc <= |argv| && argmin <= p == old(p) - |Packed(argv[argc..])|
        invariant Holds(mem, p, Packed(argv[argc..])) && SameOutside(old(mem), mem, p, old(p))
        invariant ShortEnough(argv[argc..])
      {
        ghost var mem0, p0 := mem, p;
        argc := argc - 1;
        PackedCons(argv, argc);
        ok := CopyString(argv[argc]);
        if !ok {
          PackedBound(argv, argc);
          return;
        }
        HoldsKept(mem0, mem, p, p0, p0, Packed(argv[argc + 1..]));
        HoldsJoin(mem, p, Terminated(argv[argc]), Packed(argv[argc + 1..]));
        SameOutsideTrans(old(mem), mem0, mem, p, p0, old(p));
      }
      assert argv[0..] == argv;
      ok := true;
    }

    /** The copy loop: page-sized pieces from the end of the string towards its start. */
    method CopyChunks(top: nat, s: seq<Byte>)
      requires |s| <= top <= |mem|
      modifies this`mem
      ensures Holds(mem, top - |s|, s) && SameOutside(old(mem), mem, top - |s|, top)
    {
      var pos, len := top, |s|;
      assert s[|s|..] == [];
      while len > 0
        invariant 0 <= len <= |s| && pos == top - (|s| - len) && |mem| == |old(mem)|
        invariant Holds(mem, pos, s[len..]) && SameOutside(old(mem), mem, pos, top)
      {
        var bytes := Chunk(pos, len);
        ghost var mem0 := mem;
        ChunkInPage(pos, bytes, len);
        pos := pos - bytes;
        len := len - bytes;
        WriteInPage(pos, s[len..len + bytes]);
        PokeIs(mem0, pos, s[len..len + bytes]);
        HoldsKept(mem0, mem, pos, pos + bytes, pos + bytes, s[len + bytes..]);
        HoldsJoin(mem, pos, s[len..len + bytes], s[len + bytes..]);
        assert s[len..] == s[len..len + bytes] + s[len + bytes..];
        SameOutsideTrans(old(mem), mem0, mem, pos, pos + bytes, top);
      }
      assert s[0..] == s;
    }
  }

  lemma PackedCons(ss: seq<seq<Byte>>, k: nat)
    requires k < |ss|
    ensures Packed(ss[k..]) == Terminated(ss[k]) + Packed(ss[k + 1..])
    ensures ShortEnough(ss[k..]) <==> |ss[k]| + 1 <= MAX_ARG_STRLEN && ShortEnough(ss[k + 1..])
  {
    assert ss[k..][0] == ss[k] && ss[k..][1..] == ss[k + 1..];
    if |ss[k]| + 1 <= MAX_ARG_STRLEN && ShortEnough(ss[k + 1..]) {
      forall i | 0 <= i < |ss[k..]| ensures |ss[k..][i]| + 1 <= MAX_ARG_STRLEN {
        if i > 0 { assert ss[k..][i] == ss[k + 1..][i - 1]; }
      }
    }
    if ShortEnough(ss[k..]) {
      var t := ss[k + 1..];
      forall i | 0 <= i < |t| ensures |t[i]| + 1 <= MAX_ARG_STRLEN { assert t[i] == ss[k..][i + 1]; }
    }
  }

  /** A tail takes no more room than the whole, and is no harder to satisfy. */
  lemma {:induction false} PackedBound(ss: seq<seq<Byte>>, k: nat)
    requires k <= |ss|
    ensures |Packed(ss[k..])| <= |Packed(ss)| && (ShortEnough(ss) ==> ShortEnough(ss[k..]))
  {
    if k == 0 {
      assert ss[0..] == ss;
    } else {
      PackedBound(ss, k - 1);
      PackedCons(ss, k - 1);
    }
  }

  function StringLimit(rlimit: nat): nat {
    Max(Min(STK_LIM / 4 * 3, rlimit / 4), ARG_MAX)
  }

  /** A chunk never crosses a page boundary. */
  lemma ChunkInPage(pos: nat, bytes: nat, len: nat)
    requires bytes == Chunk(pos, len) && 0 < len <= pos
    ensures 0 < bytes <= len && (pos - bytes) % PAGE_SIZE + bytes <= PAGE_SIZE
  {
  }
}
