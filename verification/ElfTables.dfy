/** create_elf_tables: argc, the argv, envp and auxv tables below the strings. */
module ElfTables {
  import opened Bits
  import opened UserMemory
  import WordAtATime
  import opened ExecStrings

  const AT_PHDR: nat := 3
  const AT_PHENT: nat := 4
  const AT_PHNUM: nat := 5
  const AT_PAGESZ: nat := 6
  const AT_BASE: nat := 7
  const AT_FLAGS: nat := 8
  const AT_ENTRY: nat := 9
  const AT_SECURE: nat := 23
  const AT_RANDOM: nat := 25
  const AT_EXECFN: nat := 31
  const PHDR_SIZE: nat := 56

  /** What the loader knows about the program. */
  datatype Program = Program(phdr: nat, phnum: nat, base: nat, entry: nat, secure: nat) {
    predicate Valid() { phdr < TWO64 && phnum < TWO64 && base < TWO64 && entry < TWO64 && secure < TWO64 }
  }

  /** The auxiliary vector with its AT_NULL terminator. */
  function Auxv(g: Program, random: nat, execfn: nat): (ws: seq<nat>)
    ensures |ws| == 22
  {
    [AT_PAGESZ, PAGE_SIZE, AT_PHDR, g.phdr, AT_PHENT, PHDR_SIZE, AT_PHNUM, g.phnum, AT_BASE, g.base,
     AT_FLAGS, 0, AT_ENTRY, g.entry, AT_SECURE, g.secure, AT_RANDOM, random, AT_EXECFN, execfn, 0, 0]
  }

  /** Where each of the packed strings starts. */
  function Pointers(ss: seq<seq<Byte>>, start: nat): (ps: seq<nat>)
    ensures |ps| == |ss|
  {
    if ss == [] then [] else [start] + Pointers(ss[1..], start + |ss[0]| + 1)
  }

  /** Each pointer is the address of its string, intact and NUL-terminated. */
  lemma {:induction false} PointersAt(m: seq<Byte>, start: nat, ss: seq<seq<Byte>>, i: nat)
    requires Holds(m, start, Packed(ss)) && i < |ss|
    ensures Holds(m, Pointers(ss, start)[i], Terminated(ss[i]))
    decreases |ss|
  {
    HoldsJoin(m, start, Terminated(ss[0]), Packed(ss[1..]));
    if i > 0 { PointersAt(m, start + |ss[0]| + 1, ss[1..], i - 1); }
  }

  /** put_user at the end of a table. */
  method AppendWord(b: Bprm, at: nat, v: nat, ghost base: nat, ghost ws: seq<nat>)
    requires Words(b.mem, base, ws) && at == base + 8 * |ws| && at + 8 <= |b.mem| && v < TWO64
    modifies b`mem
    ensures Words(b.mem, base, ws + [v]) && SameOutside(old(b.mem), b.mem, at, at + 8)
  {
    ghost var mem0 := b.mem;
    Pow256Of8();
    var bs := Encode(v, 8);
    b.mem := Poke(b.mem, at, bs);
    PokeIs(mem0, at, bs);
    WordsGrow(mem0, b.mem, base, ws, v);
  }

  lemma WordsGrow(m: seq<Byte>, m': seq<Byte>, base: nat, ws: seq<nat>, v: nat)
    requires Words(m, base, ws) && Word(m', base + 8 * |ws|, v)
    requires SameOutside(m, m', base + 8 * |ws|, base + 8 * |ws| + 8)
    ensures Words(m', base, ws + [v])
  {
    var at := base + 8 * |ws|;
    forall i | 0 <= i < |ws| + 1 ensures Word(m', base + 8 * i, (ws + [v])[i]) {
      if i < |ws| { WordKept(m, m', at, at + 8, base + 8 * i, ws[i]); }
    }
  }

  /** Where a packed string ends. */
  lemma StringEnds(m: seq<Byte>, p: nat, s: seq<Byte>)
    requires Holds(m, p, Terminated(s)) && NoNul(s)
    ensures p + |s| < |m| && m[p + |s|] == 0 && WordAtATime.NulFree(m, p, p + |s|)
  {
    assert forall k :: 0 <= k <= |s| ==> m[p + k] == m[p..p + |s| + 1][k] == Terminated(s)[k];
    forall i | p <= i < p + |s| && i < |m| ensures m[i] != 0 {
      assert m[p + (i - p)] == Terminated(s)[i - p];
    }
  }

  /** The call of strnlen_user on a packed string. */
  method StringLength(m: seq<Byte>, p: nat, ghost s: seq<Byte>) returns (len: nat)
    requires |m| % 8 == 0 && Holds(m, p, Terminated(s)) && NoNul(s) && |s| + 1 <= MAX_ARG_STRLEN
    ensures len == |s| + 1
  {
    StringEnds(m, p, s);
    len := WordAtATime.StrnlenUser(m, p, MAX_ARG_STRLEN);
  }

  /** One round of the loop: the pointer to the string at p, and the string's length. */
  method PutPointer(b: Bprm, at: nat, p: nat, ghost base: nat, ghost done: seq<nat>, ghost s: seq<Byte>,
                    ghost rest: seq<Byte>)
    returns (len: nat)
    requires Words(b.mem, base, done) && at == base + 8 * |done| && at + 8 <= p && |b.mem| <= TWO64 && |b.mem| % 8 == 0
    requires Holds(b.mem, p, Terminated(s) + rest) && NoNul(s) && |s| + 1 <= MAX_ARG_STRLEN
    modifies b`mem
    ensures len == |s| + 1 && Words(b.mem, base, done + [p]) && Holds(b.mem, p + len, rest)
    ensures |b.mem| == |old(b.mem)| && SameOutside(old(b.mem), b.mem, at, at + 8)
  {
    hide Words, NoNul;
    ghost var mem0 := b.mem;
    AppendWord(b, at, p, base, done);
    HoldsKept(mem0, b.mem, at, at + 8, p, Terminated(s) + rest);
    HoldsJoin(b.mem, p, Terminated(s), rest);
    len := StringLength(b.mem, p, s);
  }

  lemma SameOutsideRefl(m: seq<Byte>, lo: int)
    ensures SameOutside(m, m, lo, lo)
  {
  }

  /**
   The loop that walks the strings and stores a pointer to each: the pointers
   are the start addresses, and the walk ends behind the last string.
   */
  method PutPointers(b: Bprm, at0: nat, p0: nat, n: nat, ghost base: nat, ghost ws: seq<nat>, ghost ss: seq<seq<Byte>>)
    returns (at: nat, p: nat)
    requires Words(b.mem, base, ws) && at0 == base + 8 * |ws| && at0 + 8 * n <= p0 && |b.mem| <= TWO64
             && |b.mem| % 8 == 0
    requires Holds(b.mem, p0, Packed(ss)) && n == |ss| && ShortEnough(ss) && forall i :: 0 <= i < n ==> NoNul(ss[i])
    modifies b`mem
    ensures at == at0 + 8 * n && p == p0 + |Packed(ss)|
    ensures Words(b.mem, base, ws + Pointers(ss, p0)) && SameOutside(old(b.mem), b.mem, at0, at)
  {
    hide Words, Pointers, Packed, NoNul, Holds, SameOutside, Underway;
    at, p := at0, p0;
    var left := n;
    ghost var done, k := ws, 0;
    SameOutsideRefl(b.mem, at0);
    UnderwayStarts(ss, p0, ws);
    while left > 0
      invariant 0 <= k <= n && left == n - k && at == at0 + 8 * k && at == base + 8 * |done| && p0 <= p
      invariant Words(b.mem, base, done) && SameOutside(old(b.mem), b.mem, at0, at)
      invariant Holds(b.mem, p, Packed(ss[k..])) && |b.mem| == |old(b.mem)| && Underway(ss, p0, ws, k, p, done)
    {
      ghost var mem0 := b.mem;
      PackedCons(ss, k);
      var len := PutPointer(b, at, p, base, done, ss[k], Packed(ss[k + 1..]));
      UnderwayGoesOn(ss, p0, ws, k, p, done);
      SameOutsideUp(old(b.mem), mem0, b.mem, at0, at, at + 8);
      done := done + [p];
      p, at, left, k := p + len, at + 8, left - 1, k + 1;
    }
    UnderwayEnds(ss, p0, ws, p, done);
  }

  /** After k strings: the words stored and the pointers still to come are all of them, and p leads to the rest. */
  ghost predicate Underway(ss: seq<seq<Byte>>, p0: nat, ws: seq<nat>, k: nat, p: nat, done: seq<nat>)
    requires k <= |ss|
  {
    done + Pointers(ss[k..], p) == ws + Pointers(ss, p0) && p + |Packed(ss[k..])| == p0 + |Packed(ss)|
  }

  lemma UnderwayStarts(ss: seq<seq<Byte>>, p0: nat, ws: seq<nat>)
    ensures ss[0..] == ss && Underway(ss, p0, ws, 0, p0, ws)
  {
    assert ss[0..] == ss;
  }

  lemma UnderwayGoesOn(ss: seq<seq<Byte>>, p0: nat, ws: seq<nat>, k: nat, p: nat, done: seq<nat>)
    requires k < |ss| && Underway(ss, p0, ws, k, p, done)
    ensures Underway(ss, p0, ws, k + 1, p + |ss[k]| + 1, done + [p])
  {
    PackedCons(ss, k);
    PointersCons(ss, k, p, done);
    hide Pointers, Packed;
  }

  lemma UnderwayEnds(ss: seq<seq<Byte>>, p0: nat, ws: seq<nat>, p: nat, done: seq<nat>)
    requires Underway(ss, p0, ws, |ss|, p, done)
    ensures done == ws + Pointers(ss, p0) && p == p0 + |Packed(ss)|
  {
    assert done + Pointers(ss[|ss|..], p) == done;
  }

  lemma PointersCons(ss: seq<seq<Byte>>, k: nat, p: nat, done: seq<nat>)
    requires k < |ss|
    ensures done + Pointers(ss[k..], p) == done + [p] + Pointers(ss[k + 1..], p + |ss[k]| + 1)
  {
    assert ss[k..][0] == ss[k] && ss[k..][1..] == ss[k + 1..];
  }

  lemma SameOutsideUp(m: seq<Byte>, m1: seq<Byte>, m2: seq<Byte>, lo: int, mid: int, hi: int)
    requires lo <= mid <= hi && SameOutside(m, m1, lo, mid) && SameOutside(m1, m2, mid, hi)
    ensures SameOutside(m, m2, lo, hi)
  {
  }

  /** The whole table: argc, argv and NULL, envp and NULL, the auxiliary vector. */
  function Table(argv: seq<seq<Byte>>, envp: seq<seq<Byte>>, start: nat, aux: seq<nat>): seq<nat> {
    [|argv|] + ((Pointers(argv, start) + [0]) + ((Pointers(envp, start + |Packed(argv)|) + [0]) + aux))
  }

  lemma TableIs(argc: nat, args: seq<nat>, envs: seq<nat>, aux: seq<nat>)
    ensures ([argc] + args + [0] + envs + [0]) + aux == [argc] + ((args + [0]) + ((envs + [0]) + aux))
  {
  }

  /** (x) & ~15 on 64-bit values. */
  function RoundDown16(x: nat): nat { And(x, TWO64 - 16) }

  lemma RoundDown16Is(x: nat)
    requires x < TWO64
    ensures RoundDown16(x) % 16 == 0 && RoundDown16(x) <= x < RoundDown16(x) + 16
  {
    hide And;
    PowersOfTwo();
    assert Pow2(4) == 16;
    hide Pow2;
    AndHighMask(x, 64, 4);
    DivModUnique(x - x % 16, 16, x / 16, 0);
  }

  lemma NoWords(m: seq<Byte>, a: nat)
    requires a <= |m|
    ensures Words(m, a, [])
  {
  }

  /** The argc, argv and envp part of the table, word by word. */
  method PutVectors(b: Bprm, sp: nat, argc: nat, envc: nat, argStart: nat,
                    ghost argv: seq<seq<Byte>>, ghost envp: seq<seq<Byte>>)
    returns (at: nat, argEnd: nat, envEnd: nat, ghost ws: seq<nat>)
    requires argc == |argv| && envc == |envp| && sp + 8 * (argc + envc + 3) <= argStart && |b.mem| <= TWO64
             && |b.mem| % 8 == 0
    requires Holds(b.mem, argStart, Packed(argv) + Packed(envp)) && ShortEnough(argv) && ShortEnough(envp)
    requires (forall i :: 0 <= i < argc ==> NoNul(argv[i])) && forall i :: 0 <= i < envc ==> NoNul(envp[i])
    modifies b`mem
    ensures at == sp + 8 * (argc + envc + 3) && SameOutside(old(b.mem), b.mem, sp, at)
    ensures ws == [argc] + Pointers(argv, argStart) + [0] + Pointers(envp, argStart + |Packed(argv)|) + [0]
    ensures Words(b.mem, sp, ws) && argEnd == argStart + |Packed(argv)| && envEnd == argEnd + |Packed(envp)|
  {
    hide Words, Pointers, Packed, NoNul, ShortEnough;
    ghost var m0 := b.mem;
    NoWords(m0, sp);
    AppendWord(b, sp, argc, sp, []);
    assert [] + [argc] == [argc];
    ghost var m1 := b.mem;
    PairKept(m0, m1, sp, sp + 8, argStart, Packed(argv), Packed(envp));
    at, argEnd := PutPointers(b, sp + 8, argStart, argc, sp, [argc], argv);
    ghost var m2, at2 := b.mem, at;
    ws := [argc] + Pointers(argv, argStart);
    AppendWord(b, at, 0, sp, ws);
    ws, at := ws + [0], at + 8;
    SameOutsideUp(m0, m1, m2, sp, sp + 8, at2);
    SameOutsideUp(m0, m2, b.mem, sp, at2, at);
    PairKept(m0, b.mem, sp, at, argStart, Packed(argv), Packed(envp));
    ghost var m3, at3 := b.mem, at;
    at, envEnd := PutPointers(b, at, argEnd, envc, sp, ws, envp);
    SameOutsideUp(m0, m3, b.mem, sp, at3, at);
    ghost var m4, at4 := b.mem, at;
    ws := ws + Pointers(envp, argEnd);
    AppendWord(b, at, 0, sp, ws);
    ws, at := ws + [0], at + 8;
    SameOutsideUp(m0, m4, b.mem, sp, at4, at);
  }

  lemma PairKept(m: seq<Byte>, m': seq<Byte>, lo: int, hi: int, a: nat, x: seq<Byte>, y: seq<Byte>)
    requires Holds(m, a, x + y) && SameOutside(m, m', lo, hi) && hi <= a
    ensures Holds(m', a, x) && Holds(m', a + |x|, y)
  {
    HoldsKept(m, m', lo, hi, a, x + y);
    HoldsJoin(m', a, x, y);
  }

  /**
   create_elf_tables: 16 random bytes below the strings, then the table, ending
   at or below them; the new stack pointer is 16-byte aligned and points at argc.
   */
  method CreateElfTables(b: Bprm, g: Program, argc: nat, envc: nat, rand: seq<Byte>,
                         ghost argv: seq<seq<Byte>>, ghost envp: seq<seq<Byte>>)
    requires |rand| == 16 && argc == |argv| && envc == |envp| && 16 + 8 * (argc + envc + 25) + 15 <= b.p
    requires |b.mem| <= TWO64 && |b.mem| % 8 == 0 && b.exec < TWO64 && g.Valid()
    requires Holds(b.mem, b.p, Packed(argv) + Packed(envp)) && ShortEnough(argv) && ShortEnough(envp)
    requires (forall i :: 0 <= i < argc ==> NoNul(argv[i])) && forall i :: 0 <= i < envc ==> NoNul(envp[i])
    modifies b`mem, b`p
    ensures b.p % 16 == 0 && b.p + 8 * (argc + envc + 25) <= old(b.p) - 16
    ensures Words(b.mem, b.p, Table(argv, envp, old(b.p), Auxv(g, old(b.p) - 16, b.exec)))
    ensures Holds(b.mem, old(b.p) - 16, rand) && SameOutside(old(b.mem), b.mem, b.p, old(b.p))
  {
    var argStart := b.p;
    var p := b.p - 16;
    ghost var m0 := b.mem;
    b.mem := Poke(b.mem, p, rand);
    PokeIs(m0, p, rand);
    ghost var m1 := b.mem;
    var aux := Auxv(g, p, b.exec);
    var sp := p - 8 * |aux|;
    var items := (argc + 1) + (envc + 1) + 1;
    RoundDown16Is(sp - 8 * items);
    b.p := RoundDown16(sp - 8 * items);
    HoldsKept(m0, m1, p, argStart, argStart, Packed(argv) + Packed(envp));
    var end := PutTable(b, b.p, argc, envc, argStart, aux, argv, envp);
    SameOutsideTrans(m0, m1, b.mem, b.p, p, argStart);
    HoldsKept(m1, b.mem, b.p, end, p, rand);
  }

  /** All the words of the table. */
  method PutTable(b: Bprm, sp: nat, argc: nat, envc: nat, argStart: nat, aux: seq<nat>,
                  ghost argv: seq<seq<Byte>>, ghost envp: seq<seq<Byte>>)
    returns (end: nat)
    requires argc == |argv| && envc == |envp| && sp + 8 * (argc + envc + 3) + 8 * |aux| <= argStart
    requires |b.mem| <= TWO64 && |b.mem| % 8 == 0 && AllWords(aux)
    requires Holds(b.mem, argStart, Packed(argv) + Packed(envp)) && ShortEnough(argv) && ShortEnough(envp)
    requires (forall i :: 0 <= i < argc ==> NoNul(argv[i])) && forall i :: 0 <= i < envc ==> NoNul(envp[i])
    modifies b`mem
    ensures end == sp + 8 * (argc + envc + 3) + 8 * |aux| && SameOutside(old(b.mem), b.mem, sp, end)
    ensures Words(b.mem, sp, Table(argv, envp, argStart, aux))
  {
    var at, argEnd, envEnd; ghost var ws;
    at, argEnd, envEnd, ws := PutVectors(b, sp, argc, envc, argStart, argv, envp);
    ghost var m := b.mem;
    PutAuxv(b, at, aux, sp, ws);
    TableIs(argc, Pointers(argv, argStart), Pointers(envp, argEnd), aux);
    SameOutsideUp(old(b.mem), m, b.mem, sp, at, at + 8 * |aux|);
    end := at + 8 * |aux|;
  }

  /** The final copy_to_user of the auxiliary vector behind the vectors. */
  method PutAuxv(b: Bprm, at: nat, aux: seq<nat>, ghost base: nat, ghost ws: seq<nat>)
    requires Words(b.mem, base, ws) && at == base + 8 * |ws| && at + 8 * |aux| <= |b.mem| && AllWords(aux)
    modifies b`mem
    ensures Words(b.mem, base, ws + aux) && SameOutside(old(b.mem), b.mem, at, at + 8 * |aux|)
  {
    var i := 0;
    assert ws + aux[..0] == ws;
    while i < |aux|
      invariant 0 <= i <= |aux| && Words(b.mem, base, ws + aux[..i])
      invariant SameOutside(old(b.mem), b.mem, at, at + 8 * i)
    {
      ghost var m := b.mem;
      AppendWord(b, at + 8 * i, aux[i], base, ws + aux[..i]);
      SameOutsideUp(old(b.mem), m, b.mem, at, at + 8 * i, at + 8 * (i + 1));
      assert ws + aux[..i + 1] == ws + aux[..i] + [aux[i]];
      i := i + 1;
    }
    assert aux[..|aux|] == aux;
  }

  ghost predicate AllWords(ws: seq<nat>) {
    forall i :: 0 <= i < |ws| ==> ws[i] < TWO64
  }

  // The whole image, as the new program finds it.

  ghost predicate AllNoNul(ss: seq<seq<Byte>>) {
    forall i :: 0 <= i < |ss| ==> NoNul(ss[i])
  }

  /** Word k of the vector at address a points at string k, intact and NUL-terminated, and a NULL follows. */
  ghost predicate VectorOf(m: seq<Byte>, a: nat, ps: seq<nat>, ss: seq<seq<Byte>>) {
    && |ps| == |ss| && Word(m, a + 8 * |ss|, 0)
    && forall k :: 0 <= k < |ss| ==> Word(m, a + 8 * k, ps[k]) && Holds(m, ps[k], Terminated(ss[k]))
  }

  predicate Aligned16(x: nat) { x % 16 == 0 }

  /** The stack the new program starts on. */
  ghost predicate StackImage(m: seq<Byte>, sp: nat, filename: seq<Byte>, argv: seq<seq<Byte>>, envp: seq<seq<Byte>>,
                             start: nat, exec: nat, g: Program, rand: seq<Byte>)
  {
    && start >= 16 && Aligned16(sp) && Word(m, sp, |argv|)
    && VectorOf(m, sp + 8, Pointers(argv, start), argv)
    && VectorOf(m, sp + 8 * (|argv| + 2), Pointers(envp, start + |Packed(argv)|), envp)
    && Words(m, sp + 8 * (|argv| + |envp| + 3), Auxv(g, start - 16, exec))
    && Holds(m, exec, Terminated(filename)) && Holds(m, start - 16, rand)
    && sp + 8 * (|argv| + |envp| + 25) <= start - 16
  }

  /** The two parts of a table. */
  lemma WordsTail(m: seq<Byte>, a: nat, xs: seq<nat>, ys: seq<nat>)
    requires Words(m, a, xs + ys)
    ensures Words(m, a, xs) && Words(m, a + 8 * |xs|, ys)
  {
    var ws := xs + ys;
    forall i | 0 <= i < |xs| ensures Word(m, a + 8 * i, xs[i]) { assert ws[i] == xs[i]; }
    forall i | 0 <= i < |ys| ensures Word(m, a + 8 * |xs| + 8 * i, ys[i]) {
      assert ws[|xs| + i] == ys[i];
      assert Word(m, a + 8 * (|xs| + i), ws[|xs| + i]);
    }
  }

  lemma VectorFound(m: seq<Byte>, a: nat, ss: seq<seq<Byte>>, start: nat)
    requires Words(m, a, Pointers(ss, start) + [0]) && Holds(m, start, Packed(ss))
    ensures VectorOf(m, a, Pointers(ss, start), ss)
  {
    var ps := Pointers(ss, start);
    EntriesAt(m, a, ps);
    forall k | 0 <= k < |ss| ensures Word(m, a + 8 * k, ps[k]) && Holds(m, ps[k], Terminated(ss[k])) {
      PointersAt(m, start, ss, k);
    }
  }

  lemma EntriesAt(m: seq<Byte>, a: nat, ps: seq<nat>)
    requires Words(m, a, ps + [0])
    ensures Word(m, a + 8 * |ps|, 0) && forall k :: 0 <= k < |ps| ==> Word(m, a + 8 * k, ps[k])
  {
    var ws := ps + [0];
    assert Word(m, a + 8 * |ps|, ws[|ps|]);
    forall k | 0 <= k < |ps| ensures Word(m, a + 8 * k, ps[k]) { assert Word(m, a + 8 * k, ws[k]); }
  }

  /** Table and strings together make the image. */
  lemma ArgvFound(m: seq<Byte>, sp: nat, argv: seq<seq<Byte>>, envp: seq<seq<Byte>>, start: nat, aux: seq<nat>)
    requires Words(m, sp, Table(argv, envp, start, aux)) && Holds(m, start, Packed(argv))
    ensures Word(m, sp, |argv|) && VectorOf(m, sp + 8, Pointers(argv, start), argv)
  {
    TableSplits(m, sp, |argv|, Pointers(argv, start), Pointers(envp, start + |Packed(argv)|), aux);
    VectorFound(m, sp + 8, argv, start);
  }

  lemma EnvpFound(m: seq<Byte>, sp: nat, argv: seq<seq<Byte>>, envp: seq<seq<Byte>>, start: nat, aux: seq<nat>)
    requires Words(m, sp, Table(argv, envp, start, aux)) && Holds(m, start + |Packed(argv)|, Packed(envp))
    ensures VectorOf(m, sp + 8 * (|argv| + 2), Pointers(envp, start + |Packed(argv)|), envp)
    ensures Words(m, sp + 8 * (|argv| + |envp| + 3), aux)
  {
    TableSplits(m, sp, |argv|, Pointers(argv, start), Pointers(envp, start + |Packed(argv)|), aux);
    VectorFound(m, sp + 8 * (|argv| + 2), envp, start + |Packed(argv)|);
  }

  lemma TableSplits(m: seq<Byte>, sp: nat, argc: nat, args: seq<nat>, envs: seq<nat>, aux: seq<nat>)
    requires Words(m, sp, [argc] + ((args + [0]) + ((envs + [0]) + aux)))
    ensures Word(m, sp, argc) && Words(m, sp + 8, args + [0]) && Words(m, sp + 8 * (|args| + 2), envs + [0])
    ensures Words(m, sp + 8 * (|args| + |envs| + 3), aux)
  {
    WordsTail(m, sp, [argc], (args + [0]) + ((envs + [0]) + aux));
    WordsTail(m, sp + 8, args + [0], (envs + [0]) + aux);
    WordsTail(m, sp + 8 * (|args| + 2), envs + [0], aux);
    assert Word(m, sp + 8 * 0, [argc][0]);
  }

  /**
   kernel_execve up to the start of the program: the name, the environment and
   the arguments are pushed in this order and the tables built below them.
   Fails (the source panics) exactly when a string is too long or they do not
   all fit within the limit.
   */
  method KernelExecve(b: Bprm, filename: seq<Byte>, argv: seq<seq<Byte>>, envp: seq<seq<Byte>>,
                      rlimit: nat, g: Program, rand: seq<Byte>)
    returns (ok: bool, ghost start: nat)
    requires |b.mem| == STACK_TOP && b.p == STACK_TOP - 8 && |rand| == 16 && g.Valid()
    requires NoNul(filename) && AllNoNul(argv) && AllNoNul(envp)
    modifies b
    ensures ok <==>
            && |filename| + 1 <= MAX_ARG_STRLEN && ShortEnough(argv) && ShortEnough(envp)
            && (|argv| + |envp|) * 8 < StringLimit(rlimit)
            && |filename| + 1 + |Packed(envp)| + |Packed(argv)| + (|argv| + |envp|) * 8 <= StringLimit(rlimit)
    ensures ok ==> StackImage(b.mem, b.p, filename, argv, envp, start, b.exec, g, rand)
  {
    start := 0;
    ok := b.StackLimits(|argv|, |envp|, rlimit);
    if !ok { return; }
    ok := b.CopyString(filename);
    if !ok { return; }
    b.exec := b.p;
    ok := PushVectors(b, filename, argv, envp);
    if !ok { return; }
    start := b.p;
    FinishImage(b, filename, argv, envp, g, rand);
  }

  /** The tables complete the image; the strings above stay as they are. */
  method FinishImage(b: Bprm, ghost filename: seq<Byte>, argv: seq<seq<Byte>>, envp: seq<seq<Byte>>, g: Program,
                     rand: seq<Byte>)
    requires |rand| == 16 && 16 + 8 * (|argv| + |envp| + 25) + 15 <= b.p <= b.exec
    requires |b.mem| <= TWO64 && |b.mem| % 8 == 0 && g.Valid()
    requires Holds(b.mem, b.p, Packed(argv) + Packed(envp)) && Holds(b.mem, b.exec, Terminated(filename))
    requires ShortEnough(argv) && ShortEnough(envp) && AllNoNul(argv) && AllNoNul(envp)
    modifies b`mem, b`p
    ensures StackImage(b.mem, b.p, filename, argv, envp, old(b.p), b.exec, g, rand)
  {
    ghost var m, start := b.mem, b.p;
    CreateElfTables(b, g, |argv|, |envp|, rand, argv, envp);
    ImageMade(m, b.mem, b.p, filename, argv, envp, start, b.exec, g, rand);
  }

  lemma StringsKept(m: seq<Byte>, m': seq<Byte>, sp: nat, start: nat, exec: nat, x: seq<Byte>, y: seq<Byte>,
                    z: seq<Byte>)
    requires start <= exec && SameOutside(m, m', sp, start) && Holds(m, start, x + y) && Holds(m, exec, z)
    ensures Holds(m', start, x) && Holds(m', start + |x|, y) && Holds(m', exec, z)
  {
    hide Holds, SameOutside;
    HoldsKept(m, m', sp, start, start, x + y);
    HoldsKept(m, m', sp, start, exec, z);
    HoldsJoin(m', start, x, y);
  }

  lemma ImageMade(m: seq<Byte>, m': seq<Byte>, sp: nat, filename: seq<Byte>, argv: seq<seq<Byte>>, envp: seq<seq<Byte>>,
                  start: nat, exec: nat, g: Program, rand: seq<Byte>)
    requires 16 <= start <= exec && Aligned16(sp) && sp + 8 * (|argv| + |envp| + 25) <= start - 16
    requires Holds(m, start, Packed(argv) + Packed(envp)) && Holds(m, exec, Terminated(filename))
    requires Words(m', sp, Table(argv, envp, start, Auxv(g, start - 16, exec)))
    requires Holds(m', start - 16, rand) && SameOutside(m, m', sp, start)
    ensures StackImage(m', sp, filename, argv, envp, start, exec, g, rand)
  {
    hide Aligned16, Words, Word, Packed, Pointers, Auxv, Table, Holds, VectorOf, SameOutside;
    StringsKept(m, m', sp, start, exec, Packed(argv), Packed(envp), Terminated(filename));
    ArgvFound(m', sp, argv, envp, start, Auxv(g, start - 16, exec));
    EnvpFound(m', sp, argv, envp, start, Auxv(g, start - 16, exec));
  }

  /** The environment, then the arguments below it, leaving the name above them alone. */
  method PushVectors(b: Bprm, ghost filename: seq<Byte>, argv: seq<seq<Byte>>, envp: seq<seq<Byte>>) returns (ok: bool)
    requires AllNoNul(argv) && AllNoNul(envp) && MAX_ARG_STRLEN <= b.argmin <= b.p <= |b.mem|
    requires Holds(b.mem, b.p, Terminated(filename))
    modifies b`mem, b`p
    ensures ok <==> ShortEnough(argv) && ShortEnough(envp) && old(b.p) - |Packed(envp)| - |Packed(argv)| >= b.argmin
    ensures ok ==> b.p == old(b.p) - |Packed(envp)| - |Packed(argv)| && |b.mem| == |old(b.mem)|
    ensures ok ==> Holds(b.mem, b.p, Packed(argv) + Packed(envp)) && Holds(b.mem, old(b.p), Terminated(filename))
  {
    ghost var m0, p0 := b.mem, b.p;
    ok := b.CopyStrings(envp);
    if !ok { return; }
    ghost var m1, p1 := b.mem, b.p;
    ok := b.CopyStrings(argv);
    if !ok { return; }
    HoldsKept(m0, m1, p1, p0, p0, Terminated(filename));
    HoldsKept(m1, b.mem, b.p, p1, p0, Terminated(filename));
    HoldsKept(m1, b.mem, b.p, p1, p1, Packed(envp));
    HoldsJoin(b.mem, b.p, Packed(argv), Packed(envp));
  }
}
