/** kobj_map: bucket chains that share one last node. */
module KobjMap {
  import opened Wrappers
  import opened Bits
  import opened KobjMapSpec

  class Probe {
    var next: Probe?
    const reg: Reg
    /** The bucket whose chain the node is linked into. */
    ghost const home: nat

    constructor (r: Reg, ghost h: nat)
      ensures reg == r && home == h && next == null
    {
      reg, home, next := r, h, null;
    }
  }

  function RegsOf(l: seq<Probe>): seq<Reg> { seq(|l|, i requires 0 <= i < |l| => l[i].reg) }

  /** The chain of bucket b: nodes of its own, each linked to the next, then the base node. */
  ghost predicate IsChain(l: seq<Probe>, b: nat, first: Probe?, base: Probe)
    reads l
  {
    && l != [] && l[|l| - 1] == base && first == l[0]
    && (forall i :: 0 <= i < |l| - 1 ==> l[i].home == b && l[i].next == l[i + 1])
    && (forall i, j :: 0 <= i < j < |l| ==> l[i] != l[j])
  }

  lemma {:induction false} InsertAt(l: seq<Reg>, r: Reg, k: nat)
    requires k < |l| && (forall i :: 0 <= i < k ==> l[i].range < r.range) && l[k].range >= r.range
    ensures Insert(l, r) == l[..k] + [r] + l[k..]
  {
    if k > 0 {
      InsertAt(l[1..], r, k - 1);
      assert l[1..][..k - 1] == l[1..k] && l[1..][k - 1..] == l[k..] && [l[0]] + l[1..k] == l[..k];
    }
  }

  class Map {
    const probes: array<Probe?>
    const base: Probe
    ghost var nodes: set<Probe>
    ghost var chains: seq<seq<Probe>>
    /** The registrations, newest first. */
    ghost var regs: seq<Reg>

    ghost predicate Linked()
      reads this, probes, nodes
    {
      && probes.Length == BUCKETS == |chains| && base in nodes && base.next == null && base.home == BUCKETS
      && base.reg.dev == 1 && base.reg.range == TWO64 - 1
      && (forall b, i :: 0 <= b < BUCKETS && 0 <= i < |chains[b]| ==> chains[b][i] in nodes)
      && forall b :: 0 <= b < BUCKETS ==> IsChain(chains[b], b, probes[b], base)
    }

    /** Each bucket holds the registrations that belong to it, narrow ranges first. */
    ghost predicate Valid()
      reads this, probes, nodes
    {
      && Linked() && AllWidths(regs)
      && forall b :: 0 <= b < BUCKETS ==> RegsOf(chains[b]) == BucketOf(regs, base.reg, b)
    }

    /** kobj_map_init. */
    constructor (probe: nat)
      ensures Valid() && regs == [] && base.reg == Reg(1, TWO64 - 1, probe) && fresh(probes) && fresh(nodes)
    {
      var b := new Probe(Reg(1, TWO64 - 1, probe), BUCKETS);
      base := b;
      probes := new Probe?[BUCKETS](i => b);
      nodes := {b};
      chains := seq(BUCKETS, i => [b]);
      regs := [];
    }

    /** The search of the second loop of kobj_map: the first node whose range is not smaller, and the one before it. */
    method Search(b: nat, range: nat) returns (prev: Probe?, cur: Probe?, ghost k: nat)
      requires Linked() && b < BUCKETS && range < TWO64
      ensures k < |chains[b]| && cur == chains[b][k] && (if k == 0 then prev == null else prev == chains[b][k - 1])
      ensures forall i :: 0 <= i < k ==> chains[b][i].reg.range < range
      ensures chains[b][k].reg.range >= range
    {
      prev, cur, k := null, probes[b], 0;
      assert IsChain(chains[b], b, probes[b], base);
      while cur != null && cur.reg.range < range
        invariant 0 <= k < |chains[b]| && cur == chains[b][k]
                  && (if k == 0 then prev == null else prev == chains[b][k - 1])
        invariant forall i :: 0 <= i < k ==> chains[b][i].reg.range < range
        decreases |chains[b]| - k
      {
        prev, cur, k := cur, cur.next, k + 1;
      }
    }

    /** The search and the link for one bucket. */
    method LinkInto(b: nat, p: Probe)
      requires Linked() && b < BUCKETS && p !in nodes && p.home == b && p.reg.range < TWO64
      modifies this`nodes, this`chains, probes, nodes, p
      ensures Linked() && nodes == old(nodes) + {p} && |chains| == |old(chains)|
      ensures RegsOf(chains[b]) == Insert(old(RegsOf(chains[b])), p.reg)
      ensures forall c :: 0 <= c < BUCKETS && c != b ==> chains[c] == old(chains[c])
    {
      hide RegsOf, Insert, IsChain;
      var prev, cur; ghost var k;
      prev, cur, k := Search(b, p.reg.range);
      ghost var l := chains[b];
      OwnNodes(l, b, k);
      Splice(b, p, prev, cur, l, k);
      Spliced(l, p, k);
      chains := chains[b := l[..k] + [p] + l[k..]];
      nodes := nodes + {p};
    }

    /** The node before position k belongs to no other chain. */
    lemma OwnNodes(l: seq<Probe>, b: nat, k: nat)
      requires Linked() && b < BUCKETS && l == chains[b] && k < |l|
      ensures forall c, i :: 0 <= c < BUCKETS && c != b && 0 <= i < |chains[c]| && k > 0 ==> chains[c][i] != l[k - 1]
      ensures k > 0 ==> l[k - 1] != base && l[k - 1] in nodes
    {
      if k > 0 {
        assert l[k - 1].home == b;
        forall c, i | 0 <= c < BUCKETS && c != b && 0 <= i < |chains[c]| ensures chains[c][i] != l[k - 1] {
          assert IsChain(chains[c], c, probes[c], base);
        }
      }
    }

    /** p->next = *s; *s = p. */
    method Splice(b: nat, p: Probe, prev: Probe?, cur: Probe?, ghost l: seq<Probe>, ghost k: nat)
      requires b < probes.Length && IsChain(l, b, probes[b], base) && k < |l| && p !in l && p.home == b
      requires cur == l[k] && prev == if k == 0 then null else l[k - 1]
      modifies probes, p, prev
      ensures IsChain(l[..k] + [p] + l[k..], b, probes[b], base)
      ensures forall c :: 0 <= c < probes.Length && c != b ==> probes[c] == old(probes[c])
    {
      p.next := cur;
      if prev == null {
        probes[b] := p;
      } else {
        prev.next := p;
      }
      SplicedChain(l, b, base, p, k);
    }

    /** kobj_map. */
    method Register(r: Reg, alloc: bool) returns (ok: bool)
      requires Valid() && Widths(r)
      modifies this`nodes, this`chains, this`regs, probes, nodes
      ensures Valid() && ok == alloc && nodes >= old(nodes) && fresh(nodes - old(nodes))
      ensures regs == if ok then [r] + old(regs) else old(regs)
    {
      hide RegsOf, IsChain, Insert, BucketOf, Major, LastDev;
      var n := (Major(LastDev(r)) % TWO32 - Major(r.dev) + 1) % TWO32;
      if n > BUCKETS {
        n := BUCKETS;
      }
      if !alloc {
        return false;
      }
      assert n == Spread(r);
      var i, index := 0, Major(r.dev);
      while i < n
        invariant 0 <= i <= n && index == Major(r.dev) + i && Linked() && regs == old(regs)
        invariant nodes >= old(nodes) && fresh(nodes - old(nodes))
        invariant forall b :: 0 <= b < BUCKETS ==>
                    var l := BucketOf(regs, base.reg, b);
                    RegsOf(chains[b]) == if Offset(r, b) < i then Insert(l, r) else l
      {
        var b := index % BUCKETS;
        OffsetIs(r, i);
        var p := new Probe(r, b);
        LinkInto(b, p);
        i, index := i + 1, index + 1;
      }
      regs := [r] + regs;
      ok := true;
      forall b | 0 <= b < BUCKETS ensures RegsOf(chains[b]) == BucketOf(regs, base.reg, b) {
        BucketAfter(r, old(regs), base.reg, b);
      }
    }

    /** One walk of the loop of kobj_lookup: the first node of the bucket that covers d. */
    method FindFirst(d: nat) returns (p: Probe?)
      requires Valid() && d < TWO32
      ensures var first := FirstCovering(BucketOf(regs, base.reg, Bucket(d)), d);
              if p == null then first == None else first == Some(p.reg)
    {
      hide BucketOf, Covers;
      ghost var l, k := chains[Bucket(d)], 0;
      p := probes[Bucket(d)];
      assert IsChain(l, Bucket(d), p, base);
      while p != null && (p.reg.dev > d || LastDev(p.reg) < d)
        invariant 0 <= k <= |l| && p == (if k < |l| then l[k] else null)
        invariant FirstCovering(RegsOf(l)[k..], d) == FirstCovering(RegsOf(l), d)
        decreases |l| - k
      {
        NotCovered(p.reg, d);
        assert RegsOf(l)[k..][1..] == RegsOf(l)[k + 1..];
        p, k := p.next, k + 1;
      }
      if p != null {
        IsCovered(p.reg, d);
      }
    }

    /** The registrations a probe makes while it runs. */
    method RegisterAll(adds: seq<Reg>)
      requires Valid() && AllWidths(adds)
      modifies this`nodes, this`chains, this`regs, probes, nodes
      ensures Valid() && nodes >= old(nodes) && fresh(nodes - old(nodes)) && regs == Added(old(regs), adds)
    {
      hide RegsOf, IsChain, BucketOf, Added;
      NothingAdded(regs);
      var i := 0;
      assert adds[..0] == [];
      while i < |adds|
        invariant i <= |adds| && Valid() && nodes >= old(nodes) && fresh(nodes - old(nodes))
        invariant regs == Added(old(regs), adds[..i])
      {
        AddedAppend(old(regs), adds[..i], adds[i]);
        assert adds[..i + 1] == adds[..i] + [adds[i]];
        var ok := Register(adds[i], true);
        i := i + 1;
      }
      assert adds[..i] == adds;
    }

    /** kobj_lookup. */
    method Lookup(d: nat, oracle: (nat, Reg) -> Answer) returns (found: Option<Reg>, consulted: seq<Reg>)
      requires Valid() && d < TWO32 && forall k, r :: AllWidths(oracle(k, r).adds)
      modifies this`nodes, this`chains, this`regs, probes, nodes
      ensures Valid() && nodes >= old(nodes) && fresh(nodes - old(nodes))
      ensures Result(found, consulted, regs) == FlatLookup(old(regs), base.reg, d, false, TWO64 - 1, 0, oracle)
    {
      hide RegsOf, IsChain, BucketOf, Added, Narrowest, FirstCovering, FlatLookup, AllWidths;
      var best, step := TWO64 - 1, 0;
      found, consulted := None, [];
      while true
        invariant Valid() && nodes >= old(nodes) && fresh(nodes - old(nodes)) && found == None
        invariant 0 <= best < TWO64
        invariant FlatLookup(old(regs), base.reg, d, false, TWO64 - 1, 0, oracle) ==
                    Prepend(consulted, FlatLookup(regs, base.reg, d, false, best, step, oracle))
        decreases best
      {
        BucketFindsNarrowest(regs, base.reg, Bucket(d), d);
        LookupStep(regs, base.reg, d, best, step, oracle, consulted);
        var p := FindFirst(d);
        if p == null || (p.reg.range - 1) % TWO64 >= best {
          return;
        }
        best := p.reg.range - 1;
        consulted := consulted + [p.reg];
        var a := oracle(step, p.reg);
        RegisterAll(a.adds);
        if a.found {
          return Some(p.reg), consulted;
        }
        step := step + 1;
      }
    }
  }

  ghost predicate AllWidths(regs: seq<Reg>) { forall r :: r in regs ==> Widths(r) }

  function Prepend(c: seq<Reg>, x: Result): Result { Result(x.found, c + x.consulted, x.regs) }

  /** One round of the retry loop is one unfolding of the flat lookup. */
  lemma LookupStep(regs: seq<Reg>, base: Reg, d: nat, best: nat, step: nat, oracle: (nat, Reg) -> Answer, c: seq<Reg>)
    requires AllWidths(regs) && base.range < TWO64 && best < TWO64
    ensures var n := Narrowest(Here(regs, Bucket(d)), base, d);
            var whole := Prepend(c, FlatLookup(regs, base, d, false, best, step, oracle));
            if n == None || (n.value.range - 1) % TWO64 >= best then whole == Result(None, c, regs)
            else
              && 0 < n.value.range < TWO64 && n.value.range - 1 < best
              && var a := oracle(step, n.value); var regs' := Added(regs, a.adds);
                 whole == if a.found then Result(Some(n.value), c + [n.value], regs')
                          else
                            var rest := FlatLookup(regs', base, d, false, n.value.range - 1, step + 1, oracle);
                            Prepend(c + [n.value], rest)
  {
    var n := Narrowest(Here(regs, Bucket(d)), base, d);
    NarrowestMember(Here(regs, Bucket(d)), base, d);
    HereHas(regs, Bucket(d));
    hide Narrowest, Added, Covers, Here, InBucket;
    if n.Some? && 0 < n.value.range && n.value.range - 1 < best {
      var more := Added(regs, oracle(step, n.value).adds);
      var rest := FlatLookup(more, base, d, false, n.value.range - 1, step + 1, oracle);
      assert c + ([n.value] + rest.consulted) == (c + [n.value]) + rest.consulted;
    }
  }

  lemma NothingAdded(regs: seq<Reg>)
    ensures Added(regs, []) == regs
  {
  }

  function Offset(r: Reg, b: nat): int { (b - Major(r.dev)) % BUCKETS }

  /** The i-th bucket of a registration is the one at offset i. */
  lemma OffsetIs(r: Reg, i: nat)
    requires i < BUCKETS
    ensures forall b: nat :: b < BUCKETS ==> (Offset(r, b) == i <==> b == (Major(r.dev) + i) % BUCKETS)
  {
    hide Major;
    var m := Major(r.dev);
    forall b: nat | b < BUCKETS ensures Offset(r, b) == i <==> b == (m + i) % BUCKETS {
      SameOffset(m, b, i);
    }
  }

  lemma SameOffset(m: nat, b: nat, i: nat)
    requires b < BUCKETS && i < BUCKETS
    ensures (b - m) % BUCKETS == i <==> b == (m + i) % BUCKETS
  {
  }

  lemma BucketAfter(r: Reg, regs: seq<Reg>, base: Reg, b: nat)
    ensures BucketOf([r] + regs, base, b) ==
              var l := BucketOf(regs, base, b); if Offset(r, b) < Spread(r) then Insert(l, r) else l
  {
    hide Insert, Spread, Major;
    assert ([r] + regs)[1..] == regs;
  }

  lemma NotCovered(r: Reg, d: nat)
    requires r.dev > d || LastDev(r) < d
    ensures !Covers(r, d)
  {
  }

  lemma IsCovered(r: Reg, d: nat)
    requires r.dev <= d <= LastDev(r)
    ensures Covers(r, d)
  {
  }

  /** A chain with p linked in front of position k. */
  lemma SplicedChain(l: seq<Probe>, b: nat, base: Probe, p: Probe, k: nat)
    requires k < |l| && l[|l| - 1] == base && p !in l && p.home == b && p.next == l[k]
    requires forall i :: 0 <= i < |l| - 1 ==> l[i].home == b && (i != k - 1 ==> l[i].next == l[i + 1])
    requires forall i, j :: 0 <= i < j < |l| ==> l[i] != l[j]
    requires k > 0 ==> l[k - 1].next == p
    ensures IsChain(l[..k] + [p] + l[k..], b, if k == 0 then p else l[0], base)
  {
  }

  lemma Spliced(l: seq<Probe>, p: Probe, k: nat)
    requires k < |l| && (forall i :: 0 <= i < k ==> l[i].reg.range < p.reg.range) && l[k].reg.range >= p.reg.range
    ensures RegsOf(l[..k] + [p] + l[k..]) == Insert(RegsOf(l), p.reg)
  {
    InsertAt(RegsOf(l), p.reg, k);
    assert RegsOf(l[..k] + [p] + l[k..]) == RegsOf(l)[..k] + [p.reg] + RegsOf(l)[k..];
  }
}
