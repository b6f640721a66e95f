/** Three-level Sv39 page tables: translation, and what single updates do to it. */
module Sv39 {
  import opened Bits

  const PTRS: nat := 512
  const VPNS: nat := 0x800_0000  // 27 bits of virtual page number

  /** Where a table hangs in the tree. */
  datatype Loc = Root | Pmd(i: nat) | Pte(i: nat, k: nat)

  type Tables = map<nat, seq<nat>>

  predicate Present(e: nat) { e % 2 == 1 }
  /** Any of R, W, X set. */
  predicate IsLeaf(e: nat) { Present(e) && (e / 2) % 8 != 0 }
  predicate IsTable(e: nat) { Present(e) && (e / 2) % 8 == 0 }
  function Pfn(e: nat): nat { e / 1024 }
  function TableEntry(pfn: nat): nat { pfn * 1024 + 1 }
  function LeafEntry(pfn: nat, prot: nat): nat { pfn * 1024 + prot }

  predicate LeafProt(prot: nat) { prot < 1024 && IsLeaf(prot) }

  function IndexI(vpn: nat): nat { vpn / 0x4_0000 }
  function IndexK(vpn: nat): nat { (vpn / 512) % 512 }
  function IndexJ(vpn: nat): nat { vpn % 512 }

  function Entry(t: Tables, p: nat, x: nat): nat {
    if p in t && x < |t[p]| then t[p][x] else 0
  }

  /** A walk ends at a leaf, or at an entry that is neither leaf nor table (or lies on the last level). */
  datatype Xlate = Fault(entry: nat) | Leaf(entry: nat, level: nat)

  /** The walk of section 4.4 of the RISC-V privileged architecture: root, middle, last level. */
  function Lookup(t: Tables, root: nat, vpn: nat): Xlate {
    var e2 := Entry(t, root, IndexI(vpn));
    if IsLeaf(e2) then Leaf(e2, 2)
    else if !IsTable(e2) then Fault(e2)
    else
      var e1 := Entry(t, Pfn(e2), IndexK(vpn));
      if IsLeaf(e1) then Leaf(e1, 1)
      else if !IsTable(e1) then Fault(e1)
      else
        var e0 := Entry(t, Pfn(e1), IndexJ(vpn));
        if IsLeaf(e0) then Leaf(e0, 0) else Fault(e0)
  }

  ghost predicate TableAt(t: Tables, loc: map<nat, Loc>, p: nat, l: Loc) {
    p in t && p in loc && loc[p] == l
  }

  /** Full tables, each hanging in one place: no table is shared. */
  ghost predicate Wf(t: Tables, loc: map<nat, Loc>, root: nat) {
    && TableAt(t, loc, root, Root)
    && (forall p :: p in t ==> |t[p]| == PTRS && p in loc)
    && (forall i :: 0 <= i < PTRS && IsTable(Entry(t, root, i)) ==> TableAt(t, loc, Pfn(Entry(t, root, i)), Pmd(i)))
    && (forall p, k :: p in t && p in loc && loc[p].Pmd? && 0 <= k < PTRS && IsTable(Entry(t, p, k)) ==>
          TableAt(t, loc, Pfn(Entry(t, p, k)), Pte(loc[p].i, k)))
  }

  function SetEntry(t: Tables, p: nat, x: nat, e: nat): Tables
    requires p in t && x < |t[p]|
  {
    var row: seq<nat> := t[p][..x] + [e] + t[p][x + 1..];
    t[p := row]
  }

  lemma SetEntryIs(t: Tables, p: nat, x: nat, e: nat, q: nat, y: nat)
    requires p in t && x < |t[p]|
    ensures Entry(SetEntry(t, p, x, e), q, y) == if q == p && y == x then e else Entry(t, q, y)
  {
  }

  /** The last-level table that serves vpn. */
  ghost predicate Serves(t: Tables, root: nat, vpn: nat, p: nat) {
    var e2 := Entry(t, root, IndexI(vpn));
    IsTable(e2) && var e1 := Entry(t, Pfn(e2), IndexK(vpn)); IsTable(e1) && Pfn(e1) == p
  }

  lemma IndicesUnique(v: nat, w: nat)
    requires v < VPNS && w < VPNS && IndexI(v) == IndexI(w) && IndexK(v) == IndexK(w) && IndexJ(v) == IndexJ(w)
    ensures v == w
  {
    FromIndices(v);
    FromIndices(w);
    hide IndexI, IndexK, IndexJ;
  }

  lemma FromIndices(v: nat)
    ensures v == (IndexI(v) * 512 + IndexK(v)) * 512 + IndexJ(v)
  {
    var q, r := v / 512, v % 512;
    DivModUnique(v, 0x4_0000, q / 512, (q % 512) * 512 + r);
  }

  /** Writing a last-level entry changes the translation of that page alone. */
  lemma SetPte(t: Tables, loc: map<nat, Loc>, root: nat, vpn: nat, p: nat, e: nat)
    requires Wf(t, loc, root) && vpn < VPNS && Serves(t, root, vpn, p) && IsLeaf(e)
    ensures TableAt(t, loc, p, Pte(IndexI(vpn), IndexK(vpn)))
    ensures var t' := SetEntry(t, p, IndexJ(vpn), e);
            && Wf(t', loc, root) && Serves(t', root, vpn, p)
            && forall v :: 0 <= v < VPNS ==> Lookup(t', root, v) == if v == vpn then Leaf(e, 0) else Lookup(t, root, v)
  {
    var t' := SetEntry(t, p, IndexJ(vpn), e);
    assert TableAt(t, loc, p, Pte(IndexI(vpn), IndexK(vpn)));
    forall q, y ensures Entry(t', q, y) == if q == p && y == IndexJ(vpn) then e else Entry(t, q, y) {
      SetEntryIs(t, p, IndexJ(vpn), e, q, y);
    }
    forall v | 0 <= v < VPNS
      ensures Lookup(t', root, v) == if v == vpn then Leaf(e, 0) else Lookup(t, root, v)
    {
      OtherWalk(t, loc, root, v);
      if IndexI(v) == IndexI(vpn) && IndexK(v) == IndexK(vpn) && IndexJ(v) == IndexJ(vpn) { IndicesUnique(v, vpn); }
    }
  }

  /** A walk visits tables hanging at the walk's own indices. */
  lemma OtherWalk(t: Tables, loc: map<nat, Loc>, root: nat, v: nat)
    requires Wf(t, loc, root) && v < VPNS
    ensures var e2 := Entry(t, root, IndexI(v));
            IsTable(e2) ==>
              && TableAt(t, loc, Pfn(e2), Pmd(IndexI(v)))
              && var e1 := Entry(t, Pfn(e2), IndexK(v));
                 IsTable(e1) ==> TableAt(t, loc, Pfn(e1), Pte(IndexI(v), IndexK(v)))
  {
  }

  function Zeros(): seq<nat> { seq(PTRS, _ => 0) }

  /** Hanging an empty table into an empty slot changes no translation. */
  lemma LinkPmd(t: Tables, loc: map<nat, Loc>, root: nat, i: nat, p: nat)
    requires Wf(t, loc, root) && i < PTRS && p !in t && Entry(t, root, i) == 0
    ensures var t', loc' := SetEntry(t[p := Zeros()], root, i, TableEntry(p)), loc[p := Pmd(i)];
            Wf(t', loc', root) && forall v :: 0 <= v < VPNS ==> Lookup(t', root, v) == Lookup(t, root, v)
  {
    var t0 := t[p := Zeros()];
    var t', loc' := SetEntry(t0, root, i, TableEntry(p)), loc[p := Pmd(i)];
    TableEntryIs(p);
    forall q, y ensures Entry(t', q, y) == if q == root && y == i then TableEntry(p) else Entry(t, q, y) {
      SetEntryIs(t0, root, i, TableEntry(p), q, y);
    }
    assert p !in t;
    forall v | 0 <= v < VPNS ensures Lookup(t', root, v) == Lookup(t, root, v) {
      OtherWalk(t, loc, root, v);
    }
  }

  lemma LinkPte(t: Tables, loc: map<nat, Loc>, root: nat, i: nat, q: nat, k: nat, p: nat)
    requires Wf(t, loc, root) && TableAt(t, loc, q, Pmd(i)) && k < PTRS && p !in t && Entry(t, q, k) == 0
    ensures var t', loc' := SetEntry(t[p := Zeros()], q, k, TableEntry(p)), loc[p := Pte(i, k)];
            Wf(t', loc', root) && forall v :: 0 <= v < VPNS ==> Lookup(t', root, v) == Lookup(t, root, v)
  {
    var t0 := t[p := Zeros()];
    var t', loc' := SetEntry(t0, q, k, TableEntry(p)), loc[p := Pte(i, k)];
    TableEntryIs(p);
    forall q', y ensures Entry(t', q', y) == if q' == q && y == k then TableEntry(p) else Entry(t, q', y) {
      SetEntryIs(t0, q, k, TableEntry(p), q', y);
    }
    forall v | 0 <= v < VPNS ensures Lookup(t', root, v) == Lookup(t, root, v) {
      OtherWalk(t, loc, root, v);
    }
  }

  /** Down to the last level, the walk of vpn meets only empty slots and tables. */
  predicate Open(t: Tables, root: nat, vpn: nat) {
    var e2 := Entry(t, root, IndexI(vpn));
    e2 == 0 || (IsTable(e2) && var e1 := Entry(t, Pfn(e2), IndexK(vpn)); e1 == 0 || IsTable(e1))
  }

  /** The same walks are open. */
  ghost predicate OpenKept(t: Tables, t': Tables, root: nat) {
    forall v :: 0 <= v < VPNS ==> (Open(t', root, v) <==> Open(t, root, v))
  }

  /** v is the first of the pages [lo, hi) whose walk does not end at an empty slot. */
  ghost predicate InTheWay(t: Tables, root: nat, lo: nat, hi: nat, v: nat) {
    lo <= v < hi && Vacant(t, root, lo, v) && Lookup(t, root, v) != Fault(0)
  }

  /** The translation of every page outside [lo, hi) is the same. */
  ghost predicate SameOutside(t: Tables, t': Tables, root: nat, lo: nat, hi: nat) {
    forall v :: 0 <= v < VPNS && !(lo <= v < hi) ==> Lookup(t', root, v) == Lookup(t, root, v)
  }

  /** The walk of every page in [lo, hi) ends at an empty slot. */
  ghost predicate Vacant(t: Tables, root: nat, lo: nat, hi: nat) {
    forall v :: lo <= v < hi ==> Lookup(t, root, v) == Fault(0)
  }

  /** The pages [lo, hi) are mapped to consecutive frames from pfn on. */
  ghost predicate MapsRun(t: Tables, root: nat, lo: nat, hi: nat, pfn: nat, prot: nat) {
    forall v :: lo <= v < hi ==> Lookup(t, root, v) == Leaf(LeafEntry(pfn + (v - lo), prot), 0)
  }

  lemma SetPteKeepsOpen(t: Tables, loc: map<nat, Loc>, root: nat, vpn: nat, p: nat, e: nat)
    requires Wf(t, loc, root) && vpn < VPNS && Serves(t, root, vpn, p)
    requires TableAt(t, loc, p, Pte(IndexI(vpn), IndexK(vpn)))
    ensures OpenKept(t, SetEntry(t, p, IndexJ(vpn), e), root)
  {
    var t' := SetEntry(t, p, IndexJ(vpn), e);
    assert p != root && p in t && |t[p]| == PTRS;
    hide Wf, SetEntry, Entry;
    forall v | 0 <= v < VPNS ensures Open(t', root, v) <==> Open(t, root, v) {
      OtherWalk(t, loc, root, v);
      SetEntryIs(t, p, IndexJ(vpn), e, root, IndexI(v));
      SetEntryIs(t, p, IndexJ(vpn), e, Pfn(Entry(t, root, IndexI(v))), IndexK(v));
    }
  }

  lemma TableEntryIs(p: nat)
    ensures IsTable(TableEntry(p)) && Pfn(TableEntry(p)) == p
  {
    DivModUnique(TableEntry(p), 1024, p, 1);
    DivModUnique(TableEntry(p), 2, 512 * p, 1);
    DivModUnique(512 * p, 8, 64 * p, 0);
  }

  /** A walk stays open or not when its slots are left alone, or an empty one is filled with a table, an empty one on
      top. */
  lemma StaysOpen(t: Tables, t': Tables, root: nat, v: nat)
    requires var e2, e2' := Entry(t, root, IndexI(v)), Entry(t', root, IndexI(v));
             || (e2 == 0 && IsTable(e2') && Entry(t', Pfn(e2'), IndexK(v)) == 0)
             || (e2' == e2 && (IsTable(e2) ==>
                  var e1, e1' := Entry(t, Pfn(e2), IndexK(v)), Entry(t', Pfn(e2), IndexK(v));
                  e1' == e1 || (e1 == 0 && IsTable(e1'))))
    ensures Open(t', root, v) <==> Open(t, root, v)
  {
  }

  lemma LinkPmdKeepsOpen(t: Tables, loc: map<nat, Loc>, root: nat, i: nat, p: nat)
    requires Wf(t, loc, root) && i < PTRS && p !in t && Entry(t, root, i) == 0
    ensures OpenKept(t, SetEntry(t[p := Zeros()], root, i, TableEntry(p)), root)
  {
    var t0, e := t[p := Zeros()], TableEntry(p);
    TableEntryIs(p);
    assert p != root && root in t0 && |t0[root]| == PTRS && p !in t;
    forall v | 0 <= v < VPNS ensures Open(SetEntry(t0, root, i, e), root, v) <==> Open(t, root, v) {
      OtherWalk(t, loc, root, v);
      var q := Pfn(Entry(t, root, IndexI(v)));
      SetEntryIs(t0, root, i, e, root, IndexI(v));
      SetEntryIs(t0, root, i, e, p, IndexK(v));
      SetEntryIs(t0, root, i, e, q, IndexK(v));
      FreshRow(t, p, root, IndexI(v));
      FreshRow(t, p, q, IndexK(v));
      FreshRow(t, p, p, IndexK(v));
      assert Entry(t, p, IndexK(v)) == 0;
      hide Wf, SetEntry, Entry, IsTable, Pfn, TableEntry, IndexI, IndexK, Open;
      StaysOpen(t, SetEntry(t0, root, i, e), root, v);
    }
  }

  /** A new empty table reads as the unknown table it was before. */
  lemma FreshRow(t: Tables, p: nat, q: nat, y: nat)
    requires p !in t
    ensures Entry(t[p := Zeros()], q, y) == Entry(t, q, y)
  {
  }

  lemma LinkPteKeepsOpen(t: Tables, loc: map<nat, Loc>, root: nat, i: nat, q: nat, k: nat, p: nat)
    requires Wf(t, loc, root) && TableAt(t, loc, q, Pmd(i)) && k < PTRS && p !in t && Entry(t, q, k) == 0
    ensures OpenKept(t, SetEntry(t[p := Zeros()], q, k, TableEntry(p)), root)
  {
    var t0, e := t[p := Zeros()], TableEntry(p);
    TableEntryIs(p);
    assert q != root && q in t0 && |t0[q]| == PTRS;
    forall v | 0 <= v < VPNS ensures Open(SetEntry(t0, q, k, e), root, v) <==> Open(t, root, v) {
      OtherWalk(t, loc, root, v);
      var q' := Pfn(Entry(t, root, IndexI(v)));
      SetEntryIs(t0, q, k, e, root, IndexI(v));
      SetEntryIs(t0, q, k, e, q', IndexK(v));
      FreshRow(t, p, root, IndexI(v));
      FreshRow(t, p, q', IndexK(v));
      hide Wf, SetEntry, Entry, IsTable, Pfn, TableEntry, IndexI, IndexK, Open;
      StaysOpen(t, SetEntry(t0, q, k, e), root, v);
    }
  }
}
