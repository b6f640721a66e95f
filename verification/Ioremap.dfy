/** ioremap_page_range: three nested loops over the page-table levels. */
module Ioremap {
  import opened Bits
  import opened Sv39

  const PMD_SIZE: nat := 0x20_0000
  const PGDIR_SIZE: nat := 0x4000_0000

  /** Stray: an entry in the way is neither empty nor a table, and the code goes on with the frame it names as a
      table. */
  datatype Outcome = Ok | NoMemory | Bug | Stray

  /** What asking for a table gives. */
  datatype Level = Table(pfn: nat) | NoPage | NotTable

  /** The 27-bit virtual page number of an address. */
  function Vpn(addr: nat): nat { (addr / PAGE_SIZE) % VPNS }

  function PgdIndex(addr: nat): nat { (addr / PGDIR_SIZE) % PTRS }
  function PmdIndex(addr: nat): nat { (addr / PMD_SIZE) % PTRS }
  function PteIndex(addr: nat): nat { (addr / PAGE_SIZE) % PTRS }

  /** The three indices are the three nine-bit digits of the page number. */
  lemma IndicesOf(addr: nat)
    ensures PgdIndex(addr) == IndexI(Vpn(addr)) && PmdIndex(addr) == IndexK(Vpn(addr))
            && PteIndex(addr) == IndexJ(Vpn(addr))
    ensures Vpn(addr) < VPNS && PgdIndex(addr) < PTRS && PmdIndex(addr) < PTRS
  {
    var a := addr / PAGE_SIZE;
    var b, c := a / 512, a / 512 / 512;
    DivModUnique(addr, PMD_SIZE, b, (a % 512) * PAGE_SIZE + addr % PAGE_SIZE);
    DivModUnique(addr, PGDIR_SIZE, c, ((b % 512) * 512 + a % 512) * PAGE_SIZE + addr % PAGE_SIZE);
    DigitsOf(a, c / 512, c % 512, b % 512, a % 512);
  }

  lemma DigitsOf(a: nat, w: nat, i: nat, k: nat, j: nat)
    requires a == ((w * 512 + i) * 512 + k) * 512 + j && i < 512 && k < 512 && j < 512
    ensures a % VPNS == (i * 512 + k) * 512 + j
    ensures IndexI(a % VPNS) == i && IndexK(a % VPNS) == k && IndexJ(a % VPNS) == j
  {
    var v := (i * 512 + k) * 512 + j;
    DivModUnique(a, VPNS, w, v);
    Digits(v, i, k, j);
  }

  function BlockStart(s: nat, size: nat): nat
    requires size > 0
  {
    Mul(Quot(s, size), size)
  }

  /** The end of the range or of the block of the given size that addr lies in, in 64 bits, wrap-around included. */
  function BlockEnd(addr: nat, end: nat, size: nat): nat
    requires end > 0 && size > 0
  {
    var boundary := BlockStart(Rem(addr + size, TWO64), size);
    if (boundary - 1) % TWO64 < end - 1 then boundary else end
  }

  /** pmd_addr_end and pgd_addr_end. */
  function PmdAddrEnd(addr: nat, end: nat): nat
    requires end > 0
  {
    BlockEnd(addr, end, PMD_SIZE)
  }

  function PgdAddrEnd(addr: nat, end: nat): nat
    requires end > 0
  {
    BlockEnd(addr, end, PGDIR_SIZE)
  }

  /** Whichever comes first, for sizes that divide the address space. */
  lemma BlockEndIs(addr: nat, end: nat, size: nat, n: nat)
    requires addr < end < TWO64 && size > 0 && Mul(n, size) == TWO64
    ensures var next := Mul(Quot(addr, size) + 1, size); BlockEnd(addr, end, size) == if next < end then next else end
  {
    hide Mul, Quot, Rem;
    var q, m := Quot(addr, size), Rem(addr, size);
    var s, next := addr + size, Mul(q + 1, size);
    QuotRem(addr, size);
    NextMultiple(q, size);
    if s < TWO64 {
      QuotRemUnique(s, size, q + 1, m);
      Wrapped(s, s);
    } else {
      LastMultiple(q, n, size, addr);
      Wrapped(s, m);
      NextMultiple(0, size);
      QuotRemUnique(m, size, 0, m);
    }
    Before(BlockStart(Rem(s, TWO64), size));
  }

  lemma Before(b: nat)
    requires b < TWO64
    ensures (b - 1) % TWO64 == if b == 0 then TWO64 - 1 else b - 1
  {
  }

  lemma Wrapped(s: nat, m: nat)
    requires m < TWO64 && (s == m || s == m + TWO64)
    ensures Rem(s, TWO64) == m
  {
    DivModUnique(s, TWO64, if s == m then 0 else 1, m);
  }

  lemma NextMultiple(q: nat, size: nat)
    ensures Mul(q + 1, size) == Mul(q, size) + size && Mul(0, size) == 0
  {
  }

  /** The block in which the address space ends is the last one. */
  lemma LastMultiple(q: nat, n: nat, size: nat, addr: nat)
    requires Mul(n, size) == TWO64 && Mul(q, size) <= addr < Mul(q, size) + size && addr < TWO64 <= addr + size
    ensures Mul(q + 1, size) == TWO64
  {
    NextMultiple(q, size);
    NextMultiple(q + 1, size);
    NextMultiple(n, size);
    MulMonotone(q + 2, n, size);
    MulMonotone(n + 1, q + 1, size);
  }

  lemma PmdAddrEndIs(addr: nat, end: nat)
    requires addr < end < TWO64
    ensures var next := (addr / PMD_SIZE + 1) * PMD_SIZE; PmdAddrEnd(addr, end) == if next < end then next else end
  {
    hide BlockEnd;
    BlockEndIs(addr, end, PMD_SIZE, 0x800_0000_0000);
  }

  lemma PgdAddrEndIs(addr: nat, end: nat)
    requires addr < end < TWO64
    ensures var next := (addr / PGDIR_SIZE + 1) * PGDIR_SIZE; PgdAddrEnd(addr, end) == if next < end then next else end
  {
    hide BlockEnd;
    BlockEndIs(addr, end, PGDIR_SIZE, 0x4_0000_0000);
  }

  lemma VpnAdvance(addr: nat, n: nat)
    requires Vpn(addr) + n < VPNS
    ensures Vpn(addr + n * PAGE_SIZE) == Vpn(addr) + n
  {
    var a := addr / PAGE_SIZE;
    DivModUnique(addr + n * PAGE_SIZE, PAGE_SIZE, a + n, addr % PAGE_SIZE);
    DivModUnique(a + n, VPNS, a / VPNS, Vpn(addr) + n);
  }

  class PageTables {
    const root: nat
    var tables: Tables
    /** Zeroed pages the allocator still has; it fails when there are none. */
    var avail: seq<nat>
    ghost var loc: map<nat, Loc>

    ghost predicate Valid()
      reads this
    {
      && Wf(tables, loc, root)
      && (forall x, y :: 0 <= x < y < |avail| ==> avail[x] != avail[y])
      && forall x :: 0 <= x < |avail| ==> avail[x] !in tables
    }

    /** An empty root table and pages to make others from. */
    constructor (root: nat, avail: seq<nat>)
      requires root !in avail && forall x, y :: 0 <= x < y < |avail| ==> avail[x] != avail[y]
      ensures Valid() && this.root == root && this.avail == avail && loc == map[root := Root]
      ensures forall v :: 0 <= v < VPNS ==> Lookup(tables, root, v) == Fault(0)
    {
      this.root, this.avail := root, avail;
      tables, loc := map[root := Zeros()], map[root := Root];
    }

    /** pmd_alloc_track: the middle-level table for addr, made if the root slot is empty. */
    method PmdAllocTrack(i: nat, addr: nat) returns (r: Level)
      requires Valid() && i == IndexI(Vpn(addr))
      modifies this
      ensures Valid() && OpenKept(old(tables), tables, root) && SameOutside(old(tables), tables, root, 0, 0)
      ensures r.Table? ==> var e := Entry(tables, root, IndexI(Vpn(addr))); IsTable(e) && Pfn(e) == r.pfn
      ensures r == NoPage ==> avail == [] && old(Lookup(tables, root, Vpn(addr))) == Fault(0)
      ensures r == NotTable ==> tables == old(tables) && !Open(tables, root, Vpn(addr))
    {
      IndicesOf(addr);
      RootSlot(tables, root, Vpn(addr));
      assert root in tables && |tables[root]| == PTRS;
      hide Wf, Lookup, IsTable, Pfn, TableEntry, Entry, IndexI, Vpn, OpenKept, SameOutside;
      SameTables(tables, root);
      if Entry(tables, root, i) == 0 {
        if avail == [] {
          return NoPage;
        }
        var p := avail[0];
        TableEntryIs(p);
        SetEntryIs(tables[p := Zeros()], root, i, TableEntry(p), root, i);
        LinkPmd(tables, loc, root, i, p);
        LinkPmdKeepsOpen(tables, loc, root, i, p);
        LinkedSame(tables, SetEntry(tables[p := Zeros()], root, i, TableEntry(p)), root);
        avail := avail[1..];
        tables := SetEntry(tables[p := Zeros()], root, i, TableEntry(p));
        loc := loc[p := Pmd(i)];
      }
      r := if IsTable(Entry(tables, root, i)) then Table(Pfn(Entry(tables, root, i))) else NotTable;
    }

    /** pte_alloc_kernel_track: the last-level table for addr below q, made if the slot is empty. */
    method PteAllocTrack(q: nat, k: nat, addr: nat) returns (r: Level)
      requires Valid() && k == IndexK(Vpn(addr))
      requires IsTable(Entry(tables, root, IndexI(Vpn(addr)))) && Pfn(Entry(tables, root, IndexI(Vpn(addr)))) == q
      modifies this
      ensures Valid() && OpenKept(old(tables), tables, root) && SameOutside(old(tables), tables, root, 0, 0)
      ensures Entry(tables, root, IndexI(Vpn(addr))) == old(Entry(tables, root, IndexI(Vpn(addr))))
      ensures r.Table? ==> Serves(tables, root, Vpn(addr), r.pfn)
      ensures r == NoPage ==> avail == [] && old(Lookup(tables, root, Vpn(addr))) == Fault(0)
      ensures r == NotTable ==> tables == old(tables) && !Open(tables, root, Vpn(addr))
    {
      IndicesOf(addr);
      MiddleSlot(tables, root, Vpn(addr), q);
      OtherWalk(tables, loc, root, Vpn(addr));
      assert q in tables && |tables[q]| == PTRS && q != root;
      hide Wf, Lookup, IsTable, Pfn, TableEntry, Entry, IndexI, IndexK, Vpn, OpenKept, SameOutside;
      SameTables(tables, root);
      if Entry(tables, q, k) == 0 {
        if avail == [] {
          return NoPage;
        }
        var new_ := avail[0];
        LinkPte(tables, loc, root, IndexI(Vpn(addr)), q, k, new_);
        LinkPteKeepsOpen(tables, loc, root, IndexI(Vpn(addr)), q, k, new_);
        LinkedSame(tables, SetEntry(tables[new_ := Zeros()], q, k, TableEntry(new_)), root);
        TableEntryIs(new_);
        FreshRow(tables, new_, root, IndexI(Vpn(addr)));
        SetEntryIs(tables[new_ := Zeros()], q, k, TableEntry(new_), q, k);
        SetEntryIs(tables[new_ := Zeros()], q, k, TableEntry(new_), root, IndexI(Vpn(addr)));
        avail := avail[1..];
        tables := SetEntry(tables[new_ := Zeros()], q, k, TableEntry(new_));
        loc := loc[new_ := Pte(IndexI(Vpn(addr)), k)];
      }
      r := if IsTable(Entry(tables, q, k)) then Table(Pfn(Entry(tables, q, k))) else NotTable;
    }

    /** The body of the innermost loop: one page. Bug when the slot is taken. */
    method SetPage(p: nat, j: nat, pfn: nat, prot: nat, ghost v: nat) returns (ok: bool)
      requires Valid() && v < VPNS && Serves(tables, root, v, p) && j == IndexJ(v) && LeafProt(prot)
      modifies this`tables
      ensures Valid() && OpenKept(old(tables), tables, root) && SameOutside(old(tables), tables, root, v, v + 1)
      ensures Serves(tables, root, v, p) && Entry(tables, root, IndexI(v)) == old(Entry(tables, root, IndexI(v)))
      ensures ok <==> Lookup(old(tables), root, v) == Fault(0)
      ensures if ok then Lookup(tables, root, v) == Leaf(LeafEntry(pfn, prot), 0) else tables == old(tables)
    {
      if Entry(tables, p, j) != 0 {
        return false;
      }
      LeafEntryIsLeaf(pfn, prot);
      SetPte(tables, loc, root, v, p, LeafEntry(pfn, prot));
      SetPteKeepsOpen(tables, loc, root, v, p, LeafEntry(pfn, prot));
      SetEntryIs(tables, p, j, LeafEntry(pfn, prot), root, IndexI(v));
      tables := SetEntry(tables, p, j, LeafEntry(pfn, prot));
      ok := true;
    }

    /** ioremap_pte_range: the pages of one last-level table. */
    method PteRange(q: nat, k: nat, addr0: nat, end: nat, phys: nat, prot: nat, ghost v: nat, ghost n: nat)
      returns (r: Outcome)
      requires Valid() && At(addr0, end, v, n) && k == IndexK(v) && LeafProt(prot) && InTable(v, n)
      requires IsTable(Entry(tables, root, IndexI(v))) && Pfn(Entry(tables, root, IndexI(v))) == q
      modifies this
      ensures Valid() && Entry(tables, root, IndexI(v)) == old(Entry(tables, root, IndexI(v)))
      ensures Mapping(r, old(tables), tables, root, v, v + n, phys / PAGE_SIZE, prot) && (r == NoMemory ==> avail == [])
    {
      hide Lookup, Entry, Open, Wf, Vpn, At, PageRange, Pages, Serves, IsTable, Mapping, LeafProt;
      hide IndexI, IndexK, IndexJ, InTable, PteIndex, PmdIndex, PgdIndex, OpenKept, SameOutside;
      AtIs(addr0, end, v, n);
      var got := PteAllocTrack(q, k, addr0);
      ghost var t := tables;
      if !got.Table? {
        NothingMapped(got, old(tables), t, root, v, v + n, phys / PAGE_SIZE, prot);
        return NotMapped(got);
      }
      IndicesOf(addr0);
      r := FillPtes(got.pfn, PteIndex(addr0), addr0, end, phys / PAGE_SIZE, prot, v, n);
      MappingAfterLink(r, old(tables), t, tables, root, v, v + n, phys / PAGE_SIZE, prot);
    }

    /** The do-while loop over the entries of one table. */
    method FillPtes(p: nat, j0: nat, addr0: nat, end: nat, pfn0: nat, prot: nat, ghost v: nat, ghost n: nat)
      returns (r: Outcome)
      requires Valid() && LeafProt(prot) && v < VPNS && Serves(tables, root, v, p) && j0 == IndexJ(v)
      requires 0 < n && InTable(v, n) && end == addr0 + n * PAGE_SIZE
      modifies this`tables
      ensures Valid() && Entry(tables, root, IndexI(v)) == old(Entry(tables, root, IndexI(v)))
      ensures Mapping(r, old(tables), tables, root, v, v + n, pfn0, prot) && (r == Ok || r == Bug)
    {
      hide Wf, Lookup, Entry, Serves, IndexI, IndexK, IndexJ, InTable, Mapping, LeafProt, Open, OpenKept, SameOutside;
      var addr, j, pfn := addr0, j0, pfn0;
      ghost var m := 0;
      MappingStarts(tables, root, v, pfn0, prot);
      while true
        invariant 0 <= m < n && addr == addr0 + m * PAGE_SIZE && pfn == pfn0 + m && j == j0 + m
        invariant Valid() && Serves(tables, root, v, p) && Mapping(Ok, old(tables), tables, root, v, v + m, pfn0, prot)
        invariant Entry(tables, root, IndexI(v)) == old(Entry(tables, root, IndexI(v)))
        decreases n - m
      {
        SameBlock(v, m, n);
        ghost var t := tables;
        ServesBlock(t, root, v, m, p);
        var ok := SetPage(p, j, pfn, prot, v + m);
        ServesBlock(tables, root, v, m, p);
        ServesIsOpen(t, root, v + m, p);
        OnePage(if ok then Ok else Bug, t, tables, root, v + m, pfn, prot);
        MappingJoins(if ok then Ok else Bug, old(tables), t, tables, root, v, v + m, v + m + 1, v + n, pfn0, prot);
        if !ok {
          return Bug;
        }
        pfn, j, addr, m := pfn + 1, j + 1, addr + PAGE_SIZE, m + 1;
        if addr == end {
          return Ok;
        }
      }
    }

    /** ioremap_pmd_range: the last-level tables below one root slot. */
    method PmdRange(i: nat, addr0: nat, end: nat, phys0: nat, prot: nat, ghost v0: nat, ghost n: nat)
      returns (r: Outcome)
      requires Valid() && At(addr0, end, v0, n) && i == IndexI(v0) && LeafProt(prot)
      requires InSlot(v0, n)
      modifies this
      ensures Valid() && Mapping(r, old(tables), tables, root, v0, v0 + n, phys0 / PAGE_SIZE, prot)
      ensures r == NoMemory ==> avail == []
    {
      assert 0 < n && v0 + n <= VPNS by { SlotEnd(addr0, v0, n); }
      hide Lookup, Entry, Open, Wf, Vpn, Mapping, IsTable;
      var got := PmdAllocTrack(i, addr0);
      ghost var t := tables;
      if !got.Table? {
        NothingMapped(got, old(tables), t, root, v0, v0 + n, phys0 / PAGE_SIZE, prot);
        return NotMapped(got);
      }
      IndicesOf(addr0);
      r := PmdLoop(got.pfn, i, PmdIndex(addr0), addr0, end, phys0, prot, v0, n);
      MappingAfterLink(r, old(tables), t, tables, root, v0, v0 + n, phys0 / PAGE_SIZE, prot);
    }

    /** The do-while loop of ioremap_pmd_range. */
    method PmdLoop(q: nat, ghost i: nat, k0: nat, addr0: nat, end: nat, phys0: nat, prot: nat, ghost v0: nat,
                   ghost n: nat)
      returns (r: Outcome)
      requires Valid() && LeafProt(prot) && v0 < VPNS && InSlot(v0, n)
      requires 0 < n && At(addr0, end, v0, n) && k0 == IndexK(v0) && i == IndexI(v0)
      requires IsTable(Entry(tables, root, i)) && Pfn(Entry(tables, root, i)) == q
      modifies this
      ensures Valid() && Mapping(r, old(tables), tables, root, v0, v0 + n, phys0 / PAGE_SIZE, prot)
      ensures r == NoMemory ==> avail == []
    {
      hide At, IndexI, IndexK, Entry, Lookup, Mapping;
      ghost var m := 0;
      var addr, phys, k := addr0, phys0, k0;
      MappingStarts(tables, root, v0, phys0 / PAGE_SIZE, prot);
      while true
        invariant 0 <= m < n && At(addr, end, v0 + m, n - m) && phys == phys0 + m * PAGE_SIZE && k == IndexK(v0 + m)
        invariant Valid() && Mapping(Ok, old(tables), tables, root, v0, v0 + m, phys0 / PAGE_SIZE, prot)
        invariant IsTable(Entry(tables, root, i)) && Pfn(Entry(tables, root, i)) == q
        decreases n - m
      {
        ghost var t, d := tables, 0;
        SlotIndices(v0, m);
        var next;
        r, next, d := PmdStep(q, i, k, addr, end, phys, prot, v0, m, n);
        MappingJoins(r, old(tables), t, tables, root, v0, v0 + m, v0 + m + d, v0 + n, phys0 / PAGE_SIZE, prot);
        if r != Ok {
          return;
        }
        k, phys, addr, m := k + 1, phys + (next - addr), next, m + d;
        if addr == end {
          return Ok;
        }
      }
    }

    /** One round of the middle loop, at page v0 + m of a range of n pages from v0. */
    method PmdStep(q: nat, ghost i: nat, k: nat, addr: nat, end: nat, phys: nat, prot: nat,
                   ghost v0: nat, ghost m: nat, ghost n: nat)
      returns (r: Outcome, next: nat, ghost d: nat)
      requires Valid() && m < n && At(addr, end, v0 + m, n - m) && k == IndexK(v0 + m) && i == IndexI(v0 + m)
               && LeafProt(prot)
      requires InSlot(v0, n)
      requires IsTable(Entry(tables, root, i)) && Pfn(Entry(tables, root, i)) == q
      modifies this
      ensures Valid() && Entry(tables, root, i) == old(Entry(tables, root, i))
      ensures 0 < d <= n - m && next - addr == d * PAGE_SIZE
      ensures Mapping(r, old(tables), tables, root, v0 + m, v0 + m + d, phys / PAGE_SIZE, prot)
              && (r == NoMemory ==> avail == [])
      ensures if d == n - m then next == end
              else next != end && At(next, end, v0 + m + d, n - m - d) && IndexK(v0 + m + d) == k + 1
    {
      assert addr < end;
      hide *;
      PmdRound(addr, end, v0, m, n);
      next := PmdAddrEnd(addr, end);
      d := Pages(addr, next);
      r := PteRange(q, k, addr, next, phys, prot, v0 + m, d);
    }

    /** One round of the outer loop. */
    method PgdStep(i: nat, addr: nat, end: nat, phys: nat, prot: nat, ghost v: nat, ghost n: nat)
      returns (r: Outcome, next: nat, ghost d: nat)
      requires Valid() && 0 < n && v + n <= VPNS && At(addr, end, v, n) && i == IndexI(v) && LeafProt(prot)
      modifies this
      ensures Valid() && 0 < d <= n && next - addr == d * PAGE_SIZE
      ensures Mapping(r, old(tables), tables, root, v, v + d, phys / PAGE_SIZE, prot) && (r == NoMemory ==> avail == [])
      ensures if d == n then next == end else next != end && At(next, end, v + d, n - d) && IndexI(v + d) == i + 1
    {
      assert addr < end;
      hide Lookup, Entry, Open, Wf, Mapping, At, Vpn, PgdAddrEnd;
      next := PgdAddrEnd(addr, end);
      d := Pages(addr, next);
      NextPgd(addr, end, v, n);
      if d < n {
        NextIndexI(v, d);
      }
      r := PmdRange(i, addr, next, phys, prot, v, d);
    }

    /** ioremap_page_range. */
    method IoremapPageRange(addr0: nat, end: nat, phys0: nat, prot: nat) returns (r: Outcome)
      requires Valid() && LeafProt(prot) && addr0 < TWO64 && end < TWO64 && addr0 % PAGE_SIZE == 0
               && end % PAGE_SIZE == 0
      requires addr0 < end ==> Vpn(addr0) + Pages(addr0, end) <= VPNS
      modifies this
      ensures Valid()
      ensures addr0 >= end ==> r == Bug && tables == old(tables) && avail == old(avail)
      ensures addr0 < end ==>
                var lo, hi := Vpn(addr0), Vpn(addr0) + Pages(addr0, end);
                Mapping(r, old(tables), tables, root, lo, hi, phys0 / PAGE_SIZE, prot)
      ensures addr0 < end && !old(Open(tables, root, Vpn(addr0))) ==> r == Stray
      ensures r == NoMemory ==> avail == []
    {
      hide Lookup, Entry, Open, Wf, Mapping, IndexI, PgdIndex, Vpn, Pages, At;
      if addr0 >= end {
        return Bug;
      }
      ghost var v0, n := Vpn(addr0), Pages(addr0, end);
      StartsAt(addr0, end);
      IndicesOf(addr0);
      var i := PgdIndex(addr0);
      r := PgdLoop(i, addr0, end, phys0, prot, v0, n);
      if !old(Open(tables, root, v0)) {
        StraysAtOnce(r, old(tables), tables, root, v0, v0 + n, phys0 / PAGE_SIZE, prot);
      }
    }

    /** The do-while loop of ioremap_page_range. */
    method PgdLoop(i0: nat, addr0: nat, end: nat, phys0: nat, prot: nat, ghost v0: nat, ghost n: nat)
      returns (r: Outcome)
      requires Valid() && LeafProt(prot) && 0 < n && v0 + n <= VPNS && At(addr0, end, v0, n) && i0 == IndexI(v0)
      modifies this
      ensures Valid() && Mapping(r, old(tables), tables, root, v0, v0 + n, phys0 / PAGE_SIZE, prot)
      ensures r == NoMemory ==> avail == []
    {
      hide At, IndexI, Lookup, Mapping, Wf, Open;
      ghost var m := 0;
      var addr, phys, i := addr0, phys0, i0;
      MappingStarts(tables, root, v0, phys0 / PAGE_SIZE, prot);
      while true
        invariant 0 <= m < n && At(addr, end, v0 + m, n - m) && phys == phys0 + m * PAGE_SIZE && i == IndexI(v0 + m)
        invariant Valid() && Mapping(Ok, old(tables), tables, root, v0, v0 + m, phys0 / PAGE_SIZE, prot)
        decreases n - m
      {
        ghost var t, d := tables, 0;
        var next;
        r, next, d := PgdStep(i, addr, end, phys, prot, v0 + m, n - m);
        MappingJoins(r, old(tables), t, tables, root, v0, v0 + m, v0 + m + d, v0 + n, phys0 / PAGE_SIZE, prot);
        if r != Ok {
          return;
        }
        i, phys, addr, m := i + 1, phys + (next - addr), next, m + d;
        if addr == end {
          return Ok;
        }
      }
    }
  }

  /** The pages before v were vacant and are mapped, and no other page has changed. */
  ghost predicate Reached(t0: Tables, t: Tables, root: nat, lo: nat, v: nat, pfn: nat, prot: nat) {
    lo <= v && Vacant(t0, root, lo, v) && MapsRun(t, root, lo, v, pfn, prot) && SameOutside(t0, t, root, lo, v)
  }

  /** What a call that stops at page v says about it: in use, or not to be reached, or vacant and without a table. */
  ghost predicate StopsAt(r: Outcome, t0: Tables, root: nat, v: nat) {
    match r
    case Ok => false
    case Bug => Open(t0, root, v) && Lookup(t0, root, v) != Fault(0)
    case Stray => !Open(t0, root, v)
    case NoMemory => Lookup(t0, root, v) == Fault(0)
  }

  /** What a call over the pages [lo, hi) has done: it has mapped all of them, or those before the page it stops at. */
  ghost predicate Mapping(r: Outcome, t0: Tables, t: Tables, root: nat, lo: nat, hi: nat, pfn: nat, prot: nat) {
    && OpenKept(t0, t, root)
    && if r == Ok then Reached(t0, t, root, lo, hi, pfn, prot)
       else exists v: nat :: v < hi && Reached(t0, t, root, lo, v, pfn, prot) && StopsAt(r, t0, root, v)
  }

  /** Whatever happens, no page outside the range changes. */
  lemma MappingFrame(r: Outcome, t0: Tables, t: Tables, root: nat, lo: nat, hi: nat, pfn: nat, prot: nat)
    requires Mapping(r, t0, t, root, lo, hi, pfn, prot)
    ensures SameOutside(t0, t, root, lo, hi)
  {
    hide Lookup;
  }

  lemma VacantIsOpen(t: Tables, root: nat, v: nat)
    ensures Lookup(t, root, v) == Fault(0) ==> Open(t, root, v)
  {
  }

  /** Memory permitting, the first page that is not vacant decides: there is none, or its walk is open, or it is not. */
  lemma OutcomeExactly(r: Outcome, t0: Tables, t: Tables, root: nat, lo: nat, hi: nat, pfn: nat, prot: nat)
    requires lo <= hi && Mapping(r, t0, t, root, lo, hi, pfn, prot) && r != NoMemory
    ensures r == Ok <==> Vacant(t0, root, lo, hi)
    ensures r == Bug <==> exists v: nat :: InTheWay(t0, root, lo, hi, v) && Open(t0, root, v)
    ensures r == Stray <==> exists v: nat :: InTheWay(t0, root, lo, hi, v) && !Open(t0, root, v)
  {
    hide Lookup, Open;
    if r != Ok {
      var v: nat :| v < hi && Reached(t0, t, root, lo, v, pfn, prot) && StopsAt(r, t0, root, v);
      VacantIsOpen(t0, root, v);
      assert InTheWay(t0, root, lo, hi, v);
      assert forall w: nat :: InTheWay(t0, root, lo, hi, w) ==> w == v;
    }
  }

  /** When the first page cannot be reached, the code takes the frame of another entry for a table. */
  lemma StraysAtOnce(r: Outcome, t0: Tables, t: Tables, root: nat, lo: nat, hi: nat, pfn: nat, prot: nat)
    requires lo < hi && Mapping(r, t0, t, root, lo, hi, pfn, prot) && !Open(t0, root, lo)
    ensures r == Stray
  {
    hide Lookup, Open;
    VacantIsOpen(t0, root, lo);
  }

  /** Such tables: a root with a large page in its first slot. */
  lemma LargePageInTheWay(v: nat)
    requires v < 0x4_0000
    ensures var t: Tables := map[0 := [LeafEntry(0, 15)] + seq(PTRS - 1, _ => 0)];
            Wf(t, map[0 := Root], 0) && !Open(t, 0, v)
  {
    var t: Tables := map[0 := [LeafEntry(0, 15)] + seq(PTRS - 1, _ => 0)];
    assert IsLeaf(LeafEntry(0, 15)) && Entry(t, 0, 0) == LeafEntry(0, 15);
    assert forall i :: 0 < i < PTRS ==> Entry(t, 0, i) == 0;
  }

  lemma SameTables(t: Tables, root: nat)
    ensures OpenKept(t, t, root) && SameOutside(t, t, root, 0, 0)
  {
  }

  lemma RootSlot(t: Tables, root: nat, v: nat)
    ensures Entry(t, root, IndexI(v)) == 0 ==> Lookup(t, root, v) == Fault(0)
  {
  }

  lemma MiddleSlot(t: Tables, root: nat, v: nat, q: nat)
    requires IsTable(Entry(t, root, IndexI(v))) && Pfn(Entry(t, root, IndexI(v))) == q
    ensures Entry(t, q, IndexK(v)) == 0 ==> Lookup(t, root, v) == Fault(0)
  {
  }

  lemma LinkedSame(t: Tables, t': Tables, root: nat)
    requires forall v :: 0 <= v < VPNS ==> Lookup(t', root, v) == Lookup(t, root, v)
    ensures SameOutside(t, t', root, 0, 0)
  {
  }

  /** The outcome when there is no table to go on with. */
  function NotMapped(got: Level): Outcome { if got == NoPage then NoMemory else Stray }

  lemma NothingMapped(got: Level, t0: Tables, t: Tables, root: nat, lo: nat, hi: nat, pfn: nat, prot: nat)
    requires OpenKept(t0, t, root) && SameOutside(t0, t, root, 0, 0) && lo < hi && !got.Table?
    requires if got == NotTable then !Open(t0, root, lo) else Lookup(t0, root, lo) == Fault(0)
    ensures Mapping(NotMapped(got), t0, t, root, lo, hi, pfn, prot)
  {
    hide Lookup, Open;
    assert Reached(t0, t, root, lo, lo, pfn, prot);
  }

  lemma MappingStarts(t: Tables, root: nat, lo: nat, pfn: nat, prot: nat)
    ensures Mapping(Ok, t, t, root, lo, lo, pfn, prot)
  {
  }

  lemma OnePage(r: Outcome, t0: Tables, t: Tables, root: nat, v: nat, pfn: nat, prot: nat)
    requires OpenKept(t0, t, root) && SameOutside(t0, t, root, v, v + 1) && (r == Ok || r == Bug)
    requires r == Ok <==> Lookup(t0, root, v) == Fault(0)
    requires if r == Ok then Lookup(t, root, v) == Leaf(LeafEntry(pfn, prot), 0) else t == t0 && Open(t0, root, v)
    ensures Mapping(r, t0, t, root, v, v + 1, pfn, prot)
  {
    hide Lookup, Open;
    if r != Ok {
      assert Reached(t0, t, root, v, v, pfn, prot);
    }
  }

  /** New empty tables in between do not matter. */
  lemma MappingAfterLink(r: Outcome, t0: Tables, t1: Tables, t2: Tables, root: nat, lo: nat, hi: nat, pfn: nat,
                         prot: nat)
    requires OpenKept(t0, t1, root) && SameOutside(t0, t1, root, 0, 0) && hi <= VPNS
    requires Mapping(r, t1, t2, root, lo, hi, pfn, prot)
    ensures Mapping(r, t0, t2, root, lo, hi, pfn, prot)
  {
    hide Lookup, Open;
    assert forall v {:trigger Lookup(t1, root, v)} :: 0 <= v < VPNS ==> Lookup(t1, root, v) == Lookup(t0, root, v);
    if r != Ok {
      var v: nat :| v < hi && Reached(t1, t2, root, lo, v, pfn, prot) && StopsAt(r, t1, root, v);
      assert Reached(t0, t2, root, lo, v, pfn, prot);
    }
  }

  /** A stretch that succeeded, then the next one: together a longer one, or the failure of the whole range. */
  lemma MappingJoins(r: Outcome, t0: Tables, t1: Tables, t2: Tables, root: nat, lo: nat, mid: nat, mid': nat, hi: nat,
                     pfn: nat, prot: nat)
    requires lo <= mid <= mid' <= hi <= VPNS
    requires Mapping(Ok, t0, t1, root, lo, mid, pfn, prot)
    requires Mapping(r, t1, t2, root, mid, mid', pfn + (mid - lo), prot)
    ensures Mapping(r, t0, t2, root, lo, if r == Ok then mid' else hi, pfn, prot)
  {
    hide Lookup, Open;
    var next := pfn + (mid - lo);
    if r == Ok {
      ReachedJoins(t0, t1, t2, root, lo, mid, mid', pfn, prot);
    } else {
      var v: nat :| v < mid' && Reached(t1, t2, root, mid, v, next, prot) && StopsAt(r, t1, root, v);
      ReachedJoins(t0, t1, t2, root, lo, mid, v, pfn, prot);
      assert Lookup(t1, root, v) == Lookup(t0, root, v);
    }
  }

  lemma ReachedJoins(t0: Tables, t1: Tables, t2: Tables, root: nat, lo: nat, mid: nat, v: nat, pfn: nat, prot: nat)
    requires v <= VPNS && Reached(t0, t1, root, lo, mid, pfn, prot)
             && Reached(t1, t2, root, mid, v, pfn + (mid - lo), prot)
    ensures Reached(t0, t2, root, lo, v, pfn, prot)
  {
    hide Lookup;
    assert forall w {:trigger Lookup(t1, root, w)} :: mid <= w < v ==> Lookup(t1, root, w) == Lookup(t0, root, w);
    assert forall w {:trigger Lookup(t1, root, w)} :: lo <= w < mid ==> Lookup(t2, root, w) == Lookup(t1, root, w);
  }

  /** The range left starts at page v and has the given number of pages. */
  predicate At(addr: nat, end: nat, v: nat, left: nat) {
    PageRange(addr, end) && Vpn(addr) == v && Pages(addr, end) == left
  }

  lemma StartsAt(addr: nat, end: nat)
    requires PageRange(addr, end)
    ensures At(addr, end, Vpn(addr), Pages(addr, end)) && Pages(addr, end) > 0
  {
    AtIs(addr, end, Vpn(addr), Pages(addr, end));
  }

  lemma AtIs(addr: nat, end: nat, v: nat, n: nat)
    requires At(addr, end, v, n)
    ensures v == Vpn(addr) && 0 < n && end == addr + n * PAGE_SIZE
    ensures InTable(v, n) ==> v + n <= VPNS
  {
    PagesSplit(addr / PAGE_SIZE, end / PAGE_SIZE, end / PAGE_SIZE, addr, end, end);
    if InTable(v, n) {
      SlotEnd(addr, v, n);
    }
  }

  /** The step of the middle loop ends at the end of the block or of the range. */
  lemma NextPmd(addr: nat, end: nat, v: nat, n: nat)
    requires At(addr, end, v, n) && v + n <= VPNS
    ensures addr < PmdAddrEnd(addr, end) <= end
    ensures var next := PmdAddrEnd(addr, end); var d := Pages(addr, next);
            && 0 < d <= n && next - addr == d * PAGE_SIZE && At(addr, next, v, d) && InTable(v, d)
            && if d == n then next == end else next != end && Rem(v, 512) + d == 512 && At(next, end, v + d, n - d)
  {
    assert PageRange(addr, end) && v == Vpn(addr);
    hide At, Vpn, PmdAddrEnd, Pages, Rem;
    PmdEnd(addr, end, v);
    BlockStep(addr, PmdAddrEnd(addr, end), end, v, n, Rem(v, 512), 512);
  }

  /** The same for the outer loop and the slots of the root. */
  lemma NextPgd(addr: nat, end: nat, v: nat, n: nat)
    requires At(addr, end, v, n) && v + n <= VPNS
    ensures addr < PgdAddrEnd(addr, end) <= end
    ensures var next := PgdAddrEnd(addr, end); var d := Pages(addr, next);
            && 0 < d <= n && next - addr == d * PAGE_SIZE && At(addr, next, v, d) && InSlot(v, d)
            && if d == n then next == end
               else next != end && Rem(v, 0x4_0000) + d == 0x4_0000 && At(next, end, v + d, n - d)
  {
    assert PageRange(addr, end) && v == Vpn(addr);
    hide At, Vpn, PgdAddrEnd, Pages, Rem;
    PgdEnd(addr, end, v);
    BlockStep(addr, PgdAddrEnd(addr, end), end, v, n, Rem(v, 0x4_0000), 0x4_0000);
  }

  /** Where a round ends, counted in pages. */
  lemma PmdEnd(addr: nat, end: nat, v: nat)
    requires PageRange(addr, end) && v == Vpn(addr)
    ensures var a := addr / PAGE_SIZE; var next := (a - Rem(v, 512) + 512) * PAGE_SIZE;
            && addr == a * PAGE_SIZE && Rem(v, 512) <= a && Rem(v, 512) < 512
            && PmdAddrEnd(addr, end) == if next < end then next else end
  {
    PmdAddrEndIs(addr, end);
    PmdBlockEnd(addr / PAGE_SIZE, addr);
  }

  lemma PgdEnd(addr: nat, end: nat, v: nat)
    requires PageRange(addr, end) && v == Vpn(addr)
    ensures var a := addr / PAGE_SIZE; var next := (a - Rem(v, 0x4_0000) + 0x4_0000) * PAGE_SIZE;
            && addr == a * PAGE_SIZE && Rem(v, 0x4_0000) <= a && Rem(v, 0x4_0000) < 0x4_0000
            && PgdAddrEnd(addr, end) == if next < end then next else end
  {
    PgdAddrEndIs(addr, end);
    PgdBlockEnd(addr / PAGE_SIZE, addr);
  }

  /** A round that ends where a block of size pages ends, r of them before addr, or where the range does. */
  lemma BlockStep(addr: nat, next: nat, end: nat, v: nat, n: nat, r: nat, size: nat)
    requires At(addr, end, v, n) && v + n <= VPNS
    requires var a := addr / PAGE_SIZE; var bound := (a - r + size) * PAGE_SIZE;
             addr == a * PAGE_SIZE && r <= a && r < size && next == if bound < end then bound else end
    ensures addr < next <= end
    ensures var d := Pages(addr, next);
            && 0 < d <= n && next - addr == d * PAGE_SIZE && At(addr, next, v, d) && r + d <= size
            && if d == n then next == end else next != end && r + d == size && At(next, end, v + d, n - d)
  {
    assert end % PAGE_SIZE == 0 && addr < end;
    DivModUnique((addr / PAGE_SIZE - r + size) * PAGE_SIZE, PAGE_SIZE, addr / PAGE_SIZE - r + size, 0);
    hide At, Pages, PageRange, Vpn;
    StepTo(addr, next, end, v, n);
  }

  /** Going on from next leaves the rest of the range. */
  lemma StepTo(addr: nat, next: nat, end: nat, v: nat, n: nat)
    requires At(addr, end, v, n) && v + n <= VPNS && addr < next <= end && next % PAGE_SIZE == 0
    ensures var d := Pages(addr, next);
            && 0 < d <= n && next - addr == d * PAGE_SIZE && At(addr, next, v, d)
            && if d == n then next == end else next < end && At(next, end, v + d, n - d)
  {
    PagesSplit(addr / PAGE_SIZE, next / PAGE_SIZE, end / PAGE_SIZE, addr, next, end);
    if next < end {
      VpnAdvance(addr, Pages(addr, next));
    }
  }

  lemma PmdBlockEnd(a: nat, addr: nat)
    requires addr == a * PAGE_SIZE
    ensures (addr / PMD_SIZE + 1) * PMD_SIZE == (a - a % 512 + 512) * PAGE_SIZE && Vpn(addr) % 512 == a % 512
  {
    var w, v := a / VPNS, a % VPNS;
    DivModUnique(addr, PMD_SIZE, a / 512, (a % 512) * PAGE_SIZE);
    DivModUnique(addr, PAGE_SIZE, a, 0);
    DivModUnique(a, 512, w * 0x4_0000 + v / 512, v % 512);
  }

  lemma PgdBlockEnd(a: nat, addr: nat)
    requires addr == a * PAGE_SIZE
    ensures (addr / PGDIR_SIZE + 1) * PGDIR_SIZE == (a - a % 0x4_0000 + 0x4_0000) * PAGE_SIZE
    ensures Vpn(addr) % 0x4_0000 == a % 0x4_0000
  {
    var w, v := a / VPNS, a % VPNS;
    DivModUnique(addr, PGDIR_SIZE, a / 0x4_0000, (a % 0x4_0000) * PAGE_SIZE);
    DivModUnique(addr, PAGE_SIZE, a, 0);
    DivModUnique(a, 0x4_0000, w * 512 + v / 0x4_0000, v % 0x4_0000);
  }

  lemma PagesSplit(a: nat, b: nat, c: nat, addr: nat, next: nat, end: nat)
    requires addr == a * PAGE_SIZE && next == b * PAGE_SIZE && end == c * PAGE_SIZE && addr <= next <= end
    ensures Pages(addr, next) == b - a && Pages(next, end) == c - b && Pages(addr, end) == c - a
  {
    DivModUnique(next - addr, PAGE_SIZE, b - a, 0);
    DivModUnique(end - next, PAGE_SIZE, c - b, 0);
    DivModUnique(end - addr, PAGE_SIZE, c - a, 0);
  }

  lemma SlotEnd(addr: nat, v: nat, n: nat)
    requires v == Vpn(addr) && (v % 0x4_0000 + n <= 0x4_0000 || v % 512 + n <= 512)
    ensures v + n <= VPNS
  {
  }

  /** n pages from page v on lie in one slot of the root, or in one last-level table. */
  predicate InSlot(v: nat, n: nat) { Rem(v, 0x4_0000) + n <= 0x4_0000 }
  predicate InTable(v: nat, n: nat) { Rem(v, 512) + n <= 512 }

  /** What one round of the middle loop relies on. */
  lemma PmdRound(addr: nat, end: nat, v0: nat, m: nat, n: nat)
    requires m < n && At(addr, end, v0 + m, n - m) && InSlot(v0, n)
    ensures end > 0 && addr < PmdAddrEnd(addr, end) <= end
    ensures var next := PmdAddrEnd(addr, end); var d := Pages(addr, next); var v := v0 + m;
            && 0 < d <= n - m && next - addr == d * PAGE_SIZE && At(addr, next, v, d) && InTable(v, d)
            && if d == n - m then next == end
               else next != end && At(next, end, v + d, n - m - d) && IndexK(v + d) == IndexK(v) + 1
  {
    SlotRest(v0, m, n);
    NextPmd(addr, end, v0 + m, n - m);
    if Pages(addr, PmdAddrEnd(addr, end)) < n - m {
      NextIndexK(v0 + m, Pages(addr, PmdAddrEnd(addr, end)));
    }
    hide IndexK, At, PmdAddrEnd, Pages;
  }

  lemma SlotRest(v0: nat, m: nat, n: nat)
    requires v0 + m < VPNS && m < n && v0 % 0x4_0000 + n <= 0x4_0000
    ensures v0 + n <= VPNS && (v0 + m) % 0x4_0000 + (n - m) <= 0x4_0000
  {
    DivModUnique(v0 + m, 0x4_0000, v0 / 0x4_0000, v0 % 0x4_0000 + m);
  }

  /** Page numbers in one slot of the root share its index; the next block has the next middle index. */
  lemma SlotIndices(v0: nat, m: nat)
    requires v0 < VPNS && v0 % 0x4_0000 + m < 0x4_0000
    ensures v0 + m < VPNS && IndexI(v0 + m) == IndexI(v0)
  {
    DivModUnique(v0 + m, 0x4_0000, v0 / 0x4_0000, v0 % 0x4_0000 + m);
  }

  lemma NextIndexK(v: nat, d: nat)
    requires v % 512 + d == 512 && v % 0x4_0000 + d < 0x4_0000
    ensures IndexK(v + d) == IndexK(v) + 1
  {
    var c, k, j := v / 512 / 512, (v / 512) % 512, v % 512;
    Digits(v, c, k, j);
    Digits(v + d, c, k + 1, 0);
  }

  /** A page number from its upper part and its two lower digits. */
  lemma Digits(v: nat, c: nat, k: nat, j: nat)
    requires v == (c * 512 + k) * 512 + j && j < 512
    ensures IndexJ(v) == j && v / 512 == c * 512 + k
    ensures k < 512 ==> IndexI(v) == c && IndexK(v) == k && v % 0x4_0000 == k * 512 + j
  {
    DivModUnique(v, 512, c * 512 + k, j);
    if k < 512 {
      DivModUnique(c * 512 + k, 512, c, k);
      DivModUnique(v, 0x4_0000, c, k * 512 + j);
    }
  }

  lemma NextIndexI(v: nat, d: nat)
    requires v % 0x4_0000 + d == 0x4_0000
    ensures IndexI(v + d) == IndexI(v) + 1
  {
    DivModUnique(v + d, 0x4_0000, v / 0x4_0000 + 1, 0);
  }

  /** A non-empty range of whole pages. */
  predicate PageRange(addr: nat, end: nat) {
    addr < end < TWO64 && addr % PAGE_SIZE == 0 && end % PAGE_SIZE == 0
  }

  function Pages(addr: nat, end: nat): nat
    requires addr <= end
  {
    (end - addr) / PAGE_SIZE
  }

  lemma SameBlock(v: nat, m: nat, n: nat)
    requires v < VPNS && InTable(v, n) && m < n
    ensures v + m < VPNS && v + n <= VPNS
    ensures IndexI(v + m) == IndexI(v) && IndexK(v + m) == IndexK(v) && IndexJ(v + m) == IndexJ(v) + m
  {
    var c, k, j := v / 512 / 512, (v / 512) % 512, v % 512;
    Digits(v, c, k, j);
    Digits(v + m, c, k, j + m);
  }

  /** Page numbers with the same upper indices are served by the same table. */
  lemma ServesBlock(t: Tables, root: nat, v: nat, m: nat, p: nat)
    requires IndexI(v + m) == IndexI(v) && IndexK(v + m) == IndexK(v)
    ensures Serves(t, root, v, p) <==> Serves(t, root, v + m, p)
  {
  }

  lemma ServesIsOpen(t: Tables, root: nat, v: nat, p: nat)
    requires Serves(t, root, v, p)
    ensures Open(t, root, v)
  {
  }

  lemma LeafEntryIsLeaf(pfn: nat, prot: nat)
    requires LeafProt(prot)
    ensures IsLeaf(LeafEntry(pfn, prot)) && Pfn(LeafEntry(pfn, prot)) == pfn
  {
    var e, h := LeafEntry(pfn, prot), prot / 2;
    DivModUnique(e, 1024, pfn, prot);
    DivModUnique(e, 2, 512 * pfn + h, prot % 2);
    DivModUnique(512 * pfn + h, 8, 64 * pfn + h / 8, h % 8);
  }
}
