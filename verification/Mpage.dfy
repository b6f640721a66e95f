/** Reading file pages: do_mpage_readpage with the mapping it carries from page to page, and mpage_readahead. */
module Mpage {
  import opened Wrappers
  import opened Bits
  import opened Ext2

  const MAX_BUF_PER_PAGE: nat := 8

  /** A page of the file and the disk blocks it is to be read from. */
  datatype PageRead = PageRead(index: nat, blocks: seq<nat>)
  datatype Bio = Bio(sector: nat, pages: seq<PageRead>)
  /** What reaches the device: a bio, or a page read on its own. */
  datatype Request = Submit(bio: Bio) | Direct(page: PageRead)

  /** The file: its mapping, its size in blocks, and how blocks divide pages and sectors divide blocks. */
  datatype File = File(ino: Inode, eof: nat, perPage: nat, sectors: nat)

  ghost predicate ValidFile(f: File) {
    WellFormed(f.ino) && f.perPage in {1, 2, 4, MAX_BUF_PER_PAGE} && 0 < f.sectors
  }

  /** The blocks [b, b + perPage) lie in the file, have no hole and follow one another on disk. */
  ghost predicate Mappable(f: File, b: nat) {
    && b + f.perPage <= f.eof && Lookup(f.ino, b).Some?
    && IsRun(f.ino, b, Lookup(f.ino, b).value, f.perPage)
  }

  /** The first n block numbers are what one lookup per block gives, one after the other. */
  ghost predicate Filled(f: File, b: nat, blocks: seq<nat>, n: nat) {
    && n <= |blocks| && (n > 0 ==> b + n <= f.eof)
    && forall i :: 0 <= i < n ==> Lookup(f.ino, b + i) == Some(blocks[i]) && blocks[i] == blocks[0] + i
  }

  ghost predicate PageOk(f: File, p: PageRead) {
    |p.blocks| == f.perPage && Filled(f, p.index * f.perPage, p.blocks, f.perPage)
  }

  /** Pages that follow one another on disk, the first of them at the bio's sector. */
  ghost predicate BioOk(f: File, b: Bio) {
    && b.pages != [] && (forall t :: 0 <= t < |b.pages| ==> PageOk(f, b.pages[t]))
    && f.perPage > 0 && b.sector == b.pages[0].blocks[0] * f.sectors
    && forall t :: 0 < t < |b.pages| ==> Adjacent(f, b.pages[t - 1], b.pages[t])
  }

  ghost predicate Adjacent(f: File, p: PageRead, q: PageRead) {
    |p.blocks| == |q.blocks| == f.perPage > 0 && q.blocks[0] == p.blocks[f.perPage - 1] + 1
  }

  ghost predicate RequestOk(f: File, r: Request) {
    match r
    case Submit(b) => BioOk(f, b)
    case Direct(p) => PageOk(f, p)
  }

  function PagesOf(r: Request): seq<PageRead> {
    match r
    case Submit(b) => b.pages
    case Direct(p) => [p]
  }

  function Flat(log: seq<Request>): seq<PageRead> {
    if log == [] then [] else Flat(log[..|log| - 1]) + PagesOf(log[|log| - 1])
  }

  lemma FlatAppend(log: seq<Request>, r: Request)
    ensures Flat(log + [r]) == Flat(log) + PagesOf(r)
  {
    assert (log + [r])[..|log|] == log;
  }

  function BlockAt(f: File, b: nat): nat {
    match Lookup(f.ino, b)
    case Some(x) => x
    case None => 0
  }

  /** One lookup per block. */
  function PerBlock(f: File, b: nat): seq<nat> {
    seq<nat>(f.perPage, i requires 0 <= i < f.perPage => BlockAt(f, b + i))
  }

  lemma FilledPerBlock(f: File, b: nat, blocks: seq<nat>)
    requires Filled(f, b, blocks, f.perPage)
    ensures blocks[..f.perPage] == PerBlock(f, b) && Filled(f, b, blocks[..f.perPage], f.perPage)
  {
    forall i | 0 <= i < f.perPage ensures blocks[i] == BlockAt(f, b + i) {
      assert Lookup(f.ino, b + i) == Some(blocks[i]);
    }
  }

  function PageAt(f: File, index: nat): (p: PageRead)
    ensures |p.blocks| == f.perPage
  {
    PageRead(index, PerBlock(f, index * f.perPage))
  }

  /** The pages [index, index + n) with their blocks looked up one by one. */
  function Wanted(f: File, index: nat, n: nat): seq<PageRead> {
    seq(n, t requires 0 <= t < n => PageAt(f, index + t))
  }

  lemma WantedGrows(f: File, index: nat, n: nat)
    ensures Wanted(f, index, 0) == [] && Wanted(f, index, n + 1) == Wanted(f, index, n) + [PageAt(f, index + n)]
  {
  }

  /** A page that starts a bio, or follows its last page on disk, can join it. */
  lemma BioGrows(f: File, b: Bio, p: PageRead)
    requires PageOk(f, p) && f.perPage > 0
    requires if b.pages == [] then b.sector == p.blocks[0] * f.sectors
             else BioOk(f, b) && Adjacent(f, b.pages[|b.pages| - 1], p)
    ensures BioOk(f, Bio(b.sector, b.pages + [p]))
  {
    hide PageOk, Adjacent;
    var ps := b.pages + [p];
    forall t | 0 < t < |ps| ensures Adjacent(f, ps[t - 1], ps[t]) {
      if t < |b.pages| { assert Adjacent(f, b.pages[t - 1], b.pages[t]); }
    }
  }

  /** The page's first block is the one behind the bio's last. */
  predicate Joins(bio: Option<Bio>, last: nat, page: PageRead)
    requires page.blocks != []
  {
    bio.Some? && last + 1 == page.blocks[0]
  }

  /** The bio that the page goes into: the one there when it follows on disk, else a new one at its own sector. */
  function Grown(f: File, bio: Option<Bio>, last: nat, page: PageRead): Bio
    requires page.blocks != []
  {
    if Joins(bio, last, page) then Bio(bio.value.sector, bio.value.pages + [page])
    else Bio(page.blocks[0] * f.sectors, [page])
  }

  /** When putting the page into a bio panics: a full bio, or no new one. */
  predicate Refused(bio: Option<Bio>, last: nat, page: PageRead, a: Answers)
    requires page.blocks != []
  {
    if Joins(bio, last, page) then !a.fits else !a.direct && !(a.alloc && a.fits)
  }

  /** Each block of each page in a bio lies where a single transfer from the bio's sector reaches it. */
  lemma BioContiguous(f: File, b: Bio, t: nat, i: nat)
    requires BioOk(f, b) && t < |b.pages| && i < f.perPage
    ensures b.pages[t].blocks[i] * f.sectors == b.sector + (Mul(t, f.perPage) + i) * f.sectors
  {
    InBio(f, b, t, i);
    hide Mul, PageOk, Adjacent;
    Distribute(b.pages[0].blocks[0], Mul(t, f.perPage) + i, f.sectors);
  }

  lemma {:induction false} InBio(f: File, b: Bio, t: nat, i: nat)
    requires BioOk(f, b) && t < |b.pages| && i < f.perPage
    ensures |b.pages[t].blocks| == |b.pages[0].blocks| == f.perPage
    ensures b.pages[t].blocks[i] == b.pages[0].blocks[0] + Mul(t, f.perPage) + i
  {
    hide PageOk, Mul;
    InPage(f, b.pages[t], i);
    InPage(f, b.pages[0], 0);
    Distribute(0, 0, f.perPage);
    if t == 0 {
    } else {
      InBio(f, b, t - 1, f.perPage - 1);
      assert Adjacent(f, b.pages[t - 1], b.pages[t]);
      Distribute(t - 1, 1, f.perPage);
    }
  }

  lemma InPage(f: File, p: PageRead, i: nat)
    requires PageOk(f, p) && i < f.perPage
    ensures |p.blocks| == f.perPage && p.blocks[i] == p.blocks[0] + i
  {
  }

  lemma Distribute(x: nat, y: nat, n: nat)
    ensures (x + y) * n == x * n + y * n && Mul(x + y, n) == Mul(x, n) + Mul(y, n) && Mul(0, n) == 0 && Mul(1, n) == n
  {
  }

  /** What the world answers while one page is read. */
  datatype Answers = Answers(hasBuffers: bool, direct: bool, alloc: bool, fits: bool)

  lemma HoleNotMappable(f: File, b: nat, k: nat)
    requires k < f.perPage && (b + k >= f.eof || Lookup(f.ino, b + k) == None)
    ensures !Mappable(f, b)
  {
  }

  lemma JumpNotMappable(f: File, b: nat, k: nat)
    requires 0 < k < f.perPage && Lookup(f.ino, b + (k - 1)).Some? && Lookup(f.ino, b + k).Some?
    requires Lookup(f.ino, b + k).value != Lookup(f.ino, b + (k - 1)).value + 1
    ensures !Mappable(f, b)
  {
  }

  lemma FilledMappable(f: File, b: nat, blocks: seq<nat>)
    requires f.perPage > 0 && Filled(f, b, blocks, f.perPage)
    ensures Mappable(f, b)
  {
    assert Lookup(f.ino, b + 0) == Some(blocks[0]);
    forall x | b <= x < b + f.perPage ensures Lookup(f.ino, x) == Some(blocks[0] + (x - b)) {
      assert Lookup(f.ino, b + (x - b)) == Some(blocks[x - b]);
    }
  }

  /** Block numbers from n up to m are added from a run that starts where the ones before left off. */
  lemma FilledGrows(f: File, b: nat, blocks: seq<nat>, blocks': seq<nat>, n: nat, m: nat, start: nat, count: nat)
    requires Filled(f, b, blocks, n) && n <= m <= |blocks'| == |blocks| && (m > 0 ==> b + m <= f.eof)
    requires IsRun(f.ino, b + n, start, count) && m - n <= count && (n > 0 ==> start == blocks[n - 1] + 1)
    requires forall i :: 0 <= i < m ==> blocks'[i] == if i < n then blocks[i] else start + (i - n)
    ensures Filled(f, b, blocks', m)
  {
    forall i | 0 <= i < m ensures Lookup(f.ino, b + i) == Some(blocks'[i]) && blocks'[i] == blocks'[0] + i {
      if i < n {
        assert Lookup(f.ino, b + i) == Some(blocks[i]);
      } else {
        assert Lookup(f.ino, b + i) == Some(start + (b + i - (b + n)));
        assert n > 0 ==> blocks[n - 1] == blocks[0] + (n - 1);
      }
    }
  }

  lemma RunPart(ino: Inode, b: nat, start: nat, count: nat, k: nat)
    requires IsRun(ino, b, start, count) && k <= count
    ensures IsRun(ino, b + k, start + k, count - k)
  {
  }

  class Args {
    const file: File
    // The buffer head that carries the last mapping.
    var mapped: bool
    var blocknr: nat
    var nblocks: nat
    var boundary: bool
    var first: nat
    // The bio being filled.
    var bio: Option<Bio>
    var lastInBio: nat
    // What has been handed to the device.
    var log: seq<Request>

    /** The carried mapping says what a lookup per block would. */
    ghost predicate Carried()
      reads this`mapped, this`blocknr, this`nblocks, this`first
    {
      mapped ==> IsRun(file.ino, first, blocknr, nblocks) && first + nblocks <= file.eof
    }

    /** The carried mapping gives all blocks of the page that starts at block b. */
    predicate Covers(b: nat)
      reads this
    {
      mapped && first < b && b + file.perPage <= first + nblocks
    }

    ghost predicate Valid()
      reads this
    {
      && ValidFile(file) && Carried()
      && (forall r :: r in log ==> RequestOk(file, r))
      && (bio.Some? ==> BioOk(file, bio.value) && LastBlock(bio.value) == lastInBio)
    }

    /** The pages dealt with so far, in order. */
    ghost function Pages(): seq<PageRead>
      reads this
    {
      Flat(log) + if bio.Some? then bio.value.pages else []
    }

    ghost function LastBlock(b: Bio): nat
      requires BioOk(file, b)
    {
      b.pages[|b.pages| - 1].blocks[file.perPage - 1]
    }

    constructor (f: File)
      requires ValidFile(f)
      ensures Valid() && file == f && Pages() == [] && log == [] && bio == None
    {
      file := f;
      mapped, blocknr, nblocks, boundary, first := false, 0, 0, false, 0;
      bio, lastInBio, log := None, 0, [];
    }

    /** The copy loops: count block numbers from the mapping, from its block offset on, until they or the page run
        out. */
    method CopyRun(blocks: array<nat>, pageBlock0: nat, offset: nat, count: nat) returns (pageBlock: nat)
      requires pageBlock0 <= file.perPage <= blocks.Length
      modifies blocks, this`mapped
      ensures pageBlock == if pageBlock0 + count <= file.perPage then pageBlock0 + count else file.perPage
      ensures mapped == (old(mapped) && pageBlock0 + count > file.perPage)
      ensures forall i :: 0 <= i < blocks.Length ==>
                blocks[i] == if pageBlock0 <= i < pageBlock then blocknr + offset + (i - pageBlock0) else old(blocks[i])
    {
      pageBlock := pageBlock0;
      var relative := 0;
      while true
        invariant 0 <= relative <= count && pageBlock == pageBlock0 + relative <= file.perPage && mapped == old(mapped)
        invariant forall i :: 0 <= i < blocks.Length ==>
                    blocks[i] == if pageBlock0 <= i < pageBlock then blocknr + offset + (i - pageBlock0)
                                 else old(blocks[i])
        decreases count - relative
      {
        if relative == count {
          mapped := false;
          return;
        }
        if pageBlock == file.perPage {
          return;
        }
        blocks[pageBlock] := blocknr + offset + relative;
        pageBlock, relative := pageBlock + 1, relative + 1;
      }
    }

    /** The first half of do_mpage_readpage: the block numbers of the page that starts at block b0. */
    method CollectBlocks(b0: nat, span: nat, blocks: array<nat>) returns (panicked: bool, blockInFile: nat)
      requires ValidFile(file) && Carried() && blocks.Length == MAX_BUF_PER_PAGE
      requires span == 0 || file.perPage <= span < TWO32
      modifies this`mapped, this`blocknr, this`nblocks, this`boundary, this`first, blocks
      ensures Carried() && (panicked <==> !Mappable(file, b0) || (span == 0 && !old(Covers(b0))))
      ensures !panicked ==> Filled(file, b0, blocks[..], file.perPage) && blockInFile == b0 + file.perPage
    {
      hide Lookup, WellFormed;
      var lastBlock := b0 + span;
      if lastBlock > file.eof {
        lastBlock := file.eof;
      }
      var pageBlock := 0;
      ghost var was := blocks[..];
      if mapped && b0 > first && b0 < first + nblocks {
        var offset := b0 - first;
        RunPart(file.ino, first, blocknr, nblocks, offset);
        pageBlock := CopyRun(blocks, 0, offset, nblocks - offset);
        FilledGrows(file, b0, was, blocks[..], 0, pageBlock, blocknr + offset, nblocks - offset);
      }
      panicked, blockInFile := MapRest(b0, lastBlock, blocks, pageBlock);
    }

    /** The mapping of the blocks from blockInFile on, asked for as far as lastBlock; not ok when there is a hole. */
    method NextMapping(blockInFile: nat, lastBlock: nat) returns (ok: bool)
      requires ValidFile(file) && lastBlock <= file.eof && lastBlock < blockInFile + TWO32
      modifies this`mapped, this`blocknr, this`nblocks, this`boundary, this`first
      ensures Carried()
      ensures !ok ==> blockInFile < lastBlock && Lookup(file.ino, blockInFile) == None
      ensures ok ==> (mapped <==> blockInFile < lastBlock)
      ensures ok && mapped ==> first == blockInFile && 0 < nblocks && IsRun(file.ino, blockInFile, blocknr, nblocks)
    {
      hide Lookup, WellFormed, IsRun;
      mapped, boundary, nblocks := false, false, 0;
      if blockInFile < lastBlock {
        var r := GetBlock(file.ino, blockInFile, lastBlock - blockInFile);
        if r == None {
          return false;
        }
        mapped, blocknr, nblocks, boundary, first := true, r.value.start, r.value.count, r.value.boundary, blockInFile;
      }
      ok := true;
    }

    /** The loop of get_block calls until the page is done. */
    method MapRest(b0: nat, lastBlock: nat, blocks: array<nat>, pageBlock0: nat)
      returns (panicked: bool, blockInFile: nat)
      requires ValidFile(file) && Carried() && blocks.Length == MAX_BUF_PER_PAGE && pageBlock0 <= file.perPage
      requires lastBlock <= file.eof && lastBlock < b0 + TWO32
      requires b0 < lastBlock < b0 + file.perPage ==> lastBlock == file.eof
      requires Filled(file, b0, blocks[..], pageBlock0)
      modifies this`mapped, this`blocknr, this`nblocks, this`boundary, this`first, blocks
      ensures Carried() && (panicked <==> !Mappable(file, b0) || (lastBlock <= b0 && pageBlock0 < file.perPage))
      ensures !panicked ==> Filled(file, b0, blocks[..], file.perPage) && blockInFile == b0 + file.perPage
    {
      hide Lookup, WellFormed, IsRun, Filled, Mappable;
      var pageBlock, firstHole := pageBlock0, file.perPage;
      blockInFile := b0 + pageBlock;
      while pageBlock < file.perPage
        invariant pageBlock <= file.perPage && blockInFile == b0 + pageBlock && Carried()
        invariant firstHole == file.perPage ==> Filled(file, b0, blocks[..], pageBlock)
        invariant firstHole != file.perPage ==> (!Mappable(file, b0) || lastBlock <= b0) && blockInFile >= lastBlock
        invariant pageBlock0 <= pageBlock && (firstHole != file.perPage ==> pageBlock0 < file.perPage)
        invariant pageBlock > pageBlock0 && lastBlock <= b0 ==> firstHole != file.perPage
        decreases file.perPage - pageBlock
      {
        var ok := NextMapping(blockInFile, lastBlock);
        if !ok {
          HoleNotMappable(file, b0, pageBlock);
          return true, blockInFile;
        }
        if !mapped {
          if lastBlock > b0 {
            HoleNotMappable(file, b0, pageBlock);
          }
          if firstHole == file.perPage {
            firstHole := pageBlock;
          }
          pageBlock, blockInFile := pageBlock + 1, blockInFile + 1;
          continue;
        }
        if firstHole != file.perPage || (pageBlock > 0 && blocks[pageBlock - 1] != blocknr - 1) {
          Jump(file, b0, blocks[..], pageBlock, blocknr, nblocks);
          return true, blockInFile;
        }
        ghost var was := blocks[..];
        var from := pageBlock;
        pageBlock := CopyRun(blocks, pageBlock, 0, nblocks);
        FilledGrows(file, b0, was, blocks[..], from, pageBlock, blocknr, nblocks);
        blockInFile := blockInFile + (pageBlock - from);
      }
      panicked := firstHole != file.perPage;
      if !panicked {
        FilledMappable(file, b0, blocks[..]);
      }
    }

    /** mpage_bio_submit. */
    method SubmitBio()
      requires Valid() && bio.Some?
      modifies this`bio, this`log
      ensures Valid() && bio == None && Pages() == old(Pages()) && log == old(log) + [Submit(old(bio.value))]
    {
      FlatAppend(log, Submit(bio.value));
      log, bio := log + [Submit(bio.value)], None;
    }

    /** bio_add_page into the bio or a new one, which is handed on when the mapping ends at a boundary. */
    method PutInBio(page: PageRead, blockInFile: nat)
      requires Valid() && PageOk(file, page) && |page.blocks| > 0 && (bio.Some? ==> Joins(bio, lastInBio, page))
      modifies this`bio, this`lastInBio, this`log
      ensures Valid() && Pages() == old(Pages()) + [page]
      ensures var b := Grown(file, old(bio), old(lastInBio), page);
              if boundary && blockInFile - first == nblocks then bio == None && log == old(log) + [Submit(b)]
              else bio == Some(b) && lastInBio == page.blocks[file.perPage - 1] && log == old(log)
    {
      hide PageOk, BioOk, Flat, Carried, WellFormed, RequestOk;
      PageBlocks(file, page);
      var b := Bio(page.blocks[0] * file.sectors, []);
      if bio.Some? {
        b := bio.value;
        BioNotEmpty(file, b);
      }
      BioGrows(file, b, page);
      OneMore(Flat(log), b.pages, page);
      b := Bio(b.sector, b.pages + [page]);
      assert b == Grown(file, bio, lastInBio, page);
      bio, lastInBio := Some(b), page.blocks[file.perPage - 1];
      if boundary && blockInFile - first == nblocks {
        SubmitBio();
      }
    }

    /** The second half: put the page into the bio, or into a new one, or read it directly. */
    method AddPage(page: PageRead, blockInFile: nat, a: Answers) returns (panicked: bool)
      requires Valid() && PageOk(file, page) && |page.blocks| > 0
      modifies this`bio, this`lastInBio, this`log
      ensures Valid() && (panicked <==> Refused(old(bio), old(lastInBio), page, a))
      ensures !panicked ==> Pages() == old(Pages()) + [page]
      ensures var log0 := if old(bio.Some?) && !Joins(old(bio), old(lastInBio), page)
                          then old(log) + [Submit(old(bio).value)] else old(log);
              if panicked then log == log0
              else if !Joins(old(bio), old(lastInBio), page) && a.direct then
                bio == None && log == log0 + [Direct(page)]
              else
                var b := Grown(file, old(bio), old(lastInBio), page);
                if boundary && blockInFile - first == nblocks then bio == None && log == log0 + [Submit(b)]
                else bio == Some(b) && lastInBio == page.blocks[file.perPage - 1] && log == log0
    {
      hide PageOk, BioOk, Flat, WellFormed, Carried, RequestOk;
      PageBlocks(file, page);
      if bio.Some? && lastInBio != page.blocks[0] - 1 {
        SubmitBio();
      }
      if bio.None? {
        if a.direct {
          FlatAppend(log, Direct(page));
          DirectOk(file, page);
          log := log + [Direct(page)];
          return false;
        }
        if !a.alloc {
          return true;
        }
      }
      if !a.fits {
        return true;
      }
      PutInBio(page, blockInFile);
      panicked := false;
    }

    /** do_mpage_readpage. */
    method ReadPage(index: nat, nrPages: nat, a: Answers) returns (panicked: bool)
      requires Valid() && 1 <= nrPages < TWO32
      modifies this
      ensures Valid() && old(log) <= log
      ensures panicked <==> || Stopped(index, a)
                            || (Span(nrPages, file.perPage) == 0 && !old(Covers(index * file.perPage)))
                            || Refused(old(bio), old(lastInBio), PageAt(file, index), a)
      ensures !panicked ==> Pages() == old(Pages()) + [PageAt(file, index)]
    {
      if a.hasBuffers {
        return true;
      }
      hide Mappable, Filled, IsRun, BioOk, Flat, PerBlock, WellFormed;
      var b0, span := index * file.perPage, Span(nrPages, file.perPage);
      SpanIs(nrPages, file.perPage);
      var blocks := new nat[MAX_BUF_PER_PAGE];
      var blockInFile;
      panicked, blockInFile := CollectBlocks(b0, span, blocks);
      if panicked {
        return;
      }
      FilledPerBlock(file, b0, blocks[..]);
      var page := PageRead(index, blocks[..file.perPage]);
      assert page.blocks == blocks[..][..file.perPage];
      panicked := AddPage(page, blockInFile, a);
    }

    /** mpage_readahead over the pages [index, index + n). */
    method Readahead(index: nat, n: nat, answers: seq<Answers>) returns (panicked: bool)
      requires Valid() && Pages() == [] && n < TWO32 && |answers| == n
      modifies this
      ensures Valid()
      ensures panicked ==> exists t :: 0 <= t < n && MayStop(index + t, n - t, answers[t])
      ensures !panicked ==> forall t :: 0 <= t < n ==> !Stopped(index + t, answers[t])
      ensures !panicked ==> bio == None && Flat(log) == Wanted(file, index, n)
      ensures n * file.perPage < TWO32 && (forall t :: 0 <= t < n ==> answers[t].alloc && answers[t].fits) ==>
                (panicked <==> exists t :: 0 <= t < n && Stopped(index + t, answers[t]))
    {
      hide *;
      HasBlocks();
      panicked := ReadPages(index, n, answers);
      StoppedExactly(index, n, answers, panicked);
      if !panicked {
        if bio.Some? {
          SubmitBio();
        }
        NoBioLeft();
      }
    }

    /** Its loop over the pages. */
    method ReadPages(index: nat, n: nat, answers: seq<Answers>) returns (panicked: bool)
      requires Valid() && Pages() == [] && n < TWO32 && |answers| == n
      modifies this
      ensures Valid()
      ensures panicked ==> exists t :: 0 <= t < n && MayStop(index + t, n - t, answers[t])
      ensures !panicked ==> forall t :: 0 <= t < n ==> !Stopped(index + t, answers[t])
      ensures !panicked ==> Pages() == Wanted(file, index, n)
    {
      hide *;
      HasBlocks();
      WantedGrows(file, index, 0);
      var t := 0;
      panicked := false;
      while t < n
        invariant t <= n && Valid() && Pages() == Wanted(file, index, t)
        invariant forall k :: 0 <= k < t ==> !Stopped(index + k, answers[k])
      {
        ghost var bio0, last0 := bio, lastInBio;
        panicked := ReadPage(index + t, n - t, answers[t]);
        if panicked {
          WhyStopped(index + t, n - t, bio0, last0, answers[t]);
          return;
        }
        WantedGrows(file, index, t);
        t := t + 1;
      }
    }

    lemma NoBioLeft()
      ensures bio == None ==> Pages() == Flat(log)
    {
    }

    /** It may also stop when a bio cannot be had or is full, or when the window's block count comes out as zero. */
    ghost predicate MayStop(index: nat, left: nat, a: Answers) {
      Stopped(index, a) || !a.alloc || !a.fits || Span(left, file.perPage) == 0
    }

    /** With bios to be had, and a window that does not wrap around, it is such a page that stops it. */
    lemma StoppedExactly(index: nat, n: nat, answers: seq<Answers>, panicked: bool)
      requires ValidFile(file) && |answers| == n
      requires panicked ==> exists t :: 0 <= t < n && MayStop(index + t, n - t, answers[t])
      requires !panicked ==> forall t :: 0 <= t < n ==> !Stopped(index + t, answers[t])
      ensures n * file.perPage < TWO32 && (forall t :: 0 <= t < n ==> answers[t].alloc && answers[t].fits) ==>
                (panicked <==> exists t :: 0 <= t < n && Stopped(index + t, answers[t]))
    {
      hide Span, Stopped, WellFormed;
      if n * file.perPage < TWO32 && panicked {
        var t :| 0 <= t < n && MayStop(index + t, n - t, answers[t]);
        MulMonotone(1, n - t, file.perPage);
        MulMonotone(n - t, n, file.perPage);
        SpanIs(n - t, file.perPage);
      }
    }

    lemma HasBlocks()
      requires Valid()
      ensures file.perPage > 0 && ValidFile(file)
    {
    }

    lemma WhyStopped(index: nat, left: nat, bio0: Option<Bio>, last0: nat, a: Answers)
      requires file.perPage > 0
      requires Stopped(index, a) || Span(left, file.perPage) == 0 || Refused(bio0, last0, PageAt(file, index), a)
      ensures MayStop(index, left, a)
    {
    }

    /** A page that already has buffers, or whose blocks are not one run inside the file, stops the machine. */
    ghost predicate Stopped(index: nat, a: Answers) {
      a.hasBuffers || !Mappable(file, index * file.perPage)
    }
  }

  lemma PageBlocks(f: File, p: PageRead)
    requires PageOk(f, p) && f.perPage > 0
    ensures |p.blocks| == f.perPage && p.blocks[0] > 0
  {
    assert Lookup(f.ino, p.index * f.perPage + 0) == Some(p.blocks[0]);
  }

  lemma OneMore(done: seq<PageRead>, pages: seq<PageRead>, p: PageRead)
    ensures done + (pages + [p]) == done + pages + [p]
  {
  }

  lemma DirectOk(f: File, p: PageRead)
    requires PageOk(f, p)
    ensures RequestOk(f, Direct(p))
  {
  }

  lemma BioNotEmpty(f: File, b: Bio)
    requires BioOk(f, b)
    ensures b.pages != [] && |b.pages[|b.pages| - 1].blocks| == f.perPage > 0
  {
    assert PageOk(f, b.pages[|b.pages| - 1]);
  }

  /** The blocks of n pages, counted in 32 bits. */
  function Span(n: nat, perPage: nat): nat { n * perPage % TWO32 }

  lemma SpanIs(n: nat, perPage: nat)
    requires perPage in {1, 2, 4, MAX_BUF_PER_PAGE}
    ensures Span(n, perPage) == 0 || perPage <= Span(n, perPage) < TWO32
    ensures 0 < n * perPage < TWO32 ==> Span(n, perPage) > 0
  {
    var m := TWO32 / perPage;
    assert m * perPage == TWO32;
    ScaledRem(n, m, perPage);
    MulMonotone(1, n % m, perPage);
  }

  lemma ScaledRem(n: nat, m: nat, c: nat)
    requires m > 0 && c > 0
    ensures (n * c) % (m * c) == (n % m) * c
  {
    var q, r := n / m, n % m;
    MulMonotone(r + 1, m, c);
    assert (r + 1) * c == r * c + c;
    assert n * c == q * (m * c) + r * c by { assert n == q * m + r; }
    DivModUnique(n * c, m * c, q, r * c);
  }

  lemma Jump(f: File, b: nat, blocks: seq<nat>, k: nat, start: nat, count: nat)
    requires 0 < k < f.perPage && Filled(f, b, blocks, k) && IsRun(f.ino, b + k, start, count) && count > 0
    requires blocks[k - 1] != start - 1
    ensures !Mappable(f, b)
  {
    assert Lookup(f.ino, b + (k - 1)) == Some(blocks[k - 1]);
    JumpNotMappable(f, b, k);
  }
}
