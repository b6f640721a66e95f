/** Finding and making the buffer heads of a device's blocks: the page's ring, and the list in front of it. */
module BufferCache {
  import opened Bits
  import opened BufferLru

  /** A block device: its block size, the binary logarithm of the blocks in a page, its size in bytes, and the smallest
      block it can transfer. */
  datatype Device = Device(size: nat, bits: nat, bytes: nat, logical: nat) {
    const perPage: nat := Pow2(bits)
  }
  /** A page of a device's page cache. */
  datatype Key = Key(dev: nat, index: nat)

  predicate ValidDevice(d: Device) { d.size > 0 && Mul(d.perPage, d.size) == PAGE_SIZE }

  /** blkdev_max_block. */
  function EndBlock(d: Device): nat
    requires d.size > 0
  {
    if d.bytes == 0 then TWO64 - 1 else Quot(d.bytes, d.size)
  }

  /** A size __getblk_slow does not accept: below a sector, above a page, or with bits of the logical block mask. */
  predicate BadSize(d: Device) {
    And(d.size, (d.logical - 1) % TWO32) != 0 || d.size < 512 || d.size > PAGE_SIZE
  }

  /** Each head leads to the next one, and the last of them to end. */
  ghost predicate Chained(ring: seq<BufferHead>, end: BufferHead?)
    reads ring`next
  {
    (forall k :: 0 <= k < |ring| - 1 ==> ring[k].next == ring[k + 1]) && (ring != [] ==> ring[|ring| - 1].next == end)
  }

  /** The heads of a page, in block order and linked in a circle; those of blocks inside the device are mapped. */
  ghost predicate Ring(d: Device, key: Key, ring: seq<BufferHead>)
    reads ring
  {
    && ValidDevice(d) && |ring| == d.perPage && Chained(ring, ring[0])
    && forall k :: 0 <= k < |ring| ==> Head(d, key, ring[k], k)
  }

  ghost predicate Head(d: Device, key: Key, h: BufferHead, k: nat)
    requires d.size > 0
    reads h
  {
    && h.dev == key.dev && h.size == d.size && h.offset == Mul(k, d.size)
    && h.blocknr == Mul(key.index, d.perPage) + k && (h.mapped <==> h.blocknr < EndBlock(d))
  }

  function PageOf(d: Device, dev: nat, block: nat): Key
    requires d.perPage > 0
  {
    Key(dev, Quot(block, d.perPage))
  }

  /** A block is in its own page, at its own place. */
  lemma PlaceOf(d: Device, block: nat)
    requires d.perPage > 0
    ensures Rem(block, d.perPage) < d.perPage && block == Mul(Quot(block, d.perPage), d.perPage) + Rem(block, d.perPage)
  {
  }

  /** alloc_page_buffers: from the end of the page to its start. */
  method AllocPageBuffers(d: Device) returns (head: BufferHead?, ghost ring: seq<BufferHead>)
    requires ValidDevice(d)
    ensures |ring| == d.perPage && head == ring[0] && Chained(ring, null) && Distinct(ring)
    ensures forall k :: 0 <= k < |ring| ==> fresh(ring[k]) && Blank(ring[k], d.size, Mul(k, d.size))
  {
    hide Mul;
    head, ring := null, [];
    var offset: int := PAGE_SIZE;
    offset := offset - d.size;
    BytesLeft(d, 0);
    while offset >= 0
      invariant |ring| <= d.perPage && offset == PAGE_SIZE - Mul(|ring| + 1, d.size)
      invariant Chained(ring, null) && Distinct(ring) && head == if ring == [] then null else ring[0]
      invariant forall k :: 0 <= k < |ring| ==>
                fresh(ring[k]) && Blank(ring[k], d.size, PAGE_SIZE - Mul(|ring| - k, d.size))
      decreases offset
    {
      BytesLeft(d, |ring| + 1);
      head := new BufferHead(d.size, offset, head);
      ring := [head] + ring;
      offset := offset - d.size;
    }
    BytesLeft(d, |ring|);
    forall k | 0 <= k < |ring| ensures PAGE_SIZE - Mul(|ring| - k, d.size) == Mul(k, d.size) {
      MulSplit(|ring| - k, k, d.size);
    }
  }

  ghost predicate Distinct(ring: seq<BufferHead>) {
    forall j, k :: 0 <= j < k < |ring| ==> ring[j] != ring[k]
  }

  predicate Blank(h: BufferHead, size: nat, offset: int)
    reads h
  {
    h.size == size && !h.mapped && h.blocknr == -1 && h.offset == offset
  }

  lemma MulSplit(x: nat, y: nat, s: nat)
    ensures Mul(x, s) + Mul(y, s) == Mul(x + y, s)
  {
  }

  lemma NextOf(ring: seq<BufferHead>, k: nat, end: BufferHead?)
    requires k < |ring| && Chained(ring, end)
    ensures ring[k].next == if k + 1 < |ring| then ring[k + 1] else end
  {
  }

  /** link_dev_buffers: the last head leads to the first. */
  method LinkDevBuffers(head: BufferHead, ghost ring: seq<BufferHead>)
    requires ring != [] && head == ring[0] && Chained(ring, null) && Distinct(ring)
    modifies ring`next
    ensures Chained(ring, head)
  {
    var tail := head;
    var bh := head.next;
    ghost var k := 0;
    while bh != null
      invariant 0 <= k < |ring| && tail == ring[k] && bh == ring[k].next && Chained(ring, null)
      decreases |ring| - k
    {
      tail := bh;
      bh := bh.next;
      k := k + 1;
    }
    NextOf(ring, k, null);
    tail.next := head;
  }

  /** A page has room for exactly perPage blocks. */
  lemma BytesLeft(d: Device, n: nat)
    requires ValidDevice(d)
    ensures Mul(n + 1, d.size) == Mul(n, d.size) + d.size && Mul(0, d.size) == 0
    ensures Mul(n + 1, d.size) <= PAGE_SIZE <==> n + 1 <= d.perPage
    ensures Mul(n, d.size) <= PAGE_SIZE <==> n <= d.perPage
  {
    MulStrict(n + 1, d.perPage, d.size);
    MulStrict(n, d.perPage, d.size);
  }

  lemma MulStrict(x: nat, y: nat, s: nat)
    requires s > 0
    ensures x * s <= y * s <==> x <= y
  {
    MulMonotone(x, y, s);
    MulMonotone(y + 1, x, s);
  }

  /** init_page_buffers. */
  method InitPageBuffers(d: Device, key: Key, head: BufferHead, ghost ring: seq<BufferHead>)
    requires ValidDevice(d) && |ring| == d.perPage && head == ring[0] && Chained(ring, head) && Distinct(ring)
    requires forall k :: 0 <= k < |ring| ==> Blank(ring[k], d.size, Mul(k, d.size))
    modifies ring`dev, ring`blocknr, ring`mapped
    ensures Ring(d, key, ring)
  {
    hide Mul, EndBlock, Head, Blank, Chained;
    var bh, block := head, Mul(key.index, d.perPage);
    ghost var k := 0;
    while true
      invariant 0 <= k < |ring| && bh == ring[k] && block == Mul(key.index, d.perPage) + k && Chained(ring, head)
      invariant forall j :: 0 <= j < k ==> Head(d, key, ring[j], j)
      invariant forall j :: k <= j < |ring| ==> Blank(ring[j], d.size, Mul(j, d.size))
      decreases |ring| - k
    {
      InitHead(d, key, bh, block, k);
      NextOf(ring, k, head);
      block, bh, k := block + 1, bh.next, k + 1;
      if bh == head {
        break;
      }
    }
  }

  /** The loop body of init_page_buffers. */
  method InitHead(d: Device, key: Key, bh: BufferHead, block: nat, ghost k: nat)
    requires ValidDevice(d) && Blank(bh, d.size, Mul(k, d.size)) && block == Mul(key.index, d.perPage) + k
    modifies bh`dev, bh`blocknr, bh`mapped
    ensures Head(d, key, bh, k)
  {
    hide Mul, EndBlock;
    if !bh.mapped {
      bh.dev := key.dev;
      bh.blocknr := block;
      if block < EndBlock(d) {
        bh.mapped := true;
      }
    }
  }

  method MakeRing(d: Device, key: Key) returns (head: BufferHead, ghost ring: seq<BufferHead>)
    requires ValidDevice(d)
    ensures Ring(d, key, ring) && head == ring[0] && forall h :: h in ring ==> fresh(h)
  {
    hide Mul;
    var first;
    first, ring := AllocPageBuffers(d);
    head := first;
    LinkDevBuffers(head, ring);
    InitPageBuffers(d, key, head, ring);
  }

  lemma RingNotEmpty(d: Device, key: Key, ring: seq<BufferHead>)
    requires Ring(d, key, ring)
    ensures ring != []
  {
  }

  /** h is at block's place in block's page. */
  ghost predicate HeadIn(rings: map<Key, seq<BufferHead>>, d: Device, dev: nat, block: nat, h: BufferHead) {
    var key, k := PageOf(d, dev, block), Rem(block, d.perPage);
    key in rings && k < |rings[key]| && rings[key][k] == h
  }

  /** The head is the one its device's page holds for its block, and the block lies inside the device. */
  ghost predicate ListedIn(devs: map<nat, Device>, rings: map<Key, seq<BufferHead>>, heads: set<BufferHead>,
                           h: BufferHead)
    reads h
  {
    && h in heads && h.dev in devs && h.blocknr >= 0 && ValidDevice(devs[h.dev])
    && h.blocknr < EndBlock(devs[h.dev]) && h.size == devs[h.dev].size
    && HeadIn(rings, devs[h.dev], h.dev, h.blocknr, h)
  }

  lemma ListedStill(devs: map<nat, Device>, rings: map<Key, seq<BufferHead>>, heads: set<BufferHead>, h: BufferHead,
                    key: Key, ring: seq<BufferHead>, more: set<BufferHead>)
    requires ListedIn(devs, rings, heads, h) && key !in rings
    ensures ListedIn(devs, rings[key := ring], heads + more, h)
  {
    hide EndBlock, ValidDevice;
  }

  class Cache {
    const devs: map<nat, Device>
    const lru: array<BufferHead?>
    /** The pages that have buffers, each with its first head. */
    var pages: map<Key, BufferHead>
    ghost var rings: map<Key, seq<BufferHead>>
    ghost var heads: set<BufferHead>

    ghost predicate Pages()
      reads this, heads
    {
      && (forall dev :: dev in devs ==> ValidDevice(devs[dev]))
      && (forall key :: key in pages <==> key in rings)
      && (forall key :: key in rings ==> key.dev in devs && rings[key] != [] && pages[key] == rings[key][0])
      && (forall key, k :: key in rings && 0 <= k < |rings[key]| ==> rings[key][k] in heads)
      && (forall key :: key in rings ==> Ring(devs[key.dev], key, rings[key]))
    }

    ghost predicate Listed(h: BufferHead)
      reads this, heads, h
    {
      ListedIn(devs, rings, heads, h)
    }

    ghost predicate AllListed(l: seq<BufferHead?>)
      reads this, heads
    {
      forall y :: y in l ==> y in heads && Listed(y)
    }

    ghost predicate IsHeadOf(h: BufferHead, dev: nat, block: nat)
      requires dev in devs
      reads this
    {
      HeadIn(rings, devs[dev], dev, block, h)
    }

    ghost predicate Valid()
      reads this, lru, heads
    {
      && lru.Length == BH_LRU_SIZE && NoDuplicates(lru[..]) && Pages()
      && (forall k :: 0 <= k < lru.Length && lru[k] != null ==> lru[k] in heads)
      && (forall k :: 0 <= k < lru.Length && lru[k] != null ==> Listed(lru[k]))
    }

    constructor (d: map<nat, Device>)
      requires forall dev :: dev in d ==> ValidDevice(d[dev])
      ensures Valid() && devs == d && pages == map[] && fresh(lru) && fresh(heads)
    {
      devs, pages, rings, heads := d, map[], map[], {};
      lru := new BufferHead?[BH_LRU_SIZE](i => null);
    }

    /** __find_get_block_slow. */
    method FindSlow(dev: nat, block: nat) returns (panicked: bool, bh: BufferHead?)
      requires Pages() && dev in devs
      ensures panicked ==> bh == null
      ensures PageOf(devs[dev], dev, block) !in pages ==> !panicked && bh == null
      ensures PageOf(devs[dev], dev, block) in pages ==> (panicked <==> block >= EndBlock(devs[dev]))
      ensures PageOf(devs[dev], dev, block) in pages && !panicked ==>
                && bh != null && IsHeadOf(bh, dev, block)
                && Head(devs[dev], PageOf(devs[dev], dev, block), bh, Rem(block, devs[dev].perPage))
    {
      hide Mul, Quot, Rem, EndBlock;
      var d := devs[dev];
      var key := PageOf(d, dev, block);
      if key !in pages {
        return false, null;
      }
      PlaceOf(d, block);
      var head := pages[key];
      var h := head;
      ghost var ring, k := rings[key], 0;
      assert Ring(d, key, ring);
      panicked, bh := true, null;
      while true
        invariant 0 <= k <= Rem(block, d.perPage) < |ring| && h == ring[k] && panicked && bh == null
        invariant k > 0 ==> Mul(key.index, d.perPage) + k <= EndBlock(d)
        decreases |ring| - k
      {
        assert Head(d, key, ring[k], k);
        if !h.mapped {
          break;
        } else if h.blocknr == block {
          panicked, bh := false, h;
          break;
        }
        NextOf(ring, k, head);
        h, k := h.next, k + 1;
        assert Head(d, key, ring[0], 0) && Head(d, key, h, k);
        if h == head {
          break;
        }
      }
    }

    /** __find_get_block: the list first, then the page. */
    method FindGetBlock(dev: nat, block: nat) returns (panicked: bool, bh: BufferHead?)
      requires Valid() && dev in devs
      modifies lru
      ensures Valid() && (panicked ==> bh == null)
      ensures PageOf(devs[dev], dev, block) !in pages ==> !panicked && bh == null && lru[..] == old(lru[..])
      ensures PageOf(devs[dev], dev, block) in pages ==> (panicked <==> block >= EndBlock(devs[dev]))
      ensures PageOf(devs[dev], dev, block) in pages && !panicked ==>
                && bh != null && IsHeadOf(bh, dev, block) && Matches(bh, dev, block, devs[dev].size) && bh.mapped
                && lru[..] == Front(old(lru[..]), bh)
    {
      hide Mul, Quot, Rem, EndBlock, Front, NoDuplicates, Ring;
      panicked := false;
      ghost var l := lru[..];
      assert AllListed(l);
      hide Listed;
      bh := BufferLru.Lookup(lru, dev, block, devs[dev].size);
      if bh == null {
        panicked, bh := FindSlow(dev, block);
        if bh != null {
          Install(lru, bh);
        }
      }
      if bh != null {
        assert AllListed(l);
        HeadIsListed(bh, dev, block);
        FrontListed(l, bh);
      }
    }

    /** The list stays valid with a listed head in front. */
    lemma FrontListed(l: seq<BufferHead?>, bh: BufferHead)
      requires lru.Length == BH_LRU_SIZE == |l| && NoDuplicates(l) && Pages() && lru[..] == Front(l, bh) && Listed(bh)
      requires AllListed(l)
      ensures Valid()
    {
      hide Front, Listed;
      FrontKeeps(l, bh);
      assert bh in heads by { ListedHead(bh); }
      forall k | 0 <= k < lru.Length && lru[k] != null ensures lru[k] in heads && Listed(lru[k]) {
        assert lru[k] == lru[..][k];
      }
    }

    lemma ListedHead(bh: BufferHead)
      requires Listed(bh)
      ensures bh in heads
    {
    }

    /** A hit in the list is what the search of the page would find. */
    lemma HeadIsListed(h: BufferHead, dev: nat, block: nat)
      requires Pages() && dev in devs
      requires || (Listed(h) && h.dev == dev && h.blocknr == block)
               || (IsHeadOf(h, dev, block) && block < EndBlock(devs[dev]))
      ensures Listed(h) && IsHeadOf(h, dev, block) && h.mapped && Matches(h, dev, block, devs[dev].size)
    {
      hide Mul, Quot, EndBlock;
      var d := devs[dev];
      PlaceOf(d, block);
      var key := PageOf(d, dev, block);
      assert Ring(d, key, rings[key]);
      assert Head(d, key, rings[key][Rem(block, d.perPage)], Rem(block, d.perPage));
    }

    /** Pages that had buffers still have the same ones. */
    ghost predicate Kept(pages0: map<Key, BufferHead>, rings0: map<Key, seq<BufferHead>>)
      reads this
    {
      && (forall key :: key in pages0 ==> key in pages && pages[key] == pages0[key])
      && (forall key :: key in rings0 ==> key in rings && rings[key] == rings0[key])
    }

    lemma DeviceOk(dev: nat)
      requires Valid() && dev in devs
      ensures ValidDevice(devs[dev])
    {
    }

    lemma KeptAll()
      ensures Kept(pages, rings)
    {
    }

    /** attach_page_private: the page has buffers from now on. */
    method Attach(key: Key, head: BufferHead, ghost ring: seq<BufferHead>)
      requires Valid() && key !in pages && key.dev in devs && Ring(devs[key.dev], key, ring) && head == ring[0]
      modifies this`pages, this`rings, this`heads
      ensures Valid() && pages == old(pages)[key := head] && rings == old(rings)[key := ring]
      ensures heads == old(heads) + (set h | h in ring) && Kept(old(pages), old(rings))
    {
      hide ListedIn, Ring, NoDuplicates, ValidDevice;
      assert ring != [] by { RingNotEmpty(devs[key.dev], key, ring); }
      ghost var more := set h | h in ring;
      forall k | 0 <= k < lru.Length && lru[k] != null
        ensures ListedIn(devs, rings[key := ring], heads + more, lru[k])
      {
        ListedStill(devs, rings, heads, lru[k], key, ring, more);
      }
      heads, pages, rings := heads + more, pages[key := head], rings[key := ring];
    }

    /** grow_buffers and grow_dev_page: make the buffers of the page that block lies in. */
    method Grow(dev: nat, block: nat) returns (panicked: bool)
      requires Valid() && dev in devs
      modifies this`pages, this`rings, this`heads
      ensures Valid() && (panicked <==> PageOf(devs[dev], dev, block) in old(pages) || block >= EndBlock(devs[dev]))
      ensures PageOf(devs[dev], dev, block) in pages && fresh(heads - old(heads)) && heads >= old(heads)
      ensures forall key :: key in pages <==> key in old(pages) || key == PageOf(devs[dev], dev, block)
      ensures Kept(old(pages), old(rings))
    {
      hide Mul, Quot, Rem, EndBlock, Pow2, Ring, Valid, Kept;
      DeviceOk(dev);
      KeptAll();
      var d := devs[dev];
      var n := SizeBits(d);
      var key := Key(dev, Quot(block, Pow2(n)));
      if key in pages {
        return true;
      }
      var head;
      ghost var ring;
      head, ring := MakeRing(d, key);
      Attach(key, head, ring);
      panicked := !(block < EndBlock(d));
    }

    /** The do-while loop that computes the page order of the block size. */
    method SizeBits(d: Device) returns (n: nat)
      requires ValidDevice(d)
      ensures n == d.bits
    {
      hide Mul, Pow2;
      n := 0;
      Shifted(d, 0);
      while Mul(d.size, Pow2(n)) < PAGE_SIZE
        invariant n <= d.bits
        decreases d.bits - n
      {
        Shifted(d, n);
        n := n + 1;
      }
      Shifted(d, n);
    }

    lemma Shifted(d: Device, n: nat)
      requires ValidDevice(d) && n <= d.bits
      ensures Mul(d.size, Pow2(n)) < PAGE_SIZE <==> n < d.bits
    {
      assert Mul(d.size, Pow2(n)) == Pow2(n) * d.size && Mul(d.perPage, d.size) == d.perPage * d.size;
      if n < d.bits {
        Pow2Monotone(n + 1, d.bits);
        MulStrict(d.perPage, Pow2(n), d.size);
      }
    }

    /** __getblk_slow: find, and if there is nothing to find make the page's buffers and find again. */
    method GetblkSlow(dev: nat, block: nat) returns (panicked: bool, bh: BufferHead?, grows: nat)
      requires Valid() && dev in devs && PageOf(devs[dev], dev, block) !in pages
      modifies lru, this`pages, this`rings, this`heads
      ensures Found(dev, block, panicked, bh) && fresh(heads - old(heads)) && heads >= old(heads)
      ensures Kept(old(pages), old(rings))
      ensures panicked <==> BadSize(devs[dev]) || block >= EndBlock(devs[dev])
      ensures grows == if BadSize(devs[dev]) then 0 else 1
      ensures !panicked ==> bh != null && lru[..] == Front(old(lru[..]), bh)
    {
      hide Mul, Quot, Rem, EndBlock, Pow2, Front, BadSize, Valid, HeadIn, Matches;
      DeviceOk(dev);
      grows := 0;
      if BadSize(devs[dev]) {
        return true, null, 0;
      }
      while true
        invariant Valid() && fresh(heads - old(heads)) && heads >= old(heads) && lru[..] == old(lru[..])
        invariant grows == if PageOf(devs[dev], dev, block) in pages then 1 else 0
        invariant grows == 1 ==> block < EndBlock(devs[dev])
        invariant Kept(old(pages), old(rings))
        decreases 1 - grows
      {
        panicked, bh := FindGetBlock(dev, block);
        if panicked || bh != null {
          return;
        }
        panicked := Grow(dev, block);
        grows := grows + 1;
        if panicked {
          return;
        }
      }
    }

    /** __getblk_gfp. */
    method Getblk(dev: nat, block: nat) returns (panicked: bool, bh: BufferHead?)
      requires Valid() && dev in devs
      modifies lru, this`pages, this`rings, this`heads
      ensures Found(dev, block, panicked, bh) && fresh(heads - old(heads)) && Kept(old(pages), old(rings))
      ensures panicked <==> || block >= EndBlock(devs[dev])
                            || (PageOf(devs[dev], dev, block) !in old(pages) && BadSize(devs[dev]))
      ensures !panicked ==> bh != null && lru[..] == Front(old(lru[..]), bh)
      ensures PageOf(devs[dev], dev, block) in old(pages) ==> pages == old(pages) && rings == old(rings)
    {
      hide Mul, Quot, Rem, EndBlock, Pow2, Ring, Front, NoDuplicates, BadSize, Listed;
      panicked, bh := FindGetBlock(dev, block);
      if !panicked && bh == null {
        var grows;
        panicked, bh, grows := GetblkSlow(dev, block);
      }
    }

    /** The outcome for a block: its own head, with its number, unless there was a panic. */
    ghost predicate Found(dev: nat, block: nat, panicked: bool, bh: BufferHead?)
      requires dev in devs
      reads this, lru, heads, bh
    {
      && Valid()
      && (!panicked ==> bh != null && IsHeadOf(bh, dev, block) && Matches(bh, dev, block, devs[dev].size) && bh.mapped)
    }
  }
}
