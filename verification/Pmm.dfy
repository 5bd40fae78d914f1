/** The physical memory manager (kernel/src/pmm.c), one call at a time. Locks, which a single
    caller never finds taken, are the subject of PmmLocks. */
module Pmm {
  import opened Bits
  import opened ChainKeys
  import opened PmmPages
  import opened PmmSlab
  import opened PmmSizes
  import opened PmmState

  const MAX_CPU := 8

  class Allocator {
    const pages: Pages
    const nCpu: int              // n_slab
    const heads: array2<int>     // Slab[cpu][class]
    var mem: Memory
    ghost var slabs: map<int, Slab>
    ghost var chains: map<Key, seq<int>>
    ghost var pos: map<int, Pos>
    ghost var live: map<int, int>
    ghost var boot: int
    ghost var pending: set<int>

    ghost function St(): State
      reads this, pages
    {
      State(mem, pages.gStart, pages.nMeta, boot, pages.stale, pages.blocks, pending, slabs, chains, pos, live)
    }

    ghost predicate HeadsOk(chains: map<Key, seq<int>>)
      reads heads
    {
      && heads.Length0 == MAX_CPU && heads.Length1 == SLAB_SIZE && 0 < nCpu <= MAX_CPU
      && (forall k :: k in chains <==> 0 <= k.cpu < nCpu && 0 <= k.cls < SLAB_SIZE)
      && (forall k :: k in chains ==> |chains[k]| > 0 && heads[k.cpu, k.cls] == chains[k][0])
    }

    // Every request up to MAX_ALLOC keeps try_alloc inside the Meta table.
    ghost predicate TableFits() {
      (pages.Page0() + pages.nMeta) % MAX_PAGES == 0 || pages.nMeta + MAX_PAGES - 1 <= META_SZ
    }

    ghost predicate Valid()
      reads this, pages, pages.meta, heads
    {
      && pages.Valid() && TableFits() && HeadsOk(chains) && Inv(St())
      && boot == nCpu * SLAB_SIZE && pending == {}
    }

    // --------------------------------------------------------------- slab pages

    // slab_init
    method SlabInit(slab: int, size: int)
      requires IsClass(size) && slab > 0 && slab % PG == 0 && slab + PG <= WORD
      modifies `mem
      ensures mem == MemAfterInit(old(mem), slab, size)
    {
      SlabGeometry(slab, size);
      ClassMasks(slab, size);
      var nHead := MaskUp(slab + H_PAYLOAD, size);
      mem := mem[slab + H_LK := 0];
      mem := mem[slab + H_SZ := size];
      mem := mem[slab + H_HEAD := nHead];
      mem := mem[slab + H_NEXT := 0];
      var nextPg := slab + PG;
      var nSz := MaskDown(nextPg - (slab + H_PAYLOAD), size);
      mem := mem[nHead + N_NEXT := 0];
      mem := mem[nHead + N_SIZE := nSz];
    }

    lemma ClassMasks(slab: int, size: int)
      requires IsClass(size) && slab > 0 && slab + PG <= WORD
      ensures 0 < size <= WORD && MaskUp(slab + H_PAYLOAD, size) == RoundUp(slab + H_PAYLOAD, size)
      ensures MaskDown(PG - H_PAYLOAD, size) == RoundDown(PG - H_PAYLOAD, size)
    {
      var j: nat :| j < SLAB_SIZE && size == ClassSize(j);
      ClassIsPower(j);
      ClassBelowPage(j);
      RoundDownIsMask(slab + H_PAYLOAD + size - 1, 4 + j, size);
      RoundDownIsMask(PG - H_PAYLOAD, 4 + j, size);
    }

    lemma ClassBelowPage(j: nat)
      requires j < SLAB_SIZE
      ensures ClassSize(j) <= 4096
    {
      assert Pow2(12) == 4096 by { Pow2Values(); }
      ClassIsPower(j);
      Pow2Mono(j + 4, 12);
    }

    // ROUNDDOWN(p, GPAGE_SZ)
    method PageOf(p: int) returns (b: int)
      requires 0 <= p < WORD
      ensures b == RoundDown(p, PG)
    {
      assert Pow2(16) == PG by { Pow2Values(); }
      RoundDownIsMask(p, 16, PG);
      b := MaskDown(p, PG);
    }

    // slab_alloc
    method SlabAlloc(slab: int, size: int, ghost s: Slab) returns (node: int)
      requires SlabOk(mem, slab, s) && s.sz == size
      modifies `mem
      ensures s.free == [] ==> node == 0 && mem == old(mem)
      ensures s.free != [] ==> node > 0 && node == s.free[0].addr && mem == MemAfterAlloc(old(mem), slab, s)
    {
      node := Rd(mem, slab + H_HEAD);
      if s.free != [] {
        NodeAt(slab, s, 0);
        assert StoredAt(mem, s.free, 0);
      }
      if node != 0 {
        if Rd(mem, node + N_SIZE) == size {
          mem := mem[slab + H_HEAD := Rd(mem, node + N_NEXT)];
        } else {
          assert Rd(mem, node + N_SIZE) > size;
          var newNode := node + size;
          var rest, next := Rd(mem, node + N_SIZE) - size, Rd(mem, node + N_NEXT);
          mem := mem[newNode + N_SIZE := rest];
          mem := mem[newNode + N_NEXT := next];
          mem := mem[slab + H_HEAD := newNode];
        }
      }
    }

    // S_free's list walk: the new node is linked in front of the first node above it.
    method InsertSorted(slab: int, ptr: int, ghost s: Slab) returns (ghost k: int)
      requires SlabOk(mem, slab, s) && LiveSlot(slab, s, ptr)
      modifies `mem
      ensures InsertAt(s.free, ptr, k) && mem == MemAfterFree(old(mem), slab, s, ptr, k)
    {
      ghost var m0 := mem;
      mem := mem[ptr + N_SIZE := Rd(mem, slab + H_SZ)];
      mem := mem[ptr + N_NEXT := 0];
      ghost var m1 := mem;
      var nodeHead, prev := Rd(mem, slab + H_HEAD), 0;
      k := 0;
      if nodeHead == 0 {
        if s.free != [] { NodeAt(slab, s, 0); }
        mem := mem[slab + H_HEAD := ptr];
        return;
      }
      while nodeHead != 0
        invariant 0 <= k <= |s.free| && mem == m1
        invariant nodeHead == AddrAt(s.free, k) && prev == (if k == 0 then 0 else s.free[k - 1].addr)
        invariant forall i :: 0 <= i < k ==> s.free[i].addr < ptr
        invariant nodeHead != 0 || k > 0
        decreases |s.free| - k
      {
        NodeApart(m0, m1, slab, s, ptr, k);
        if ptr <= nodeHead {
          assert ptr != nodeHead;
          mem := mem[ptr + N_NEXT := nodeHead];
          if prev == 0 {
            mem := mem[slab + H_HEAD := ptr];
          } else {
            mem := mem[prev + N_NEXT := ptr];
          }
          break;
        }
        prev := nodeHead;
        nodeHead := Rd(mem, nodeHead + N_NEXT);
        k := k + 1;
      }
      if nodeHead == 0 {
        if k < |s.free| { NodeAt(slab, s, k); }
        mem := mem[ptr + N_NEXT := 0];
        mem := mem[prev + N_NEXT := ptr];
      }
    }

    // Writing the freed slot's fields leaves the links of the list readable.
    lemma NodeApart(m0: Memory, m1: Memory, slab: int, s: Slab, ptr: int, k: int)
      requires SlabOk(m0, slab, s) && LiveSlot(slab, s, ptr) && 0 <= k <= |s.free|
      requires forall a :: a != ptr && a != ptr + 8 ==> Rd(m1, a) == Rd(m0, a)
      ensures k < |s.free| ==> s.free[k].addr > slab && s.free[k].addr != ptr
      ensures k < |s.free| ==> Rd(m1, s.free[k].addr) == AddrAt(s.free, k + 1)
      ensures k > 0 ==> s.free[k - 1].addr > slab
    {
      if k < |s.free| {
        NodeAt(slab, s, k);
        LiveApart(slab, s, ptr, k);
        assert StoredAt(m0, s.free, k);
      }
      if k > 0 { NodeAt(slab, s, k - 1); }
    }

    // S_free, for a live slot
    method SFree(ptr: int)
      requires Valid() && ptr in live && SlotBlock(St(), ptr, live[ptr])
      modifies `mem, `slabs, `live
      ensures Valid() && live == old(live) - {ptr} && LiveBytesKept(old(St()), St())
      ensures exists k :: SlotFreed(old(St()), St(), ptr, k)
    {
      LiveAddress(ptr);
      var slab := PageOf(ptr);
      SlabFacts(St(), slab);
      var k := InsertSorted(slab, ptr, slabs[slab]);
      ghost var st := old(St());
      SlabFreeInv(st, ptr, k);
      slabs := slabs[slab := AfterFree(slabs[slab], ptr, k)];
      live := live - {ptr};
      assert St() == SlabFreed(st, slab, ptr, k);
      assert SlotFreed(st, St(), ptr, k);
    }

    lemma LiveAddress(a: int)
      requires Valid() && a in live
      ensures 0 <= a < WORD
    {
      LiveFacts(St(), a);
      var i := PagesOf(St(), a, live[a]);
      assert InBlock(pages.blocks, i, i);
    }

    // G_alloc, in terms of the state: the lowest run of n pages that is available is taken.
    method GetPages(n: int, isSlab: bool) returns (ret: int, ghost i: int)
      requires pages.Valid() && pages.TableCovers(n) && PageCount(n)
      modifies pages`blocks, pages.meta
      ensures pages.Valid()
      ensures ret == 0 ==> pages.blocks == old(pages.blocks) && NoRoom(old(St()), n)
      ensures ret != 0 ==> ret == pages.gStart + i * PG && ret % (n * PG) == 0
      ensures ret != 0 ==> FirstFit(old(St()), i, n) && pages.blocks == old(pages.blocks)[i := Run(n, isSlab)]
    {
      ghost var m0, st := pages.meta[..], St();
      ret := pages.GAlloc(n, isSlab);
      i := pages.MetaIndex(ret);
      forall q
        ensures pages.Candidate(q, n) && FreeRun(m0, q, n) <==> Available(st, q, n)
      {
        FreeIsAvailable(st, m0, q, n);
      }
    }

    // What the table calls a free run is what the state calls available.
    lemma FreeIsAvailable(st: State, m0: seq<MetaEntry>, q: int, n: int)
      requires pages.TableCovers(n) && PageCount(n) && |m0| == META_SZ
      requires Picture(m0, pages.gStart, pages.nMeta, st.blocks, st.stale)
      requires st.gStart == pages.gStart && st.nPages == pages.nMeta
      ensures pages.Candidate(q, n) && FreeRun(m0, q, n) <==> Available(st, q, n)
    {
      if pages.Candidate(q, n) {
        pages.LastCandidate(q, n);
        FreeRunIsNew(m0, pages.gStart, pages.nMeta, st.blocks, st.stale, q, n);
      }
    }

    // add_slab's call of G_alloc
    method TakeSlabPage() returns (ret: int, ghost i: int)
      requires pages.Valid() && Inv(St()) && TableFits()
      modifies `pending, pages`blocks, pages.meta
      ensures pages.Valid() && Inv(St())
      ensures ret == 0 ==> St() == old(St()) && NoRoom(old(St()), 1)
      ensures ret != 0 ==> ret == St().Addr(i) && 0 <= i < pages.nMeta
      ensures ret != 0 ==> FirstFit(old(St()), i, 1) && St() == PageTaken(old(St()), i)
    {
      ghost var st := St();
      TableCoversSmall(1);
      OneIsCount();
      ret, i := GetPages(1, true);
      if ret != 0 {
        PageTakenInv(st, i);
        pending := pending + {i};
        assert St() == PageTaken(st, i);
      }
    }

    // The rest of add_slab: the new page behind the last one of a chain.
    method LinkSlab(ret: int, slab: int, ghost i: int, ghost k: Key)
      requires Inv(St()) && i in pending && ret == St().Addr(i) && ret + PG <= WORD && 0 <= k.cls < SLAB_SIZE
      requires k in chains && chains[k] != [] && slab == chains[k][|chains[k]| - 1]
      modifies `mem, `slabs, `chains, `pos, `pending
      ensures St() == SlabAdded(old(St()), i, k) && Inv(St()) && LiveBytesKept(old(St()), St())
    {
      ghost var st := St();
      PendingFacts(st, i);
      SlabAddReads(st, i, k);
      SlabInit(ret, Rd(mem, slab + H_SZ));
      assert Rd(mem, slab + H_NEXT) == 0;
      mem := mem[slab + H_NEXT := ret];
      Extend(st, i, k);
    }

    lemma NewSlab(st: State, i: int, k: Key)
      requires k.cls >= 0
      ensures var st', b := SlabAdded(st, i, k), st.Addr(i);
        && b in st'.slabs && st'.slabs[b].sz == ClassSize(k.cls) && st'.slabs[b].free != []
        && k in st'.chains && b in st'.chains[k]
    {}

    // add_slab: a new page behind the last one of a chain, or 0 if no page is free
    method AddSlab(slab: int, ghost k: Key) returns (ret: int, ghost i: int)
      requires Valid() && k in chains && slab == chains[k][|chains[k]| - 1]
      modifies `mem, `slabs, `chains, `pos, `pending, pages`blocks, pages.meta
      ensures Valid() && live == old(live)
      ensures ret == 0 ==> St() == old(St())
      ensures ret == 0 <==> NoRoom(old(St()), 1)
      ensures ret != 0 ==> ret == old(St()).Addr(i) && FirstFit(old(St()), i, 1)
      ensures ret != 0 ==> St() == SlabAdded(PageTaken(old(St()), i), i, k)
      ensures ret != 0 ==> ret in slabs && slabs[ret].sz == ClassSize(k.cls) && slabs[ret].free != []
      ensures ret != 0 ==> k in chains && ret in chains[k]
      ensures LiveBytesKept(old(St()), St())
    {
      ret, i := TakeSlabPage();
      if ret != 0 {
        PageInMemory(i);
        NewSlab(St(), i, k);
        LinkSlab(ret, slab, i, k);
        assert pending == {};
      }
    }

    lemma OneIsCount()
      ensures PageCount(1)
    {
      assert Pow2(0) == 1;
    }

    lemma PageInMemory(i: int)
      requires pages.Valid() && 0 <= i < pages.nMeta
      ensures pages.gStart + i * PG + PG <= WORD
    {}

    // The bookkeeping of a new slab page.
    ghost method Extend(st: State, i: int, k: Key)
      requires Inv(st) && i in st.pending && 0 <= k.cls < SLAB_SIZE
      requires St() == st.(mem := SlabAdded(st, i, k).mem)
      modifies `slabs, `chains, `pos, `pending
      ensures St() == SlabAdded(st, i, k) && Inv(St()) && LiveBytesKept(st, St())
    {
      SlabAddInv(st, i, k);
      var b := st.Addr(i);
      pending := pending - {i};
      slabs := slabs[b := FreshSlab(b, ClassSize(k.cls))];
      pos := pos[b := Pos(k, |Chain(st, k)|)];
      chains := chains[k := Chain(st, k) + [b]];
    }

    lemma TableCoversSmall(n: int)
      requires TableFits() && 0 < n <= MAX_PAGES && MAX_PAGES % n == 0
      ensures pages.TableCovers(n)
    {
      if (pages.Page0() + pages.nMeta) % MAX_PAGES == 0 {
        var x := pages.Page0() + pages.nMeta;
        var q, r := x / MAX_PAGES, MAX_PAGES / n;
        assert x == MAX_PAGES * q && MAX_PAGES == n * r;
        assert x == n * (r * q);
        DivUnique(x, n, r * q, 0);
      }
    }

    // ------------------------------------------------------------ kalloc and kfree

    // The bookkeeping of a slot taken from a slab page.
    ghost method TakeSlot(st: State, b: int)
      requires Inv(st) && b in st.slabs && st.slabs[b].free != []
      requires St() == st.(mem := SlabAllocated(st, b).mem)
      modifies `slabs, `live
      ensures St() == SlabAllocated(st, b) && Inv(St()) && LiveBytesKept(st, St())
      ensures var p, sz := st.slabs[b].free[0].addr, st.slabs[b].sz;
        p !in st.live && sz > 0 && Mult(p, sz) && p > 0 && b <= p < b + PG
    {
      SlabAllocInv(st, b);
      SlotInPage(st, b);
      var s := slabs[b];
      slabs := slabs[b := AfterAlloc(s)];
      live := live[s.free[0].addr := s.sz];
    }

    lemma SlotInPage(st: State, b: int)
      requires Inv(st) && b in st.slabs && st.slabs[b].free != []
      ensures b <= st.slabs[b].free[0].addr < b + PG
    {
      SlabFacts(st, b);
      NodeAt(b, st.slabs[b], 0);
    }

    // a lies in a slab page of chain k.
    ghost predicate FromChain(a: int, k: Key)
      reads this
    {
      k in chains && exists b {:trigger b in chains[k]} :: b in chains[k] && b <= a < b + PG
    }

    ghost predicate ChainFull(k: Key)
      requires k in chains
      reads this
    {
      forall i :: 0 <= i < |chains[k]| ==> chains[k][i] in slabs && slabs[chains[k][i]].free == []
    }

    // The loop of S_alloc: the first free slot in the CPU's chain for this size.
    method SearchChain(cpu: int, size: int, ghost j: nat) returns (ret: int, prev: int)
      requires Valid() && 0 <= cpu < nCpu && j < SLAB_SIZE && size == ClassSize(j)
      modifies `mem, `slabs, `live
      ensures Valid() && LiveBytesKept(old(St()), St())
      ensures ret == 0 ==> St() == old(St()) && prev == chains[Key(cpu, j)][|chains[Key(cpu, j)]| - 1]
      ensures ret == 0 <==> old(ChainFull(Key(cpu, j)))
      ensures ret != 0 ==> ret > 0 && Mult(ret, size) && ret !in old(live) && live == old(live)[ret := size]
      ensures ret != 0 ==> FromChain(ret, Key(cpu, j))
    {
      var id := GetSlabIndex(size, j);
      ghost var k, st := Key(cpu, j), St();
      var slab := heads[cpu, id];
      ret, prev := 0, 0;
      ghost var i, chain := 0, chains[k];
      LinkFacts(st, k, 0);
      while slab != 0
        invariant St() == st && ret == 0
        invariant 0 <= i <= |chain| && slab == (if i < |chain| then chain[i] else 0)
        invariant i > 0 ==> prev == chain[i - 1]
        invariant slab == 0 ==> i == |chain|
        invariant forall m :: 0 <= m < i ==> chain[m] in slabs && slabs[chain[m]].free == []
        decreases |chain| - i
      {
        LinkFacts(st, k, i);
        ret := SlabAlloc(slab, size, slabs[slab]);
        if ret != 0 {
          TakeSlot(st, slab);
          assert chain[i] in chain;
          return;
        }
        prev := slab;
        slab := Rd(mem, slab + H_NEXT);
        i := i + 1;
        if i < |chain| { LinkFacts(st, k, i); }
      }
    }

    // The end of S_alloc: the first slot of a new page, if there is one.
    method GrowChain(slab: int, size: int, ghost k: Key) returns (ret: int)
      requires Valid() && k in chains && slab == chains[k][|chains[k]| - 1] && size == ClassSize(k.cls)
      modifies `mem, `slabs, `chains, `pos, `live, `pending, pages`blocks, pages.meta
      ensures Valid() && LiveBytesKept(old(St()), St())
      ensures ret == 0 ==> St() == old(St())
      ensures ret == 0 <==> NoRoom(old(St()), 1)
      ensures ret != 0 ==> ret > 0 && Mult(ret, size) && ret !in old(live) && live == old(live)[ret := size]
      ensures ret != 0 ==> FromChain(ret, k)
    {
      ghost var st, i := St(), 0;
      var newSlab;
      newSlab, i := AddSlab(slab, k);
      if newSlab == 0 {
        return 0;
      }
      ghost var st1 := St();
      ret := FirstSlot(newSlab, size, k);
      KeptTransitive(st, st1, St());
    }

    // S_alloc: a slot of the CPU's chain, or one of a new page at its end
    method SAlloc(cpu: int, size: int, ghost j: nat) returns (ret: int)
      requires Valid() && 0 <= cpu < nCpu && j < SLAB_SIZE && size == ClassSize(j)
      modifies `mem, `slabs, `chains, `pos, `live, `pending, pages`blocks, pages.meta
      ensures Valid() && LiveBytesKept(old(St()), St())
      ensures ret == 0 ==> St() == old(St())
      ensures ret == 0 <==> old(ChainFull(Key(cpu, j))) && NoRoom(old(St()), 1)
      ensures ret != 0 ==> ret > 0 && Mult(ret, size) && ret !in old(live) && live == old(live)[ret := size]
      ensures ret != 0 ==> FromChain(ret, Key(cpu, j))
    {
      var prev;
      ret, prev := SearchChain(cpu, size, j);
      if ret == 0 {
        ret := GrowChain(prev, size, Key(cpu, j));
      }
    }

    // slab_alloc on a slab page that has a free slot
    method FirstSlot(slab: int, size: int, ghost k: Key) returns (ret: int)
      requires Valid() && slab in slabs && slabs[slab].sz == size && slabs[slab].free != []
      requires k in chains && slab in chains[k]
      modifies `mem, `slabs, `live
      ensures Valid() && LiveBytesKept(old(St()), St()) && St() == SlabAllocated(old(St()), slab)
      ensures ret > 0 && size > 0 && Mult(ret, size) && ret !in old(live) && live == old(live)[ret := size]
      ensures FromChain(ret, k)
    {
      ghost var st := St();
      SlabFacts(st, slab);
      ret := SlabAlloc(slab, size, slabs[slab]);
      TakeSlot(st, slab);
    }

    lemma LinkFacts(st: State, k: Key, i: int)
      requires Inv(st) && k in st.chains && 0 <= i < |st.chains[k]|
      ensures LinkInv(st, k, i) && SlabInv(st, st.chains[k][i]) && st.chains[k][i] > 0
    {
      assert LinkInv(st, k, i);
      SlabFacts(st, st.chains[k][i]);
    }

    // There is no room: no free slot in the CPU's chain for the smallest class that holds the
    // request and no free page, or no aligned run of the least number of pages that hold it.
    ghost predicate Exhausted(cpu: int, size: nat)
      reads this, pages, pages.meta, heads
    {
      if size <= 4096 then ClassFull(cpu, size) && NoRoom(St(), 1)
      else exists n {:trigger LeastPages(size, n)} :: LeastPages(size, n) && n > 0 && NoRoom(St(), n)
    }

    // G_alloc for a client
    method AllocPages(n: int) returns (ret: int)
      requires Valid() && 0 < n <= MAX_PAGES && MAX_PAGES % n == 0 && PageCount(n)
      modifies `live, pages`blocks, pages.meta
      ensures Valid() && mem == old(mem)
      ensures ret == 0 ==> St() == old(St())
      ensures ret == 0 <==> NoRoom(old(St()), n)
      ensures ret != 0 ==> ret > 0 && ret % (n * PG) == 0 && ret !in old(live) && live == old(live)[ret := n * PG]
      ensures ret != 0 ==> exists i :: FirstFit(old(St()), i, n) && St() == PagesAllocated(old(St()), i, n)
    {
      ghost var st, i := St(), 0;
      TableCoversSmall(n);
      ret, i := GetPages(n, false);
      if ret != 0 {
        PagesAllocInv(st, i, n);
        live := live[ret := n * PG];
        assert St() == PagesAllocated(st, i, n);
      }
    }

    // The chain of CPU cpu for requests of size bytes is full: that is the chain of the smallest
    // class that holds them.
    ghost predicate ClassFull(cpu: int, size: nat)
      reads this
    {
      exists j: nat {:trigger SmallestClass(size, j)} ::
        SmallestClass(size, j) && Key(cpu, j) in chains && ChainFull(Key(cpu, j))
    }

    // A slot of that class, from one of that CPU's slab pages.
    ghost predicate IsSlotFor(cpu: int, size: nat, a: int)
      reads this
    {
      exists j: nat {:trigger SmallestClass(size, j)} ::
        SmallestClass(size, j) && a in live && live[a] == ClassSize(j) && FromChain(a, Key(cpu, j))
    }

    // kalloc's call of S_alloc
    method SmallBlock(cpu: int, size: nat, sz: int) returns (ret: int)
      requires Valid() && 0 <= cpu < nCpu && size <= 4096 && sz == BlockSize(size) <= 4096
      modifies `mem, `slabs, `chains, `pos, `live, `pending, pages`blocks, pages.meta
      ensures Valid() && LiveBytesKept(old(St()), St())
      ensures ret == 0 ==> St() == old(St())
      ensures ret == 0 <==> old(ClassFull(cpu, size)) && NoRoom(old(St()), 1)
      ensures ret != 0 ==> ret > 0 && Mult(ret, sz) && ret !in old(live) && live == old(live)[ret := sz]
      ensures ret != 0 ==> IsSlotFor(cpu, size, ret)
    {
      ghost var j := SmallRequest(size);
      RequestClass(size);
      forall j': nat | SmallestClass(size, j') ensures j' == j { SmallestIsOne(size, j, j'); }
      ret := SAlloc(cpu, sz, j);
    }

    // kalloc's call of G_alloc
    method LargeBlock(size: nat, sz: int) returns (ret: int)
      requires Valid() && 4096 < size <= MAX_ALLOC && sz == BlockSize(size) > 4096
      modifies `live, pages`blocks, pages.meta
      ensures Valid() && mem == old(mem)
      ensures ret == 0 ==> St() == old(St())
      ensures ret == 0 <==> NoRoom(old(St()), PagesFor(size))
      ensures ret != 0 ==> ret > 0 && Mult(ret, sz) && ret % (PagesFor(size) * PG) == 0
      ensures ret != 0 ==> ret !in old(live) && live == old(live)[ret := PagesFor(size) * PG]
      ensures ret != 0 ==>
        exists i :: FirstFit(old(St()), i, PagesFor(size)) && St() == PagesAllocated(old(St()), i, PagesFor(size))
    {
      var npage := sz / PG;
      if npage == 0 { npage := 1; }
      PagesRequest(size);
      ret := AllocPages(npage);
      if ret != 0 { MultOfMult(ret, npage * PG, sz); }
    }

    // The class and the number of pages are given by the request; what an aligned address with room
    // is, RoomAt says in bytes.
    method Kalloc(cpu: int, size: nat) returns (ret: int)
      requires Valid() && 0 <= cpu < nCpu
      modifies `mem, `slabs, `chains, `pos, `live, `pending, pages`blocks, pages.meta
      ensures Valid() && LiveBytesKept(old(St()), St())
      ensures ret == 0 ==> St() == old(St())
      ensures ret == 0 <==> size > MAX_ALLOC || old(Exhausted(cpu, size))
      ensures ret != 0 ==> ret > 0 && LeastBlock(size, BlockSize(size)) && Mult(ret, BlockSize(size))
      ensures ret != 0 ==> ret !in old(live) && live == old(live)[ret := BlockLength(size)]
      ensures ret != 0 ==> pages.gStart <= ret && (Fits(St()) ==> ret + BlockLength(size) <= St().End())
      ensures ret != 0 && size <= 4096 ==> IsSlotFor(cpu, size, ret)
      ensures ret != 0 && size > 4096 ==> LeastPages(size, PagesFor(size)) && ret % (PagesFor(size) * PG) == 0
      ensures ret != 0 && size > 4096 ==>
        exists i :: FirstFit(old(St()), i, PagesFor(size)) && St() == PagesAllocated(old(St()), i, PagesFor(size))
    {
      if size > MAX_ALLOC {
        return 0;
      }
      var sz := NextPower2(size);
      if sz < 16 { sz := 16; }
      RequestClass(size);
      BlockSizeIsLeast(size);
      if sz <= 4096 {
        ret := SmallBlock(cpu, size, sz);
      } else {
        PagesAreLeast(size);
        forall n | LeastPages(size, n) ensures n == PagesFor(size) { LeastPagesOne(size, n, PagesFor(size)); }
        ret := LargeBlock(size, sz);
      }
      if ret != 0 { InsideManaged(ret); }
    }

    lemma InsideManaged(a: int)
      requires Valid() && a in live
      ensures pages.gStart <= a && (Fits(St()) ==> a + live[a] <= St().End())
    {
      LiveFacts(St(), a);
      LiveBlockInside(St(), a, live[a]);
    }

    lemma MultOfMult(p: int, m: int, n: int)
      requires p >= 0 && m > 0 && n > 0 && p % m == 0 && Mult(m, n)
      ensures Mult(p, n)
      decreases p
    {
      if p > 0 {
        MultIsMod(p, m);
        assert p >= m && Mult(p - m, m);
        MultIsMod(p - m, m);
        MultOfMult(p - m, m, n);
        MultAdd(p - m, m, n);
      }
    }

    // The page of a live block, as kfree looks it up in Meta.
    method LookUp(ptr: int) returns (pRd: int, isSlab: bool)
      requires Valid() && ptr in live
      ensures pRd == RoundDown(ptr, PG)
      ensures if isSlab then SlotBlock(St(), ptr, live[ptr])
              else pRd == ptr && PageBlock(St(), ptr, live[ptr])
      ensures isSlab ==> !PageBlock(St(), ptr, live[ptr])
      ensures !isSlab ==> !SlotBlock(St(), ptr, live[ptr])
    {
      EntryOf(ptr);
      LiveAddress(ptr);
      pRd := PageOf(ptr);
      var id := pages.MetaIndex(pRd);
      isSlab := pages.meta[id].isSlab;
    }

    // The entry of a live block's page says which allocator the block came from.
    lemma EntryOf(a: int)
      requires Valid() && a in live
      ensures var b := RoundDown(a, PG);
        && 0 <= pages.MetaIndex(b) < pages.meta.Length
        && if pages.meta[pages.MetaIndex(b)].isSlab
           then SlotBlock(St(), a, live[a]) && !PageBlock(St(), a, live[a])
           else b == a && PageBlock(St(), a, live[a]) && !SlotBlock(St(), a, live[a])
    {
      LiveFacts(St(), a);
      var i := PagesOf(St(), a, live[a]);
      assert InBlock(pages.blocks, i, i);
      OneAllocator(St(), a, live[a], i);
    }

    // G_free, for a live page block
    method FreePages(ptr: int)
      requires Valid() && ptr in live && PageBlock(St(), ptr, live[ptr])
      modifies `live, pages`blocks, pages.meta
      ensures Valid() && live == old(live) - {ptr} && St() == PagesFreed(old(St()), old(St()).Index(ptr))
    {
      ghost var st, i := St(), St().Index(ptr);
      PagesFreeInv(st, i);
      pages.GFree(ptr);
      live := live - {ptr};
      assert St() == PagesFreed(st, i);
    }

    // kfree, for a live block: back to the allocator that it came from
    method Kfree(ptr: int)
      requires Valid() && ptr in live
      modifies `mem, `slabs, `live, pages`blocks, pages.meta
      ensures Valid() && live == old(live) - {ptr} && LiveBytesKept(old(St()), St())
      ensures old(SlotBlock(St(), ptr, live[ptr])) ==> exists k :: SlotFreed(old(St()), St(), ptr, k)
      ensures old(PageBlock(St(), ptr, live[ptr])) ==> St() == PagesFreed(old(St()), old(St()).Index(ptr))
    {
      var pRd, isSlab := LookUp(ptr);
      if isSlab {
        SFree(ptr);
      } else {
        FreePages(ptr);
      }
    }

    // ------------------------------------------------------------- initialisation

    // Exactly the first c pages are taken, as slab pages.
    ghost predicate PagesStarted(blocks: map<int, Run>, c: int) {
      && (forall i {:trigger i in blocks} :: i in blocks <==> 0 <= i < c)
      && (forall i {:trigger blocks[i]} :: i in blocks ==> blocks[i] == Run(1, true))
    }

    lemma OneMoreStarted(blocks: map<int, Run>, c: int)
      requires 0 <= c && PagesStarted(blocks, c)
      ensures PagesStarted(blocks[c := Run(1, true)], c + 1)
    {}

    // The chains of the first c (CPU, class) pairs, CPU by CPU, have their first page.
    ghost predicate ChainsStarted(ch: map<Key, seq<int>>, c: int)
      reads heads
    {
      && heads.Length0 == MAX_CPU && heads.Length1 == SLAB_SIZE
      && (forall k {:trigger k in ch} :: k in ch <==> Before(k, c))
      && (forall k {:trigger ch[k]} :: k in ch ==>
            k.cpu < MAX_CPU && |ch[k]| > 0 && heads[k.cpu, k.cls] == ch[k][0])
    }

    predicate Before(k: Key, c: int) {
      0 <= k.cpu && 0 <= k.cls < SLAB_SIZE && k.cpu * SLAB_SIZE + k.cls < c
    }

    // With the first c pages taken, G_alloc(1, true) hands out page c.
    method FirstPage(ghost c: int) returns (slab: int)
      requires pages.Valid() && Inv(St()) && PagesStarted(pages.blocks, c) && TableFits() && 0 <= c < pages.nMeta
      modifies `pending, pages`blocks, pages.meta
      ensures pages.Valid() && Inv(St()) && PagesStarted(pages.blocks, c + 1)
      ensures slab == St().Addr(c) && FirstFit(old(St()), c, 1) && St() == PageTaken(old(St()), c)
    {
      ghost var i;
      OneIsCount();
      NextPage(St(), c);
      OneMoreStarted(pages.blocks, c);
      slab, i := TakeSlabPage();
    }

    method SetHead(cpu: int, cls: int, slab: int, ghost ch: map<Key, seq<int>>, ghost c: int)
      requires ChainsStarted(ch, c)
      requires 0 <= cpu < MAX_CPU && 0 <= cls < SLAB_SIZE && c == cpu * SLAB_SIZE + cls
      modifies heads
      ensures ChainsStarted(ch[Key(cpu, cls) := [slab]], c + 1)
    {
      heads[cpu, cls] := slab;
      forall k ensures Before(k, c + 1) <==> Before(k, c) || k == Key(cpu, cls) { NextKey(k, Key(cpu, cls), c); }
    }

    // The allocator while S_init is at work: c pages and chains are there.
    ghost predicate Starting(c: int)
      reads this, pages, pages.meta, heads
    {
      && pages.Valid() && Inv(St()) && PagesStarted(pages.blocks, c) && ChainsStarted(chains, c) && TableFits()
      && boot == 0 && pending == {} && live == map[]
    }

    // One turn of S_init.
    method StartChain(cpu: int, cls: int, ghost c: int)
      requires Starting(c) && 0 <= cpu < MAX_CPU && 0 <= cls < SLAB_SIZE
      requires c == cpu * SLAB_SIZE + cls && c < pages.nMeta
      modifies `mem, `slabs, `chains, `pos, `pending, pages`blocks, pages.meta, heads
      ensures Starting(c + 1)
    {
      ghost var k := Key(cpu, cls);
      NextKey(k, k, c);
      var slab := FirstPage(c);
      PageInMemory(c);
      FirstSlab(slab, cls, c, k);
      SetHead(cpu, cls, slab, old(chains), c);
    }

    // slab_init in S_init: a chain of one page.
    method FirstSlab(slab: int, cls: int, ghost i: int, ghost k: Key)
      requires Inv(St()) && i in pending && slab == St().Addr(i) && slab + PG <= WORD
      requires 0 <= cls < SLAB_SIZE && k.cls == cls && k !in chains
      modifies `mem, `slabs, `chains, `pos, `pending
      ensures Inv(St()) && pending == old(pending) - {i} && chains == old(chains)[k := [slab]]
    {
      ghost var st := St();
      PendingFacts(st, i);
      assert IsClass(ClassSize(cls));
      SlabInit(slab, ClassSize(cls));
      Extend(st, i, k);
      assert Chain(st, k) + [slab] == [slab];
    }

    // S_init's inner loop: the chains of one CPU.
    method StartCpu(cpu: int)
      requires Starting(cpu * SLAB_SIZE) && 0 <= cpu < MAX_CPU && (cpu + 1) * SLAB_SIZE <= pages.nMeta
      modifies `mem, `slabs, `chains, `pos, `pending, pages`blocks, pages.meta, heads
      ensures Starting((cpu + 1) * SLAB_SIZE)
    {
      for j := 0 to SLAB_SIZE
        invariant Starting(cpu * SLAB_SIZE + j)
      {
        StartChain(cpu, j, cpu * SLAB_SIZE + j);
      }
    }

    // From now on the first pages count as taken by S_init.
    ghost method FinishStart()
      requires Starting(nCpu * SLAB_SIZE) && 0 < nCpu <= MAX_CPU && nCpu * SLAB_SIZE <= pages.nMeta
      modifies `boot
      ensures Valid() && Started(St()) && live == map[]
    {
      BootDone(St(), nCpu * SLAB_SIZE);
      boot := nCpu * SLAB_SIZE;
      forall k ensures Before(k, boot) <==> 0 <= k.cpu < nCpu && 0 <= k.cls < SLAB_SIZE {}
    }

    lemma NextKey(k': Key, k: Key, c: int)
      requires 0 <= k.cls < SLAB_SIZE && 0 <= k.cpu && c == k.cpu * SLAB_SIZE + k.cls
      ensures Before(k', c + 1) <==> Before(k', c) || k' == k
    {}

    // S_init
    method StartAll()
      requires Starting(0) && 0 < nCpu <= MAX_CPU && nCpu * SLAB_SIZE <= pages.nMeta
      modifies `mem, `slabs, `chains, `pos, `pending, `boot, pages`blocks, pages.meta, heads
      ensures Valid() && Started(St()) && live == map[]
    {
      for i := 0 to nCpu
        invariant Starting(i * SLAB_SIZE)
      {
        StartCpu(i);
      }
      FinishStart();
    }

    // pmm_init: the heap must have a page for every chain, and stay inside the Meta table.
    constructor (heapStart: int, heapEnd: int, cpus: int, mem0: Memory)
      requires heapStart > 0 && 0 < cpus <= MAX_CPU
      requires var g := RoundUp(heapStart + META_BYTES * META_SZ, PG);
        && g + cpus * SLAB_SIZE * PG <= heapEnd < g + META_SZ * PG <= WORD
        && (heapEnd / PG % MAX_PAGES == 0 || (heapEnd - g) / PG + MAX_PAGES - 1 <= META_SZ)
      ensures Valid() && nCpu == cpus && live == map[] && Started(St())
      ensures heapStart + META_BYTES * META_SZ <= pages.gStart && St().End() <= heapEnd < St().End() + PG
    {
      pages := new Pages(heapStart, heapEnd);
      nCpu := cpus;
      heads := new int[MAX_CPU, SLAB_SIZE];
      mem, slabs, chains, pos, live := mem0, map[], map[], map[], map[];
      boot, pending := 0, {};
      new;
      StartAll();
    }
  }
}
