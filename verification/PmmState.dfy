/** The state of the physical memory manager as a whole (kernel/src/pmm.c): page blocks,
    slab pages and their chains, and the set of live blocks they stand for. */
module PmmState {
  import opened Arith
  import opened Bits
  import opened ChainKeys
  import opened PmmPages
  import opened PmmSlab

  datatype Pos = Pos(key: Key, idx: int)

  datatype State = State(
    mem: Memory,
    gStart: int,
    nPages: int,                   // n_meta
    boot: int,                     // pages that S_init takes, the first ones
    stale: set<int>,               // entries of Meta from n_meta on that read as allocated
    blocks: map<int, Run>,         // live page blocks by index of their first page
    pending: set<int>,             // pages that add_slab has taken but not yet linked
    slabs: map<int, Slab>,         // slab pages by address
    chains: map<Key, seq<int>>,    // slab pages of each chain, in the order of next
    pos: map<int, Pos>,            // the place of each slab page in its chain
    live: map<int, int>)           // live blocks: address and length in bytes
  {
    function Addr(i: int): int { gStart + i * PG }
    function Index(a: int): int { (a - gStart) / PG }
    function Page0(): int { gStart / PG }
    function End(): int { gStart + nPages * PG }
  }

  // ------------------------------------------------------------- the managed pages

  // Candidates for a block of n pages: managed pages on a multiple of n pages of memory.
  ghost predicate Candidate(st: State, i: int, n: int)
    requires n > 0
  {
    0 <= i < st.nPages && (st.Page0() + i) % n == 0
  }

  // The last one.
  ghost function LastStart(st: State, n: int): int
    requires n > 0
  {
    RoundDown(st.Page0() + st.nPages, n) - st.Page0()
  }

  ghost predicate NoneStale(st: State, i: int, n: int) {
    forall j {:trigger j in st.stale} :: i <= j < i + n ==> j !in st.stale
  }

  // G_alloc compares only the first page of a candidate with n_meta. Only the last candidate can
  // run past the managed pages; it does not if they end on a multiple of n, and it is never
  // free if it starts in a page that S_init took, or in front of them all, or if Meta reads
  // as allocated for a page behind the end.
  ghost predicate FitsFor(st: State, n: int)
    requires n > 0
  {
    || (st.Page0() + st.nPages) % n == 0
    || LastStart(st, n) < st.boot
    || !NoneStale(st, LastStart(st, n), n)
  }

  ghost predicate Fits(st: State) {
    forall n {:trigger PageCount(n)} :: PageCount(n) && n > 0 ==> FitsFor(st, n)
  }

  // -------------------------------------------------------------- the invariant

  ghost predicate SlabInv(st: State, b: int)
    requires b in st.slabs
  {
    && SlabOk(st.mem, b, st.slabs[b]) && Tiled(b, st.slabs[b])
    && b == st.Addr(st.Index(b)) && st.Index(b) in st.blocks && st.blocks[st.Index(b)] == Run(1, true)
    && b in st.pos && st.pos[b].key in st.chains
    && 0 <= st.pos[b].idx < |st.chains[st.pos[b].key]| && st.chains[st.pos[b].key][st.pos[b].idx] == b
  }

  ghost predicate LinkInv(st: State, k: Key, i: int)
    requires k in st.chains && 0 <= i < |st.chains[k]|
  {
    var b := st.chains[k][i];
    && b in st.slabs && b in st.pos && st.pos[b] == Pos(k, i)
    && k.cls >= 0 && st.slabs[b].sz == ClassSize(k.cls)
    && Rd(st.mem, b + H_NEXT) == if i + 1 < |st.chains[k]| then st.chains[k][i + 1] else 0
  }

  ghost predicate BlockInv(st: State, i: int)
    requires i in st.blocks
  {
    && 0 <= i < st.nPages && st.blocks[i].n > 0
    && (st.blocks[i].isSlab ==> st.blocks[i].n == 1 && (i in st.pending || st.Addr(i) in st.slabs))
    && (Fits(st) ==> i + st.blocks[i].n <= st.nPages)
  }

  // A page between G_alloc and the link belongs to no chain yet.
  ghost predicate PendingInv(st: State, i: int) {
    i in st.blocks && st.blocks[i] == Run(1, true) && st.Addr(i) !in st.slabs
  }

  // The pages that S_init takes stay slab pages.
  ghost predicate BootInv(st: State, i: int) {
    i in st.blocks && st.blocks[i].isSlab
  }

  ghost predicate Apart(blocks: map<int, Run>, i: int, j: int)
    requires i in blocks && j in blocks
  {
    i + blocks[i].n <= j
  }

  // The live blocks: page blocks that are no slab, and live slots of slab pages.
  ghost predicate PageBlock(st: State, a: int, n: int) {
    && a == st.Addr(st.Index(a)) && st.Index(a) in st.blocks
    && !st.blocks[st.Index(a)].isSlab && n == st.blocks[st.Index(a)].n * PG
  }

  ghost predicate SlotBlock(st: State, a: int, n: int) {
    var b := RoundDown(a, PG);
    b in st.slabs && st.slabs[b].sz > 0 && LiveSlot(b, st.slabs[b], a) && n == st.slabs[b].sz
  }

  ghost predicate LiveBlock(st: State, a: int, n: int) {
    PageBlock(st, a, n) || SlotBlock(st, a, n)
  }

  ghost predicate Inv(st: State) {
    && st.gStart > 0 && st.gStart % PG == 0
    && (forall i {:trigger BlockInv(st, i)} :: i in st.blocks ==> BlockInv(st, i))
    && (forall i {:trigger PendingInv(st, i)} :: i in st.pending ==> PendingInv(st, i))
    && (forall i {:trigger BootInv(st, i)} :: 0 <= i < st.boot ==> BootInv(st, i))
    && (forall i, j {:trigger Apart(st.blocks, i, j)} ::
          i in st.blocks && j in st.blocks && i < j ==> Apart(st.blocks, i, j))
    && (forall b {:trigger SlabInv(st, b)} :: b in st.slabs ==> SlabInv(st, b))
    && (forall k, i {:trigger LinkInv(st, k, i)} :: k in st.chains && 0 <= i < |st.chains[k]| ==> LinkInv(st, k, i))
    && (forall a, n {:trigger LiveBlock(st, a, n)} :: LiveBlock(st, a, n) <==> a in st.live && st.live[a] == n)
  }

  // ------------------------------------------------------------------- safety

  ghost predicate Disjoint(a: int, m: int, c: int, n: int) { a + m <= c || c + n <= a }

  // The page of a slot, or the pages of a page block, as a block of the table.
  lemma PagesOf(st: State, a: int, n: int) returns (i: int)
    requires Inv(st) && LiveBlock(st, a, n)
    ensures i in st.blocks && BlockInv(st, i) && n > 0
    ensures st.Addr(i) <= a && a + n <= st.Addr(i) + st.blocks[i].n * PG
    ensures st.blocks[i].isSlab ==> st.Addr(i) == RoundDown(a, PG) && SlotBlock(st, a, n)
    ensures !st.blocks[i].isSlab ==> a == st.Addr(i) && PageBlock(st, a, n)
  {
    if PageBlock(st, a, n) {
      i := st.Index(a);
      assert BlockInv(st, i);
    } else {
      var b := RoundDown(a, PG);
      assert SlabInv(st, b);
      i := st.Index(b);
      assert BlockInv(st, i);
    }
  }

  // It is a slot or a page block, not both.
  lemma OneAllocator(st: State, a: int, n: int, i: int)
    requires Inv(st) && i in st.blocks
    requires if st.blocks[i].isSlab then st.Addr(i) == RoundDown(a, PG) && SlotBlock(st, a, n)
             else a == st.Addr(i) && PageBlock(st, a, n)
    ensures RoundDown(a, PG) == st.Addr(i) && st.Index(st.Addr(i)) == i
    ensures if st.blocks[i].isSlab then !PageBlock(st, a, n) else !SlotBlock(st, a, n)
  {
    var b := RoundDown(a, PG);
    if b in st.slabs { SlabFacts(st, b); }
  }

  // Live blocks are pairwise disjoint.
  lemma LiveBlocksDisjoint(st: State, a: int, m: int, c: int, n: int)
    requires Inv(st) && LiveBlock(st, a, m) && LiveBlock(st, c, n) && a != c
    ensures Disjoint(a, m, c, n)
  {
    var i := PagesOf(st, a, m);
    var j := PagesOf(st, c, n);
    BlocksApart(st, i, j);
    if i == j {
      var b, s := st.Addr(i), st.slabs[st.Addr(i)];
      if a < c { MultSub(c, a, s.sz); } else { MultSub(a, c, s.sz); }
    }
  }

  lemma SlabFacts(st: State, b: int)
    requires Inv(st) && b in st.slabs
    ensures SlabInv(st, b)
  {
    assert SlabInv(st, b);
  }

  lemma PendingFacts(st: State, i: int)
    requires Inv(st) && i in st.pending
    ensures PendingInv(st, i) && BlockInv(st, i) && st.Addr(i) > 0 && st.Addr(i) % PG == 0
  {
    assert PendingInv(st, i) && BlockInv(st, i);
  }

  lemma BootFacts(st: State, i: int)
    requires Inv(st) && 0 <= i < st.boot
    ensures BootInv(st, i)
  {
    assert BootInv(st, i);
  }

  lemma LiveFacts(st: State, a: int)
    requires Inv(st) && a in st.live
    ensures LiveBlock(st, a, st.live[a])
  {
    assert LiveBlock(st, a, st.live[a]);
  }

  // The parts of the invariant that depend on the table and the set of slab pages only.
  ghost predicate TableInv(st: State) {
    && (forall i {:trigger BlockInv(st, i)} :: i in st.blocks ==> BlockInv(st, i))
    && (forall i {:trigger PendingInv(st, i)} :: i in st.pending ==> PendingInv(st, i))
    && (forall i {:trigger BootInv(st, i)} :: 0 <= i < st.boot ==> BootInv(st, i))
    && (forall i, j {:trigger Apart(st.blocks, i, j)} ::
          i in st.blocks && j in st.blocks && i < j ==> Apart(st.blocks, i, j))
  }

  lemma SameTable(st: State, st': State)
    requires Inv(st) && st' == st.(mem := st'.mem, slabs := st'.slabs, live := st'.live)
    requires st'.slabs.Keys == st.slabs.Keys
    ensures TableInv(st') && (Fits(st') <==> Fits(st))
  {
    assert forall b :: b in st'.slabs <==> b in st.slabs.Keys;
    forall i | i in st'.blocks ensures BlockInv(st', i) { assert BlockInv(st, i); }
    forall i | i in st'.pending ensures PendingInv(st', i) { PendingFacts(st, i); }
    forall i | 0 <= i < st'.boot ensures BootInv(st', i) { BootFacts(st, i); }
    forall i, j | i in st'.blocks && j in st'.blocks && i < j ensures Apart(st'.blocks, i, j) { BlocksApart(st, i, j); }
  }

  // A live block lies behind the Meta table and, if all requests fit, in front of the end of the
  // managed pages ...
  lemma LiveBlockInside(st: State, a: int, n: int)
    requires Inv(st) && LiveBlock(st, a, n)
    ensures st.gStart <= a && (Fits(st) ==> a + n <= st.End())
  {
    var i := PagesOf(st, a, n);
  }

  // ... and clear of every slab header and free node.
  lemma LiveBlockClear(st: State, a: int, n: int, b: int)
    requires Inv(st) && LiveBlock(st, a, n) && b in st.slabs
    ensures Disjoint(a, n, b, H_PAYLOAD)
    ensures forall i :: 0 <= i < |st.slabs[b].free| ==>
      Disjoint(a, n, st.slabs[b].free[i].addr, st.slabs[b].free[i].size)
  {
    var i := PagesOf(st, a, n);
    var s := st.slabs[b];
    assert SlabInv(st, b);
    var j := st.Index(b);
    BlocksApart(st, i, j);
    forall k | 0 <= k < |s.free|
      ensures Disjoint(a, n, s.free[k].addr, s.free[k].size)
    {
      NodeAt(b, s, k);
      if i == j { LiveApart(b, s, a, k); }
    }
  }

  // -------------------------------------------------------------- the transitions

  // Every block that is live in both states keeps its bytes.
  ghost predicate LiveBytesKept(st: State, st': State) {
    forall a {:trigger a in st.live} ::
      a in st.live && a in st'.live ==> Untouched(st.mem, st'.mem, a, st.live[a])
  }

  lemma KeptTransitive(st: State, st1: State, st2: State)
    requires LiveBytesKept(st, st1) && LiveBytesKept(st1, st2)
    requires forall a :: a in st.live && a in st2.live ==> a in st1.live && st1.live[a] == st.live[a]
    ensures LiveBytesKept(st, st2)
  {
    forall a | a in st.live && a in st2.live
      ensures Untouched(st.mem, st2.mem, a, st.live[a])
    {
      assert Untouched(st.mem, st1.mem, a, st.live[a]) && Untouched(st1.mem, st2.mem, a, st1.live[a]);
    }
  }

  // slab_alloc on slab b
  ghost function SlabAllocated(st: State, b: int): State
    requires b in st.slabs && st.slabs[b].free != []
  {
    var s := st.slabs[b];
    st.(mem := MemAfterAlloc(st.mem, b, s), slabs := st.slabs[b := AfterAlloc(s)],
        live := st.live[s.free[0].addr := s.sz])
  }

  // S_free of the live slot p
  ghost function SlabFreed(st: State, b: int, p: int, k: int): State
    requires b in st.slabs && 0 <= k <= |st.slabs[b].free|
  {
    var s := st.slabs[b];
    st.(mem := MemAfterFree(st.mem, b, s, p, k), slabs := st.slabs[b := AfterFree(s, p, k)], live := st.live - {p})
  }

  ghost predicate SlotFreed(st: State, st': State, p: int, k: int) {
    var b := RoundDown(p, PG);
    b in st.slabs && InsertAt(st.slabs[b].free, p, k) && st' == SlabFreed(st, b, p, k)
  }

  // G_alloc for a client
  ghost function PagesAllocated(st: State, i: int, n: int): State {
    st.(blocks := st.blocks[i := Run(n, false)], live := st.live[st.Addr(i) := n * PG])
  }

  // G_free
  ghost function PagesFreed(st: State, i: int): State {
    st.(blocks := st.blocks - {i}, live := st.live - {st.Addr(i)})
  }

  ghost function Chain(st: State, k: Key): seq<int> {
    if k in st.chains then st.chains[k] else []
  }

  // Linking page b behind the last slab page of a chain.
  ghost function Linked(mem: Memory, chain: seq<int>, b: int): Memory {
    if chain == [] then mem else mem[chain[|chain| - 1] + H_NEXT := b]
  }

  // add_slab's call of G_alloc: page i is marked as a slab page, G_lock is released ...
  ghost function PageTaken(st: State, i: int): State {
    st.(blocks := st.blocks[i := Run(1, true)], pending := st.pending + {i})
  }

  // ... and then, whatever others did meanwhile, page i is initialised and becomes the last slab
  // page of chain k. S_init does the same with an empty chain.
  ghost function SlabAdded(st: State, i: int, k: Key): State
    requires k.cls >= 0
  {
    var b, sz, chain := st.Addr(i), ClassSize(k.cls), Chain(st, k);
    st.(mem := Linked(MemAfterInit(st.mem, b, sz), chain, b),
        pending := st.pending - {i},
        slabs := st.slabs[b := FreshSlab(b, sz)],
        chains := st.chains[k := chain + [b]],
        pos := st.pos[b := Pos(k, |chain|)])
  }

  // A change confined to the page of slab b leaves every other slab page as it is.
  lemma OtherSlab(st: State, mem': Memory, b: int, c: int)
    requires Inv(st) && b % PG == 0 && c in st.slabs && c != b && OnlyPage(st.mem, mem', b)
    ensures SlabOk(mem', c, st.slabs[c]) && Rd(mem', c + H_NEXT) == Rd(st.mem, c + H_NEXT)
  {
    SlabFacts(st, c);
    Elsewhere(st.mem, mem', b, c, st.slabs[c]);
  }

  lemma Elsewhere(mem: Memory, mem': Memory, b: int, c: int, s: Slab)
    requires SlabOk(mem, c, s) && b % PG == 0 && b != c && OnlyPage(mem, mem', b)
    ensures SlabOk(mem', c, s) && Rd(mem', c + H_NEXT) == Rd(mem, c + H_NEXT)
  {
    assert b + PG <= c || c + PG <= b;
    SlabOkStable(mem, mem', c, s);
  }

  // A change inside slab page b that keeps its header's next field and that takes or frees
  // the slot p only.
  ghost predicate PageChange(st: State, b: int, mem': Memory, s': Slab, p: int) {
    && b in st.slabs && OnlyPage(st.mem, mem', b)
    && Rd(mem', b + H_NEXT) == Rd(st.mem, b + H_NEXT)
    && SlabOk(mem', b, s') && Tiled(b, s') && s'.sz == st.slabs[b].sz
    && b + First(s'.sz) <= p < b + PG
    && forall q {:trigger LiveSlot(b, s', q)} :: q != p ==> (LiveSlot(b, s', q) <==> LiveSlot(b, st.slabs[b], q))
  }

  lemma SlabChangedPages(st: State, b: int, mem': Memory, s': Slab, p: int, live': map<int, int>)
    requires Inv(st) && PageChange(st, b, mem', s', p)
    ensures var st' := st.(mem := mem', slabs := st.slabs[b := s'], live := live');
      forall c {:trigger SlabInv(st', c)} :: c in st'.slabs ==> SlabInv(st', c)
  {
    var st' := st.(mem := mem', slabs := st.slabs[b := s'], live := live');
    forall c | c in st'.slabs
      ensures SlabInv(st', c)
    {
      SlabFacts(st, c);
      SlabFacts(st, b);
      if c != b { OtherSlab(st, mem', b, c); }
    }
  }

  lemma SlabChangedLinks(st: State, b: int, mem': Memory, s': Slab, p: int, live': map<int, int>)
    requires Inv(st) && PageChange(st, b, mem', s', p)
    ensures var st' := st.(mem := mem', slabs := st.slabs[b := s'], live := live');
      forall k, i {:trigger LinkInv(st', k, i)} :: k in st'.chains && 0 <= i < |st'.chains[k]| ==> LinkInv(st', k, i)
  {
    var st' := st.(mem := mem', slabs := st.slabs[b := s'], live := live');
    SlabFacts(st, b);
    forall k, i | k in st'.chains && 0 <= i < |st'.chains[k]|
      ensures LinkInv(st', k, i)
    {
      assert LinkInv(st, k, i);
      if st.chains[k][i] != b { OtherSlab(st, mem', b, st.chains[k][i]); }
    }
  }

  lemma SlabChanged(st: State, b: int, mem': Memory, s': Slab, p: int, live': map<int, int>)
    requires Inv(st) && PageChange(st, b, mem', s', p)
    requires live' == if LiveSlot(b, s', p) then st.live[p := s'.sz] else st.live - {p}
    ensures Inv(st.(mem := mem', slabs := st.slabs[b := s'], live := live'))
  {
    var st' := st.(mem := mem', slabs := st.slabs[b := s'], live := live');
    assert st'.slabs.Keys == st.slabs.Keys;
    SameTable(st, st');
    SlabChangedPages(st, b, mem', s', p, live');
    SlabChangedLinks(st, b, mem', s', p, live');
    forall a, n
      ensures LiveBlock(st', a, n) <==> a in st'.live && st'.live[a] == n
    {
      SlabChangedLive(st, b, mem', s', p, live', a, n);
    }
  }

  // Slots other than p, in page b or not, and page blocks stay as they were ...
  lemma SlabChangedOther(st: State, st': State, b: int, s': Slab, p: int, a: int, n: int)
    requires Inv(st) && b in st.slabs && st' == st.(mem := st'.mem, slabs := st.slabs[b := s'], live := st'.live)
    requires s'.sz == st.slabs[b].sz > 0 && a != p
    requires LiveSlot(b, s', a) <==> LiveSlot(b, st.slabs[b], a)
    ensures LiveBlock(st', a, n) <==> LiveBlock(st, a, n)
  {
    assert PageBlock(st', a, n) <==> PageBlock(st, a, n);
    var c := RoundDown(a, PG);
    if c == b {
      assert SlotBlock(st', a, n) <==> SlotBlock(st, a, n);
    } else {
      assert st'.slabs.Keys == st.slabs.Keys;
      assert c in st.slabs ==> st'.slabs[c] == st.slabs[c];
    }
  }

  // ... and p is live exactly if it is a live slot.
  lemma SlabChangedSlot(st: State, st': State, b: int, s': Slab, p: int, n: int)
    requires Inv(st) && b in st.slabs && st' == st.(mem := st'.mem, slabs := st.slabs[b := s'], live := st'.live)
    requires s'.sz == st.slabs[b].sz > 0 && b <= p < b + PG
    ensures LiveBlock(st', p, n) <==> LiveSlot(b, s', p) && n == s'.sz
  {
    NoPageBlockInSlab(st, b, p, n);
    SlabFacts(st, b);
    assert PageBlock(st', p, n) <==> PageBlock(st, p, n);
  }

  lemma SlabChangedLive(st: State, b: int, mem': Memory, s': Slab, p: int, live': map<int, int>, a: int, n: int)
    requires Inv(st) && PageChange(st, b, mem', s', p)
    requires live' == if LiveSlot(b, s', p) then st.live[p := s'.sz] else st.live - {p}
    ensures LiveBlock(st.(mem := mem', slabs := st.slabs[b := s'], live := live'), a, n)
      <==> a in live' && live'[a] == n
  {
    var st' := st.(mem := mem', slabs := st.slabs[b := s'], live := live');
    SlabFacts(st, b);
    if a == p {
      SlabChangedSlot(st, st', b, s', p, n);
    } else {
      assert LiveSlot(b, s', a) <==> LiveSlot(b, st.slabs[b], a);
      SlabChangedOther(st, st', b, s', p, a, n);
      assert LiveBlock(st, a, n) <==> a in st.live && st.live[a] == n;
    }
  }

  lemma NoPageBlockInSlab(st: State, b: int, a: int, n: int)
    requires Inv(st) && b in st.slabs && b <= a < b + PG
    ensures !PageBlock(st, a, n) && RoundDown(a, PG) == b
  {
    assert SlabInv(st, b);
    if st.Index(a) in st.blocks { BlocksApart(st, st.Index(a), st.Index(b)); }
  }

  lemma BlocksApart(st: State, i: int, j: int)
    requires Inv(st) && i in st.blocks && j in st.blocks
    ensures i < j ==> Apart(st.blocks, i, j)
    ensures j < i ==> Apart(st.blocks, j, i)
  {
    if i < j { assert Apart(st.blocks, i, j); }
    if j < i { assert Apart(st.blocks, j, i); }
  }

  lemma SlabAllocInv(st: State, b: int)
    requires Inv(st) && b in st.slabs && st.slabs[b].free != []
    ensures var p := st.slabs[b].free[0].addr;
      && p > 0 && p !in st.live && st.slabs[b].sz > 0 && Mult(p, st.slabs[b].sz)
      && Inv(SlabAllocated(st, b)) && LiveBytesKept(st, SlabAllocated(st, b))
  {
    var s, st' := st.slabs[b], SlabAllocated(st, b);
    var p := s.free[0].addr;
    assert SlabInv(st, b);
    AllocKeepsSlab(st.mem, b, s);
    AllocKeepsTiling(b, s);
    AllocWrites(st.mem, b, s);
    AllocTakesOne(b, s, p);
    forall q | q != p
      ensures LiveSlot(b, AfterAlloc(s), q) <==> LiveSlot(b, s, q)
    {
      AllocTakesOne(b, s, q);
    }
    SlabChanged(st, b, st'.mem, AfterAlloc(s), p, st'.live);
    if p in st.live {
      assert LiveBlock(st, p, st.live[p]);
      NoPageBlockInSlab(st, b, p, st.live[p]);
    }
    forall a | a in st.live
      ensures Untouched(st.mem, st'.mem, a, st.live[a])
    {
      KeptOutside(st, st'.mem, b, a);
    }
  }

  // Bytes of a live block are kept if they are kept for the live slots of page b and for
  // everything outside that page.
  lemma KeptOutside(st: State, mem': Memory, b: int, a: int)
    requires Inv(st) && b in st.slabs && a in st.live && OnlyPage(st.mem, mem', b)
    requires st.slabs[b].sz > 0
    requires LiveSlot(b, st.slabs[b], a) ==> Untouched(st.mem, mem', a, st.slabs[b].sz)
    ensures Untouched(st.mem, mem', a, st.live[a])
  {
    assert LiveBlock(st, a, st.live[a]);
    var i := PagesOf(st, a, st.live[a]);
    assert SlabInv(st, b);
    BlocksApart(st, i, st.Index(b));
  }

  lemma SlabFreeInv(st: State, p: int, k: int)
    requires Inv(st) && p in st.live && SlotBlock(st, p, st.live[p])
    requires InsertAt(st.slabs[RoundDown(p, PG)].free, p, k)
    ensures var st' := SlabFreed(st, RoundDown(p, PG), p, k);
      Inv(st') && LiveBytesKept(st, st')
  {
    var b := RoundDown(p, PG);
    var s, st' := st.slabs[b], SlabFreed(st, b, p, k);
    assert SlabInv(st, b);
    FreeKeepsSlab(st.mem, b, s, p, k);
    FreeKeepsTiling(b, s, p, k);
    FreeWrites(st.mem, b, s, p, k);
    forall q ensures LiveSlot(b, AfterFree(s, p, k), q) <==> LiveSlot(b, s, q) && q != p {
      FreeReleasesOne(b, s, p, k, q);
    }
    SlabChanged(st, b, st'.mem, AfterFree(s, p, k), p, st'.live);
    forall a | a in st.live && a in st'.live
      ensures Untouched(st.mem, st'.mem, a, st.live[a])
    {
      KeptOutside(st, st'.mem, b, a);
    }
  }

  ghost predicate NewRun(blocks: map<int, Run>, i: int, n: int) {
    i >= 0 && n > 0 && i !in blocks && forall j :: j in blocks ==> j + blocks[j].n <= i || i + n <= j
  }

  // A run that G_alloc may choose, and the one that it does choose: the lowest.
  ghost predicate Available(st: State, i: int, n: int) {
    n > 0 && PageCount(n) && Candidate(st, i, n) && NewRun(st.blocks, i, n) && NoneStale(st, i, n)
  }

  ghost predicate NoRoom(st: State, n: int) { forall i {:trigger Available(st, i, n)} :: !Available(st, i, n) }

  // While exactly the first c pages are taken, one by one, page c is the next.
  lemma NextPage(st: State, c: int)
    requires 0 <= c < st.nPages && PageCount(1) && forall j {:trigger j in st.stale} :: j in st.stale ==> st.nPages <= j
    requires forall i {:trigger i in st.blocks} :: i in st.blocks <==> 0 <= i < c
    requires forall i {:trigger st.blocks[i]} :: i in st.blocks ==> st.blocks[i].n == 1
    ensures Available(st, c, 1) && forall i :: FirstFit(st, i, 1) ==> i == c
  {
    assert Available(st, c, 1);
    forall i | FirstFit(st, i, 1)
      ensures i == c
    {}
  }

  ghost predicate FirstFit(st: State, i: int, n: int) {
    Available(st, i, n) && forall q {:trigger Available(st, q, n)} :: q < i ==> !Available(st, q, n)
  }

  // The same in bytes: len bytes at a multiple of len that start in the managed pages and meet no
  // block of the table and no page whose entry is stale.
  ghost predicate RoomAt(st: State, a: int, len: int)
    requires len > 0
  {
    && st.gStart <= a < st.End() && a % len == 0
    && (forall i {:trigger st.blocks[i]} :: i in st.blocks ==> Disjoint(a, len, st.Addr(i), st.blocks[i].n * PG))
    && (forall j {:trigger j in st.stale} :: j in st.stale ==> Disjoint(a, len, st.Addr(j), PG))
  }

  lemma AvailableIsRoom(st: State, i: int, n: int)
    requires Inv(st) && Available(st, i, n)
    ensures RoomAt(st, st.Addr(i), n * PG)
  {
    PagesAligned(st.Page0() + i, n);
    assert st.Addr(i) == (st.Page0() + i) * PG;
    forall j | j in st.stale
      ensures Disjoint(st.Addr(i), n * PG, st.Addr(j), PG)
    {
      assert !(i <= j < i + n);
    }
  }

  lemma RoomIsAvailable(st: State, a: int, n: int)
    requires Inv(st) && n > 0 && PageCount(n) && RoomAt(st, a, n * PG)
    ensures a == st.Addr(st.Index(a)) && Available(st, st.Index(a), n)
  {
    AlignedPages(a, n);
    var i := st.Index(a);
    assert a == st.Addr(i) && st.Page0() + i == a / PG;
    forall j | j in st.blocks
      ensures st.blocks[j].n > 0 && (j + st.blocks[j].n <= i || i + n <= j)
    {
      assert BlockInv(st, j);
      assert Disjoint(a, n * PG, st.Addr(j), st.blocks[j].n * PG);
    }
    forall j | i <= j < i + n
      ensures j !in st.stale
    {
      assert !Disjoint(a, n * PG, st.Addr(j), PG);
    }
  }

  lemma NoRoomMeans(st: State, n: int)
    requires Inv(st) && n > 0 && PageCount(n)
    ensures NoRoom(st, n) <==> forall a {:trigger RoomAt(st, a, n * PG)} :: !RoomAt(st, a, n * PG)
  {
    forall a | RoomAt(st, a, n * PG)
      ensures !NoRoom(st, n)
    {
      RoomIsAvailable(st, a, n);
    }
    forall i | Available(st, i, n)
      ensures RoomAt(st, st.Addr(i), n * PG)
    {
      AvailableIsRoom(st, i, n);
    }
  }

  // The run that G_alloc chooses is the one with the lowest address.
  lemma FirstFitMeans(st: State, i: int, n: int)
    requires Inv(st) && FirstFit(st, i, n)
    ensures RoomAt(st, st.Addr(i), n * PG)
    ensures forall a {:trigger RoomAt(st, a, n * PG)} :: a < st.Addr(i) ==> !RoomAt(st, a, n * PG)
  {
    AvailableIsRoom(st, i, n);
    forall a | a < st.Addr(i)
      ensures !RoomAt(st, a, n * PG)
    {
      if RoomAt(st, a, n * PG) { RoomIsAvailable(st, a, n); }
    }
  }

  lemma LastStartIs(st: State, n: int)
    requires n > 0 && st.gStart >= 0 && st.nPages >= 0
    ensures (st.Page0() + LastStart(st, n)) % n == 0 && LastStart(st, n) <= st.nPages < LastStart(st, n) + n
    ensures (st.Page0() + st.nPages) % n != 0 ==> LastStart(st, n) < st.nPages
    ensures forall i :: Candidate(st, i, n) ==> i <= LastStart(st, n)
  {
    var x := st.Page0() + st.nPages;
    RoundDownMultiple(x, n);
    forall i | Candidate(st, i, n)
      ensures i <= LastStart(st, n)
    {
      if i > LastStart(st, n) { MultipleGap(RoundDown(x, n), st.Page0() + i, n); }
    }
  }

  // If the requests for n pages fit, no run for them goes past the managed pages.
  lemma AvailableFits(st: State, i: int, n: int)
    requires Inv(st) && Available(st, i, n) && FitsFor(st, n)
    ensures i + n <= st.nPages
  {
    LastStartIs(st, n);
    if (st.Page0() + st.nPages) % n == 0 {
      MultipleGap(st.Page0() + i, st.Page0() + st.nPages, n);
    } else {
      if i == LastStart(st, n) { BootFacts(st, i); }
      MultipleGap(st.Page0() + i, st.Page0() + LastStart(st, n), n);
    }
  }

  // Marking page i, or pages from i on, leaves every chain and slab page as it is.
  lemma MarkedKeeps(st: State, st': State)
    requires Inv(st) && st' == st.(blocks := st'.blocks, live := st'.live, pending := st'.pending)
    requires forall i :: i in st.blocks ==> i in st'.blocks && st'.blocks[i] == st.blocks[i]
    ensures forall b {:trigger SlabInv(st', b)} :: b in st'.slabs ==> SlabInv(st', b)
    ensures forall k, j {:trigger LinkInv(st', k, j)} ::
      k in st'.chains && 0 <= j < |st'.chains[k]| ==> LinkInv(st', k, j)
    ensures forall i {:trigger BootInv(st', i)} :: 0 <= i < st'.boot ==> BootInv(st', i)
  {
    forall b | b in st'.slabs ensures SlabInv(st', b) { assert SlabInv(st, b); }
    forall k, j | k in st.chains && 0 <= j < |st.chains[k]| ensures LinkInv(st', k, j) { assert LinkInv(st, k, j); }
    forall i | 0 <= i < st'.boot ensures BootInv(st', i) { assert BootInv(st, i); }
  }

  // The new run is apart from all others.
  lemma MarkedApart(st: State, st': State, i: int, r: Run)
    requires Inv(st) && NewRun(st.blocks, i, r.n) && st'.blocks == st.blocks[i := r]
    ensures forall j, k {:trigger Apart(st'.blocks, j, k)} ::
      j in st'.blocks && k in st'.blocks && j < k ==> Apart(st'.blocks, j, k)
  {
    forall j, k | j in st'.blocks && k in st'.blocks && j < k
      ensures Apart(st'.blocks, j, k)
    {
      if j != i && k != i { BlocksApart(st, j, k); } else { assert BlockInv(st, if j == i then k else j); }
    }
  }

  lemma NewPageBlock(st: State, i: int, n: int, a: int, m: int)
    requires Inv(st) && NewRun(st.blocks, i, n)
    ensures var st' := PagesAllocated(st, i, n);
      LiveBlock(st', a, m) <==> if a == st.Addr(i) then m == n * PG else LiveBlock(st, a, m)
  {
    var st', a0 := PagesAllocated(st, i, n), st.Addr(i);
    assert SlotBlock(st', a, m) <==> SlotBlock(st, a, m);
    if a == a0 {
      var b := RoundDown(a0, PG);
      if b in st.slabs { SlabFacts(st, b); }
      assert !SlotBlock(st, a0, m);
    } else {
      assert PageBlock(st', a, m) <==> PageBlock(st, a, m);
    }
  }

  lemma NotLiveYet(st: State, i: int, n: int)
    requires Inv(st) && NewRun(st.blocks, i, n)
    ensures st.Addr(i) !in st.live
  {
    var b := RoundDown(st.Addr(i), PG);
    if b in st.slabs { SlabFacts(st, b); }
    if st.Addr(i) in st.live { LiveFacts(st, st.Addr(i)); }
  }

  lemma PagesAllocInv(st: State, i: int, n: int)
    requires Inv(st) && Available(st, i, n)
    ensures st.Addr(i) !in st.live && Inv(PagesAllocated(st, i, n))
    ensures Fits(st) ==> st.Addr(i) + n * PG <= st.End()
  {
    var st', a0 := PagesAllocated(st, i, n), st.Addr(i);
    if Fits(st) { AvailableFits(st, i, n); }
    assert Fits(st') <==> Fits(st);
    NotLiveYet(st, i, n);
    MarkedKeeps(st, st');
    MarkedApart(st, st', i, Run(n, false));
    forall j | j in st'.blocks ensures BlockInv(st', j) { if j != i { assert BlockInv(st, j); } }
    forall j | j in st'.pending ensures PendingInv(st', j) { assert PendingInv(st, j); }
    forall a, m
      ensures LiveBlock(st', a, m) <==> a in st'.live && st'.live[a] == m
    {
      assert LiveBlock(st, a, m) <==> a in st.live && st.live[a] == m;
      NewPageBlock(st, i, n, a, m);
    }
  }

  lemma StillPending(st: State, i: int, j: int)
    requires Inv(st) && Available(st, i, 1) && j in PageTaken(st, i).pending
    ensures PendingInv(PageTaken(st, i), j)
  {
    if j != i { assert PendingInv(st, j); } else if st.Addr(i) in st.slabs { SlabFacts(st, st.Addr(i)); }
  }

  lemma NoNewBlock(st: State, i: int, a: int, m: int)
    requires Inv(st) && Available(st, i, 1)
    ensures LiveBlock(PageTaken(st, i), a, m) <==> LiveBlock(st, a, m)
  {
    assert PageBlock(PageTaken(st, i), a, m) <==> PageBlock(st, a, m);
  }

  // Taking a page for a slab makes no block live.
  lemma PageTakenInv(st: State, i: int)
    requires Inv(st) && Available(st, i, 1)
    ensures Inv(PageTaken(st, i)) && LiveBytesKept(st, PageTaken(st, i))
  {
    var st' := PageTaken(st, i);
    assert Fits(st') <==> Fits(st);
    MarkedKeeps(st, st');
    MarkedApart(st, st', i, Run(1, true));
    forall j | j in st'.blocks ensures BlockInv(st', j) { if j != i { assert BlockInv(st, j); } }
    forall j | j in st'.pending ensures PendingInv(st', j) { StillPending(st, i, j); }
    forall a, m
      ensures LiveBlock(st', a, m) <==> a in st'.live && st'.live[a] == m
    {
      assert LiveBlock(st, a, m) <==> a in st.live && st.live[a] == m;
      NoNewBlock(st, i, a, m);
    }
  }

  lemma LostPageBlock(st: State, i: int, a: int, m: int)
    requires Inv(st) && i in st.blocks && !st.blocks[i].isSlab
    ensures LiveBlock(PagesFreed(st, i), a, m) <==> a != st.Addr(i) && LiveBlock(st, a, m)
  {
    var st', a0 := PagesFreed(st, i), st.Addr(i);
    assert SlotBlock(st', a, m) <==> SlotBlock(st, a, m);
    if a == a0 {
      var b := RoundDown(a0, PG);
      if b in st.slabs { SlabFacts(st, b); }
      assert !SlotBlock(st, a0, m);
    } else {
      assert PageBlock(st', a, m) <==> PageBlock(st, a, m);
    }
  }

  lemma FreedTable(st: State, i: int)
    requires Inv(st) && i in st.blocks && !st.blocks[i].isSlab
    ensures TableInv(PagesFreed(st, i))
  {
    var st' := PagesFreed(st, i);
    assert Fits(st') <==> Fits(st);
    forall j | j in st'.blocks ensures BlockInv(st', j) { assert BlockInv(st, j); }
    forall j | j in st'.pending ensures PendingInv(st', j) { PendingFacts(st, j); }
    forall j | 0 <= j < st'.boot ensures BootInv(st', j) { BootFacts(st, j); }
    forall j, k | j in st'.blocks && k in st'.blocks && j < k ensures Apart(st'.blocks, j, k) { BlocksApart(st, j, k); }
  }

  lemma PagesFreeInv(st: State, i: int)
    requires Inv(st) && i in st.blocks && !st.blocks[i].isSlab
    ensures st.Addr(i) in st.live && st.live[st.Addr(i)] == st.blocks[i].n * PG && Inv(PagesFreed(st, i))
  {
    var st', a0 := PagesFreed(st, i), st.Addr(i);
    assert PageBlock(st, a0, st.blocks[i].n * PG);
    assert LiveBlock(st, a0, st.blocks[i].n * PG);
    FreedTable(st, i);
    forall b | b in st'.slabs ensures SlabInv(st', b) { SlabFacts(st, b); }
    forall k, j | k in st.chains && 0 <= j < |st.chains[k]| ensures LinkInv(st', k, j) { assert LinkInv(st, k, j); }
    forall a, m
      ensures LiveBlock(st', a, m) <==> a in st'.live && st'.live[a] == m
    {
      assert LiveBlock(st, a, m) <==> a in st.live && st.live[a] == m;
      LostPageBlock(st, i, a, m);
    }
  }

  // A fresh slab page at the end of a chain adds no live block and moves none.
  lemma SlabAddInv(st: State, i: int, k: Key)
    requires Inv(st) && i in st.pending
    requires 0 <= k.cls < SLAB_SIZE
    ensures Inv(SlabAdded(st, i, k)) && LiveBytesKept(st, SlabAdded(st, i, k))
  {
    var st' := SlabAdded(st, i, k);
    forall c | c in st'.slabs
      ensures SlabInv(st', c)
    {
      SlabAddSlabs(st, i, k, c);
    }
    assert PendingInv(st, i) && (Fits(st') <==> Fits(st));
    SlabAddBlocks(st, i, k);
    forall k', j | k' in st'.chains && 0 <= j < |st'.chains[k']|
      ensures LinkInv(st', k', j)
    {
      SlabAddLinks(st, i, k, k', j);
    }
    forall a, m
      ensures LiveBlock(st', a, m) <==> a in st'.live && st'.live[a] == m
    {
      assert LiveBlock(st, a, m) <==> a in st.live && st.live[a] == m;
      SlabAddLive(st, i, k, a, m);
    }
    forall a | a in st.live
      ensures Untouched(st.mem, st'.mem, a, st.live[a])
    {
      assert LiveBlock(st, a, st.live[a]);
      SlabAddKeeps(st, i, k, a);
    }
  }

  lemma SlabAddBlock(st: State, i: int, k: Key, j: int)
    requires Inv(st) && i in st.pending && 0 <= k.cls < SLAB_SIZE && j in SlabAdded(st, i, k).blocks
    ensures BlockInv(SlabAdded(st, i, k), j)
  {
    assert BlockInv(st, j);
    assert Fits(SlabAdded(st, i, k)) <==> Fits(st);
  }

  lemma SlabAddBlocks(st: State, i: int, k: Key)
    requires Inv(st) && i in st.pending && 0 <= k.cls < SLAB_SIZE
    ensures var st' := SlabAdded(st, i, k);
      && (forall j {:trigger BlockInv(st', j)} :: j in st'.blocks ==> BlockInv(st', j))
      && (forall j {:trigger PendingInv(st', j)} :: j in st'.pending ==> PendingInv(st', j))
      && (forall j {:trigger BootInv(st', j)} :: 0 <= j < st'.boot ==> BootInv(st', j))
      && (forall j, m {:trigger Apart(st'.blocks, j, m)} ::
            j in st'.blocks && m in st'.blocks && j < m ==> Apart(st'.blocks, j, m))
  {
    var st' := SlabAdded(st, i, k);
    forall j | j in st'.blocks ensures BlockInv(st', j) { SlabAddBlock(st, i, k, j); }
    forall j | j in st'.pending ensures PendingInv(st', j) { assert PendingInv(st, j); }
    forall j | 0 <= j < st'.boot ensures BootInv(st', j) { assert BootInv(st, j); }
    forall j, m | j in st'.blocks && m in st'.blocks && j < m
      ensures Apart(st'.blocks, j, m)
    {
      assert Apart(st.blocks, j, m);
    }
  }

  // Outside the new page only the next field of the chain's last page is written.
  lemma SlabAddWrites(st: State, i: int, k: Key, w: int)
    requires Inv(st) && i in st.pending
    requires 0 <= k.cls < SLAB_SIZE
    requires w < st.Addr(i) || st.Addr(i) + PG < w + 8
    ensures var chain := Chain(st, k);
      Rd(SlabAdded(st, i, k).mem, w)
      == if chain != [] && w == chain[|chain| - 1] + H_NEXT then st.Addr(i) else Rd(st.mem, w)
  {
    PendingFacts(st, i);
    InitGivesSlab(st.mem, st.Addr(i), ClassSize(k.cls));
  }

  // The page that gets linked to the new one.
  lemma LastOfChain(st: State, i: int, k: Key)
    requires Inv(st) && i in st.pending && Chain(st, k) != []
    ensures var chain := Chain(st, k);
      var last := chain[|chain| - 1];
      && last in st.slabs && last % PG == 0 && last != st.Addr(i)
      && last in st.pos && st.pos[last] == Pos(k, |chain| - 1)
      && (last + PG <= st.Addr(i) || st.Addr(i) + PG <= last)
  {
    assert LinkInv(st, k, |st.chains[k]| - 1);
    AwayFromPage(st, i, st.chains[k][|st.chains[k]| - 1]);
  }

  lemma SlabAddSlabs(st: State, i: int, k: Key, c: int)
    requires Inv(st) && i in st.pending
    requires 0 <= k.cls < SLAB_SIZE
    requires c in SlabAdded(st, i, k).slabs
    ensures SlabInv(SlabAdded(st, i, k), c)
  {
    if c == st.Addr(i) {
      SlabAddNew(st, i, k);
    } else {
      SlabFacts(st, c);
      SlabAddKeepsOk(st, i, k, c);
    }
  }

  lemma SlabAddKeepsOk(st: State, i: int, k: Key, c: int)
    requires Inv(st) && i in st.pending && 0 <= k.cls < SLAB_SIZE && c in st.slabs
    ensures c != st.Addr(i) && SlabOk(SlabAdded(st, i, k).mem, c, st.slabs[c])
  {
    var st' := SlabAdded(st, i, k);
    SlabFacts(st, c);
    AwayFromPage(st, i, c);
    if Chain(st, k) != [] { LastOfChain(st, i, k); }
    forall w | c <= w < c + PG && Rd(st'.mem, w) != Rd(st.mem, w)
      ensures w == c + H_NEXT
    {
      SlabAddWrites(st, i, k, w);
    }
    SlabOkStable(st.mem, st'.mem, c, st.slabs[c]);
  }

  // No existing slab page is the new page i.
  lemma AwayFromPage(st: State, i: int, c: int)
    requires Inv(st) && i in st.pending && c in st.slabs
    ensures c != st.Addr(i) && c % PG == 0 && (c + PG <= st.Addr(i) || st.Addr(i) + PG <= c)
  {
    SlabFacts(st, c);
    PendingFacts(st, i);
    BlocksApart(st, i, st.Index(c));
  }

  lemma SlabAddNew(st: State, i: int, k: Key)
    requires Inv(st) && i in st.pending
    requires 0 <= k.cls < SLAB_SIZE
    ensures SlabInv(SlabAdded(st, i, k), st.Addr(i)) && Rd(SlabAdded(st, i, k).mem, st.Addr(i) + H_NEXT) == 0
  {
    var st', b, sz := SlabAdded(st, i, k), st.Addr(i), ClassSize(k.cls);
    PendingFacts(st, i);
    if Chain(st, k) != [] { LastOfChain(st, i, k); }
    InitGivesSlab(st.mem, b, sz);
    SlabOkStable(MemAfterInit(st.mem, b, sz), st'.mem, b, FreshSlab(b, sz));
  }

  lemma SlabAddLinks(st: State, i: int, k: Key, k': Key, j: int)
    requires Inv(st) && i in st.pending
    requires 0 <= k.cls < SLAB_SIZE
    requires k' in SlabAdded(st, i, k).chains && 0 <= j < |SlabAdded(st, i, k).chains[k']|
    ensures LinkInv(SlabAdded(st, i, k), k', j)
  {
    var st', n := SlabAdded(st, i, k), |Chain(st, k)|;
    if k' == k && j == n {
      SlabAddNew(st, i, k);
    } else {
      assert LinkInv(st, k', j);
      assert st'.chains[k'][j] == st.chains[k'][j];
      NextWord(st, i, k, k', j);
      AwayFromPage(st, i, st.chains[k'][j]);
    }
  }

  // Linking the new page changes the next field of the chain's last page only.
  lemma NextWord(st: State, i: int, k: Key, k': Key, j: int)
    requires Inv(st) && i in st.pending
    requires 0 <= k.cls < SLAB_SIZE
    requires k' in st.chains && 0 <= j < |st.chains[k']|
    ensures Rd(SlabAdded(st, i, k).mem, st.chains[k'][j] + H_NEXT)
      == if k' == k && j == |st.chains[k]| - 1 then st.Addr(i) else Rd(st.mem, st.chains[k'][j] + H_NEXT)
  {
    var c := st.chains[k'][j];
    if Chain(st, k) != [] { LastOfChain(st, i, k); }
    assert LinkInv(st, k', j);
    AwayFromPage(st, i, c);
    SlabAddWrites(st, i, k, c + H_NEXT);
  }

  lemma SlabAddLive(st: State, i: int, k: Key, a: int, n: int)
    requires Inv(st) && i in st.pending
    requires 0 <= k.cls < SLAB_SIZE
    ensures LiveBlock(SlabAdded(st, i, k), a, n) <==> LiveBlock(st, a, n)
  {
    var st', b, sz := SlabAdded(st, i, k), st.Addr(i), ClassSize(k.cls);
    PendingFacts(st, i);
    InitGivesSlab(st.mem, b, sz);
    assert !LiveSlot(b, FreshSlab(b, sz), a);
    assert PageBlock(st', a, n) <==> PageBlock(st, a, n);
    if RoundDown(a, PG) in st.slabs { AwayFromPage(st, i, RoundDown(a, PG)); }
  }

  lemma SlabAddKeeps(st: State, i: int, k: Key, a: int)
    requires Inv(st) && i in st.pending && a in st.live && LiveBlock(st, a, st.live[a])
    requires 0 <= k.cls < SLAB_SIZE
    ensures Untouched(st.mem, SlabAdded(st, i, k).mem, a, st.live[a])
  {
    var j := PagesOf(st, a, st.live[a]);
    PendingFacts(st, i);
    assert j != i;
    BlocksApart(st, i, j);
    if Chain(st, k) != [] {
      LastOfChain(st, i, k);
      LiveBlockClear(st, a, st.live[a], st.chains[k][|st.chains[k]| - 1]);
    }
    forall w | a - 8 < w < a + st.live[a]
      ensures Rd(SlabAdded(st, i, k).mem, w) == Rd(st.mem, w)
    {
      SlabAddWrites(st, i, k, w);
    }
  }

  // What add_slab reads and asserts about the page that it extends.
  lemma SlabAddReads(st: State, i: int, k: Key)
    requires Inv(st) && i in st.pending && 0 <= k.cls < SLAB_SIZE && Chain(st, k) != []
    ensures var last := Chain(st, k)[|Chain(st, k)| - 1];
      && Rd(st.mem, last + H_SZ) == ClassSize(k.cls)
      && Rd(MemAfterInit(st.mem, st.Addr(i), ClassSize(k.cls)), last + H_NEXT) == 0
  {
    var last := Chain(st, k)[|Chain(st, k)| - 1];
    assert LinkInv(st, k, |st.chains[k]| - 1);
    SlabFacts(st, last);
    AwayFromPage(st, i, last);
    PendingFacts(st, i);
    InitGivesSlab(st.mem, st.Addr(i), ClassSize(k.cls));
  }

  // A client may write any word inside its live blocks.
  lemma ClientWriteInv(st: State, mem': Memory)
    requires Inv(st)
    requires forall w :: Rd(mem', w) != Rd(st.mem, w) ==> exists a :: a in st.live && a <= w && w + 8 <= a + st.live[a]
    ensures Inv(st.(mem := mem'))
  {
    var st' := st.(mem := mem');
    forall b | b in st.slabs
      ensures SlabInv(st', b) && Rd(mem', b + H_NEXT) == Rd(st.mem, b + H_NEXT)
    {
      assert SlabInv(st, b);
      forall w | b <= w < b + PG && Rd(mem', w) != Rd(st.mem, w)
        ensures InsideLive(b, st.slabs[b], w)
      {
        var a :| a in st.live && a <= w && w + 8 <= a + st.live[a];
        WriteInPage(st, b, a, w);
      }
      SlabOkStable(st.mem, mem', b, st.slabs[b]);
    }
    SameTable(st, st');
    forall k, j | k in st.chains && 0 <= j < |st.chains[k]|
      ensures LinkInv(st', k, j)
    {
      assert LinkInv(st, k, j);
    }
    assert forall a, n {:trigger LiveBlock(st', a, n)} :: LiveBlock(st', a, n) <==> LiveBlock(st, a, n);
  }

  lemma WriteInPage(st: State, b: int, a: int, w: int)
    requires Inv(st) && b in st.slabs && a in st.live
    requires a <= w && w + 8 <= a + st.live[a] && b <= w < b + PG
    ensures SlabInv(st, b) && InsideLive(b, st.slabs[b], w) && w >= b + First(st.slabs[b].sz)
  {
    assert SlabInv(st, b);
    assert LiveBlock(st, a, st.live[a]);
    var i := PagesOf(st, a, st.live[a]);
    BlocksApart(st, i, st.Index(b));
    assert LiveSlot(b, st.slabs[b], a);
  }

  // ------------------------------------------------------------------ all runs

  // A client writes words inside its live blocks.
  ghost predicate ClientWrites(st: State, st': State) {
    && st' == st.(mem := st'.mem)
    && forall w {:trigger Rd(st'.mem, w)} :: Rd(st'.mem, w) != Rd(st.mem, w) ==>
         exists a :: a in st.live && a <= w && w + 8 <= a + st.live[a]
  }

  // What the allocator does in one critical section of the C code.
  datatype Action =
    | TakeSlot(b: int)              // slab_alloc
    | PutSlot(p: int, k: int)       // S_free
    | TakePages(i: int, n: int)     // G_alloc for a client
    | PutPages(i: int)              // G_free
    | TakePage(i: int)              // G_alloc in add_slab
    | LinkPage(i: int, key: Key)    // the rest of add_slab

  ghost predicate Does(st: State, st': State, act: Action) {
    match act
    case TakeSlot(b) => b in st.slabs && st.slabs[b].free != [] && st' == SlabAllocated(st, b)
    case PutSlot(p, k) => p in st.live && SlotBlock(st, p, st.live[p]) && SlotFreed(st, st', p, k)
    case TakePages(i, n) => FirstFit(st, i, n) && st' == PagesAllocated(st, i, n)
    case PutPages(i) => i in st.blocks && !st.blocks[i].isSlab && st' == PagesFreed(st, i)
    case TakePage(i) => FirstFit(st, i, 1) && st' == PageTaken(st, i)
    case LinkPage(i, key) => i in st.pending && 0 <= key.cls < SLAB_SIZE && st' == SlabAdded(st, i, key)
  }

  ghost predicate AllocatorStep(st: State, st': State) {
    exists act {:trigger Does(st, st', act)} :: Does(st, st', act)
  }

  ghost predicate SameHeap(st: State, st': State) {
    st'.gStart == st.gStart && st'.nPages == st.nPages && st'.boot == st.boot && st'.stale == st.stale
  }

  lemma AllocatorStepSafe(st: State, st': State, act: Action)
    requires Inv(st) && Does(st, st', act)
    ensures Inv(st') && LiveBytesKept(st, st')
    ensures SameHeap(st, st')
  {
    match act
    case TakeSlot(b) => SlabAllocInv(st, b);
    case PutSlot(p, k) => SlabFreeInv(st, p, k);
    case TakePages(i, n) => PagesAllocInv(st, i, n);
    case PutPages(i) => PagesFreeInv(st, i);
    case TakePage(i) => PageTakenInv(st, i);
    case LinkPage(i, key) => SlabAddInv(st, i, key);
  }

  ghost predicate Moves(st: State, st': State) { AllocatorStep(st, st') || ClientWrites(st, st') }

  lemma MoveSafe(st: State, st': State)
    requires Inv(st) && Moves(st, st')
    ensures Inv(st') && SameHeap(st, st')
  {
    if act :| Does(st, st', act) { AllocatorStepSafe(st, st', act); } else { ClientWriteInv(st, st'.mem); }
  }

  ghost predicate IsRun(run: seq<State>) {
    run != [] && Inv(run[0]) && forall i {:trigger run[i]} :: 0 < i < |run| ==> Moves(run[i - 1], run[i])
  }

  // Every live block lies in the managed pages.
  ghost predicate InsideHeap(st: State) {
    forall a {:trigger st.live[a]} :: a in st.live ==> st.gStart <= a && a + st.live[a] <= st.End()
  }

  lemma FitsInside(st: State)
    requires Inv(st) && Fits(st)
    ensures InsideHeap(st)
  {
    forall a | a in st.live
      ensures st.gStart <= a && a + st.live[a] <= st.End()
    {
      LiveFacts(st, a);
      LiveBlockInside(st, a, st.live[a]);
    }
  }

  lemma SameFits(st: State, st': State)
    requires SameHeap(st, st')
    ensures Fits(st') <==> Fits(st)
  {}

  lemma {:induction false} RunKeepsInv(run: seq<State>, i: int)
    requires IsRun(run) && 0 <= i < |run|
    ensures Inv(run[i])
    ensures SameHeap(run[0], run[i])
  {
    if i > 0 {
      RunKeepsInv(run, i - 1);
      MoveSafe(run[i - 1], run[i]);
    }
  }

  // In every state of every run the invariant holds, so any two live blocks are disjoint, each is
  // clear of all bookkeeping, and all are inside the managed pages if all requests fit ...
  lemma RunSafe(run: seq<State>, i: int)
    requires IsRun(run) && 0 <= i < |run|
    ensures Inv(run[i])
    ensures forall a, c :: a in run[i].live && c in run[i].live && a != c ==>
      Disjoint(a, run[i].live[a], c, run[i].live[c])
    ensures Fits(run[0]) ==> InsideHeap(run[i])
  {
    var st := run[i];
    RunKeepsInv(run, i);
    forall a, c | a in st.live && c in st.live && a != c
      ensures Disjoint(a, st.live[a], c, st.live[c])
    {
      LiveFacts(st, a); LiveFacts(st, c);
      LiveBlocksDisjoint(st, a, st.live[a], c, st.live[c]);
    }
    if Fits(run[0]) {
      SameFits(run[0], st);
      FitsInside(st);
    }
  }

  // ... and no step of the allocator changes a byte of a block that stays live.
  lemma RunKeepsBytes(run: seq<State>, i: int)
    requires IsRun(run) && 0 < i < |run| && AllocatorStep(run[i - 1], run[i])
    ensures LiveBytesKept(run[i - 1], run[i])
  {
    RunKeepsInv(run, i - 1);
    var act :| Does(run[i - 1], run[i], act);
    AllocatorStepSafe(run[i - 1], run[i], act);
  }

  // ------------------------------------------------------------ when all requests fit

  lemma {:induction false} LowestAvailable(st: State, n: int, c: int) returns (i: int)
    requires Available(st, c, n)
    ensures FirstFit(st, i, n) && i <= c
    decreases c
  {
    if q :| q < c && Available(st, q, n) {
      i := LowestAvailable(st, n, q);
    } else {
      i := c;
    }
  }

  // Taking the lowest run leaves the last candidate free, and none is free up to the run.
  lemma TakenLowest(st: State, i: int, n: int, last: int)
    requires Inv(st) && FirstFit(st, i, n) && Available(st, last, n) && i < last
    ensures var st' := PagesAllocated(st, i, n);
      Available(st', last, n) && forall q {:trigger Available(st', q, n)} :: q <= i ==> !Available(st', q, n)
  {
    var st' := PagesAllocated(st, i, n);
    MultipleGap(st.Page0() + i, st.Page0() + last, n);
    forall q | q <= i
      ensures !Available(st', q, n)
    {
      if q < i && Available(st', q, n) {
        LessRoom(st, i, n, q);
        LowerIsTaken(st, i, n, q);
      }
    }
  }

  lemma LowerIsTaken(st: State, i: int, n: int, q: int)
    requires FirstFit(st, i, n) && q < i
    ensures !Available(st, q, n)
  {}

  lemma LessRoom(st: State, i: int, n: int, q: int)
    requires NewRun(st.blocks, i, n) && q != i && NewRun(st.blocks[i := Run(n, false)], q, n)
    ensures NewRun(st.blocks, q, n)
  {
    var blocks' := st.blocks[i := Run(n, false)];
    forall j | j in st.blocks
      ensures j + st.blocks[j].n <= q || q + n <= j
    {
      assert j in blocks' && blocks'[j] == st.blocks[j];
    }
  }

  // A client that goes on asking for n pages gets a block past the end of the managed pages.
  lemma {:induction false} Overrun(st: State, n: int, lo: int) returns (run: seq<State>)
    requires Inv(st) && n > 0 && Available(st, LastStart(st, n), n) && LastStart(st, n) + n > st.nPages
    requires lo <= LastStart(st, n) && forall q {:trigger Available(st, q, n)} :: q < lo ==> !Available(st, q, n)
    ensures IsRun(run) && run[0] == st && |run| > 1 && !InsideHeap(run[|run| - 1])
    decreases LastStart(st, n) - lo
  {
    var last := LastStart(st, n);
    var i := LowestAvailable(st, n, last);
    var st' := PagesAllocated(st, i, n);
    assert Does(st, st', TakePages(i, n));
    PagesAllocInv(st, i, n);
    if i == last {
      run := [st, st'];
      assert st'.live[st.Addr(i)] == n * PG && st.Addr(i) + n * PG > st'.End();
    } else {
      TakenLowest(st, i, n, last);
      var rest := Overrun(st', n, i + 1);
      run := [st] + rest;
      ConsRun(st, rest);
    }
  }

  lemma ConsRun(st: State, rest: seq<State>)
    requires Inv(st) && IsRun(rest) && Moves(st, rest[0])
    ensures IsRun([st] + rest)
  {
    var run := [st] + rest;
    forall i | 0 < i < |run|
      ensures Moves(run[i - 1], run[i])
    {
      if i > 1 { assert Moves(rest[i - 2], rest[i - 1]); }
    }
  }

  // After S_init: exactly the first boot pages are taken.
  ghost predicate Started(st: State) {
    && Inv(st) && 0 <= st.boot <= st.nPages
    && (forall i {:trigger i in st.blocks} :: i in st.blocks ==> 0 <= i < st.boot)
  }

  lemma BootDone(st: State, c: int)
    requires Inv(st) && st.boot == 0 && 0 <= c <= st.nPages
    requires forall i {:trigger i in st.blocks} :: i in st.blocks <==> 0 <= i < c
    requires forall i {:trigger st.blocks[i]} :: i in st.blocks ==> st.blocks[i] == Run(1, true)
    ensures Started(st.(boot := c))
  {
    var st' := st.(boot := c);
    MarkedKeeps(st, st);
    forall b | b in st'.slabs ensures SlabInv(st', b) { SlabFacts(st, b); }
    forall k, j | k in st'.chains && 0 <= j < |st'.chains[k]| ensures LinkInv(st', k, j) { assert LinkInv(st, k, j); }
    forall i | i in st'.blocks ensures BlockInv(st', i) { assert BlockInv(st, i); }
    forall i | i in st'.pending ensures PendingInv(st', i) { PendingFacts(st, i); }
    forall i | 0 <= i < c ensures BootInv(st', i) { assert i in st.blocks; }
    forall a, m
      ensures LiveBlock(st', a, m) <==> a in st'.live && st'.live[a] == m
    {
      assert LiveBlock(st, a, m) <==> a in st.live && st.live[a] == m;
    }
  }

  lemma LastIsAvailable(st: State, n: int)
    requires Started(st) && n > 0 && PageCount(n) && !FitsFor(st, n)
    ensures Available(st, LastStart(st, n), n) && LastStart(st, n) + n > st.nPages
  {
    LastStartIs(st, n);
    forall j | j in st.blocks
      ensures j + st.blocks[j].n <= LastStart(st, n)
    {
      BootFacts(st, j);
      assert BlockInv(st, j);
    }
  }

  // From the state that S_init leaves, live blocks stay in the managed pages in all runs exactly
  // if every request fits: the managed pages end on a multiple of it, or the last candidate for
  // it starts in a page that S_init took or reaches a stale entry.
  lemma ContainmentExact(st: State)
    requires Started(st)
    ensures Fits(st) <==> forall run :: IsRun(run) && run[0] == st ==> InsideHeap(run[|run| - 1])
  {
    if Fits(st) {
      forall run | IsRun(run) && run[0] == st
        ensures InsideHeap(run[|run| - 1])
      {
        RunSafe(run, |run| - 1);
      }
    } else {
      var n :| PageCount(n) && n > 0 && !FitsFor(st, n);
      LastIsAvailable(st, n);
      NoneBelowZero(st, n);
      var run := Overrun(st, n, 0);
    }
  }

  lemma NoneBelowZero(st: State, n: int)
    requires n > 0
    ensures forall q {:trigger Available(st, q, n)} :: q < 0 ==> !Available(st, q, n)
  {}

  // If the managed pages end on a multiple of MAX_ALLOC, every request fits.
  lemma AlignedFits(st: State)
    requires (st.Page0() + st.nPages) % MAX_PAGES == 0
    ensures Fits(st)
  {
    forall n | PageCount(n) && n > 0
      ensures FitsFor(st, n)
    {
      var k := CountIsPower(n);
      CountDivides(n, k, st.Page0() + st.nPages);
    }
  }

  lemma CountDivides(n: int, k: nat, x: int)
    requires k <= 8 && n == Pow2(k) && n > 0 && x % MAX_PAGES == 0
    ensures x % n == 0
  {
    assert Pow2(8) == MAX_PAGES by { Pow2Values(); }
    Pow2Add(k, 8 - k);
    var q, r := x / MAX_PAGES, Pow2(8 - k);
    assert x == MAX_PAGES * q;
    Assoc(n, r, q);
    DivUnique(x, n, r * q, 0);
  }
}
