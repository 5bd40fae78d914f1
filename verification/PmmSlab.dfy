/** One slab page of the physical memory manager (kernel/src/pmm.c): a header followed by a
    free list that lives inside the free memory it describes.

    Memory is a map from byte addresses to the machine words stored there; a word at
    address a occupies the bytes a, ..., a + 7. */
module PmmSlab {
  import opened Arith
  import opened Bits
  import opened PmmPages

  type Memory = map<int, int>

  function Rd(mem: Memory, a: int): int {
    if a in mem then mem[a] else 0
  }

  // Field offsets of S_header_t (n_head, next, sz, lk, payload) and S_node_t (next, size).
  const H_HEAD := 0
  const H_NEXT := 8
  const H_SZ := 16
  const H_LK := 24
  const H_PAYLOAD := 28
  const N_NEXT := 0
  const N_SIZE := 8

  const SLAB_SIZE := 9  // number of size classes

  // Block size of class j: 16, 32, ..., 4096.
  function ClassSize(j: nat): (sz: int)
    ensures sz >= 16
  {
    if j == 0 then 16 else 2 * ClassSize(j - 1)
  }

  ghost predicate IsClass(sz: int) {
    exists j :: 0 <= j < SLAB_SIZE && sz == ClassSize(j)
  }

  lemma {:induction false} ClassDividesPage(j: nat)
    requires j < SLAB_SIZE
    ensures ClassSize(j) * ClassSize(8 - j) == PG
  {
    if j == 0 {
      assert ClassSize(8) == 4096;
    } else {
      ClassDividesPage(j - 1);
    }
  }

  // x is a multiple of n; by repeated subtraction, so that no division is involved.
  predicate Mult(x: int, n: int)
    requires n > 0
    decreases if x < 0 then 0 else x + 1
  {
    x == 0 || (x >= n && Mult(x - n, n))
  }

  lemma {:induction false} MultIsMod(x: int, n: int)
    requires n > 0 && x >= 0
    ensures Mult(x, n) <==> x % n == 0
  {
    if x >= n {
      MultIsMod(x - n, n);
      assert x - n == n * ((x - n) / n) + (x - n) % n;
      DivUnique(x, n, (x - n) / n + 1, (x - n) % n);
    } else {
      DivUnique(x, n, 0, x);
    }
  }

  lemma {:induction false} MultAdd(x: int, y: int, n: int)
    requires n > 0 && Mult(x, n) && Mult(y, n)
    ensures x >= 0 && y >= 0 && Mult(x + y, n)
  {
    if x > 0 { MultAdd(x - n, y, n); } else if y > 0 { MultAdd(x, y - n, n); }
  }

  lemma {:induction false} MultSub(x: int, y: int, n: int)
    requires n > 0 && Mult(x, n) && Mult(y, n) && y <= x
    ensures y >= 0 && Mult(x - y, n) && (y < x ==> y + n <= x)
  {
    if y > 0 { MultSub(x - n, y - n, n); }
  }

  lemma {:induction false} MultPages(b: int, sz: int)
    requires IsClass(sz) && b >= 0 && b % PG == 0
    ensures Mult(b, sz)
  {
    if b > 0 {
      MultPages(b - PG, sz);
      var j :| 0 <= j < SLAB_SIZE && sz == ClassSize(j);
      ClassDividesPage(j);
      DivUnique(PG, sz, ClassSize(8 - j), 0);
      MultIsMod(PG, sz);
      MultAdd(b - PG, PG, sz);
    }
  }

  // The first slot of the page, relative to its base.
  function First(sz: int): int {
    if sz == 16 then 32 else sz
  }

  lemma SlabMultiples(b: int, sz: int)
    requires IsClass(sz) && b >= 0 && b % PG == 0
    ensures Mult(First(sz), sz) && Mult(PG - First(sz), sz) && Mult(b, sz) && Mult(sz, sz)
    ensures First(sz) + sz <= PG
  {
    MultPages(b, sz);
    MultPages(PG, sz);
    if sz == 16 { assert Mult(32, 16); } else { assert Mult(sz, sz); }
    MultSub(PG, First(sz), sz);
    var j :| 0 <= j < SLAB_SIZE && sz == ClassSize(j);
    ClassDividesPage(j);
    MulMono(16, ClassSize(8 - j), sz);
  }

  // slab_init rounds the payload's address up and the remaining length down: the first
  // node starts at the first slot and ends at the end of the page.
  lemma SlabGeometry(b: int, sz: int)
    requires IsClass(sz) && b >= 0 && b % PG == 0
    ensures RoundUp(b + H_PAYLOAD, sz) == b + First(sz)
    ensures RoundDown(PG - H_PAYLOAD, sz) == PG - First(sz)
  {
    MultPages(b, sz);
    MultIsMod(b, sz);
    var j :| 0 <= j < SLAB_SIZE && sz == ClassSize(j);
    ClassDividesPage(j);
    if sz == 16 { RoundsTo16(b); } else { RoundsToSize(b, sz, b / sz, ClassSize(8 - j)); }
  }

  lemma RoundsTo16(b: int)
    requires b % 16 == 0
    ensures RoundUp(b + H_PAYLOAD, 16) == b + 32 && RoundDown(PG - H_PAYLOAD, 16) == PG - 32
  {}

  lemma RoundsToSize(b: int, sz: int, q: int, r: int)
    requires sz > H_PAYLOAD && b == sz * q && PG == sz * r
    ensures RoundUp(b + H_PAYLOAD, sz) == b + sz && RoundDown(PG - H_PAYLOAD, sz) == PG - sz
  {
    Dist(q, 1, sz);
    Dist(r, 1, sz);
    DivUnique(b + H_PAYLOAD + sz - 1, sz, q + 1, H_PAYLOAD - 1);
    DivUnique(PG - H_PAYLOAD, sz, r - 1, sz - H_PAYLOAD);
  }

  datatype Node = Node(addr: int, size: int)
  datatype Slab = Slab(sz: int, free: seq<Node>)

  function AddrAt(free: seq<Node>, i: int): int
    requires 0 <= i
  {
    if i < |free| then free[i].addr else 0
  }

  ghost predicate NodeStored(mem: Memory, n: Node, next: int) {
    Rd(mem, n.addr + N_NEXT) == next && Rd(mem, n.addr + N_SIZE) == n.size
  }

  ghost predicate StoredAt(mem: Memory, free: seq<Node>, i: int)
    requires 0 <= i < |free|
  {
    NodeStored(mem, free[i], AddrAt(free, i + 1))
  }

  // The nodes in memory, starting from head, are those of the list.
  ghost predicate Listed(mem: Memory, head: int, free: seq<Node>) {
    && head == AddrAt(free, 0)
    && (forall i {:trigger StoredAt(mem, free, i)} :: 0 <= i < |free| ==> StoredAt(mem, free, i))
  }

  // The byte range [p, p + n) is a whole number of slots of the slab page at b.
  ghost predicate IsRange(b: int, sz: int, p: int, n: int)
    requires sz > 0
  {
    Mult(p, sz) && Mult(n, sz) && n > 0 && b + First(sz) <= p && p + n <= b + PG
  }

  ghost predicate Before(m: Node, n: Node) { m.addr + m.size <= n.addr }

  ghost predicate WellPlaced(b: int, s: Slab)
    requires s.sz > 0
  {
    && (forall i {:trigger IsRange(b, s.sz, s.free[i].addr, s.free[i].size)} ::
          0 <= i < |s.free| ==> IsRange(b, s.sz, s.free[i].addr, s.free[i].size))
    && (forall i, j {:trigger Before(s.free[i], s.free[j])} ::
          0 <= i < j < |s.free| ==> Before(s.free[i], s.free[j]))
  }

  ghost predicate SlabOk(mem: Memory, b: int, s: Slab) {
    && IsClass(s.sz) && b > 0 && b % PG == 0
    && Rd(mem, b + H_SZ) == s.sz
    && Listed(mem, Rd(mem, b + H_HEAD), s.free)
    && WellPlaced(b, s)
  }

  // A slot p is free when some node covers it, otherwise it is live.
  ghost predicate Covers(n: Node, p: int) { n.addr <= p < n.addr + n.size }

  ghost predicate LiveSlot(b: int, s: Slab, p: int)
    requires s.sz > 0
  {
    && IsRange(b, s.sz, p, s.sz)
    && forall i {:trigger Covers(s.free[i], p)} :: 0 <= i < |s.free| ==> !Covers(s.free[i], p)
  }

  // ---------------------------------------------------------------- allocation

  function AfterAlloc(s: Slab): Slab {
    if s.free == [] then s
    else if s.free[0].size == s.sz then s.(free := s.free[1..])
    else s.(free := [Node(s.free[0].addr + s.sz, s.free[0].size - s.sz)] + s.free[1..])
  }

  // Memory after slab_alloc on a non-empty list.
  function MemAfterAlloc(mem: Memory, b: int, s: Slab): Memory
    requires s.free != []
  {
    var n := s.free[0];
    if n.size == s.sz then mem[b + H_HEAD := AddrAt(s.free, 1)]
    else
      var m := n.addr + s.sz;
      mem[m + N_SIZE := n.size - s.sz][m + N_NEXT := AddrAt(s.free, 1)][b + H_HEAD := m]
  }

  lemma AllocKeepsSlab(mem: Memory, b: int, s: Slab)
    requires SlabOk(mem, b, s) && s.free != []
    ensures SlabOk(MemAfterAlloc(mem, b, s), b, AfterAlloc(s))
  {
    AllocWellPlaced(b, s);
    AllocListed(mem, b, s);
  }

  // Node i lies behind the header and in front of node i + 1.
  lemma NodeAt(b: int, s: Slab, i: int)
    requires s.sz >= 16 && WellPlaced(b, s) && 0 <= i < |s.free|
    ensures IsRange(b, s.sz, s.free[i].addr, s.free[i].size) && s.free[i].size >= s.sz
    ensures i > 0 ==> Before(s.free[i - 1], s.free[i]) && Before(s.free[0], s.free[i])
  {
    assert IsRange(b, s.sz, s.free[i].addr, s.free[i].size);
    MultSub(s.free[i].size, 0, s.sz);
  }

  lemma AllocWellPlaced(b: int, s: Slab)
    requires s.sz >= 16 && WellPlaced(b, s) && s.free != []
    ensures WellPlaced(b, AfterAlloc(s))
  {
    var n, s' := s.free[0], AfterAlloc(s);
    NodeAt(b, s, 0);
    if n.size == s.sz {
      assert forall i :: 0 <= i < |s'.free| ==> s'.free[i] == s.free[i + 1];
    } else {
      assert Mult(s.sz, s.sz);
      MultAdd(n.addr, s.sz, s.sz);
      MultSub(n.size, s.sz, s.sz);
      assert forall i :: 1 <= i < |s'.free| ==> s'.free[i] == s.free[i] && Before(n, s.free[i]);
    }
  }

  // The nodes behind the first one stay as they are in memory.
  lemma AllocLeavesTail(mem: Memory, b: int, s: Slab, i: int)
    requires SlabOk(mem, b, s) && 1 <= i < |s.free|
    ensures NodeStored(MemAfterAlloc(mem, b, s), s.free[i], AddrAt(s.free, i + 1))
  {
    NodeAt(b, s, 0);
    NodeAt(b, s, i);
    assert Mult(s.sz, s.sz);
    MultSub(s.free[0].size, s.sz, s.sz);
    assert StoredAt(mem, s.free, i);
  }

  lemma AllocListed(mem: Memory, b: int, s: Slab)
    requires SlabOk(mem, b, s) && s.free != []
    ensures var mem' := MemAfterAlloc(mem, b, s);
      Listed(mem', Rd(mem', b + H_HEAD), AfterAlloc(s).free) && Rd(mem', b + H_SZ) == s.sz
  {
    NodeAt(b, s, 0);
    if s.free[0].size == s.sz { PopListed(mem, b, s); } else { SplitListed(mem, b, s); }
  }

  lemma PopListed(mem: Memory, b: int, s: Slab)
    requires SlabOk(mem, b, s) && s.free != [] && s.free[0].size == s.sz
    ensures Listed(MemAfterAlloc(mem, b, s), AddrAt(s.free, 1), s.free[1..])
  {
    forall i | 0 <= i < |s.free| - 1
      ensures StoredAt(MemAfterAlloc(mem, b, s), s.free[1..], i)
    {
      AllocLeavesTail(mem, b, s, i + 1);
      Shift(s.free, i);
    }
  }

  lemma SplitListed(mem: Memory, b: int, s: Slab)
    requires SlabOk(mem, b, s) && s.free != [] && s.free[0].size != s.sz
    ensures Listed(MemAfterAlloc(mem, b, s), s.free[0].addr + s.sz, AfterAlloc(s).free)
  {
    var mem', free' := MemAfterAlloc(mem, b, s), AfterAlloc(s).free;
    NodeAt(b, s, 0);
    forall i | 0 <= i < |free'|
      ensures StoredAt(mem', free', i)
    {
      assert AddrAt(free', i + 1) == AddrAt(s.free, i + 1);
      if i > 0 {
        AllocLeavesTail(mem, b, s, i);
        assert free'[i] == s.free[i];
      } else {
        SplitNodeStored(mem, b, s);
      }
    }
  }

  lemma SplitNodeStored(mem: Memory, b: int, s: Slab)
    requires s.free != [] && s.sz >= 16 && b + H_HEAD < s.free[0].addr && s.free[0].size != s.sz
    ensures NodeStored(MemAfterAlloc(mem, b, s), AfterAlloc(s).free[0], AddrAt(s.free, 1))
  {}

  lemma Shift(free: seq<Node>, i: int)
    requires 0 <= i < |free| - 1
    ensures free[1..][i] == free[i + 1] && AddrAt(free[1..], i + 1) == AddrAt(free, i + 2)
  {}

  // The block handed out was free, and is the only slot whose state changes.
  lemma AllocTakesOne(b: int, s: Slab, p: int)
    requires s.sz >= 16 && WellPlaced(b, s) && s.free != []
    ensures IsRange(b, s.sz, s.free[0].addr, s.sz)
    ensures !LiveSlot(b, s, s.free[0].addr)
    ensures LiveSlot(b, AfterAlloc(s), p) <==> LiveSlot(b, s, p) || p == s.free[0].addr
  {
    var n, s' := s.free[0], AfterAlloc(s);
    assert IsRange(b, s.sz, n.addr, n.size);
    assert Covers(n, n.addr);
    MultSub(n.size, 0, s.sz);
    if IsRange(b, s.sz, p, s.sz) {
      if p < n.addr { MultSub(n.addr, p, s.sz); } else { MultSub(p, n.addr, s.sz); }
      forall i | 0 <= i < |s'.free|
        ensures Covers(s'.free[i], p) ==> p != n.addr && exists j :: 0 <= j < |s.free| && Covers(s.free[j], p)
      {
        if n.size == s.sz {
          assert s'.free[i] == s.free[i + 1] && Before(n, s.free[i + 1]);
        } else if i == 0 {
          assert Covers(s'.free[0], p) ==> Covers(n, p);
        } else {
          assert s'.free[i] == s.free[i] && Before(n, s.free[i]);
        }
      }
      forall j | 0 <= j < |s.free| && Covers(s.free[j], p) && p != n.addr
        ensures exists i :: 0 <= i < |s'.free| && Covers(s'.free[i], p)
      {
        if n.size == s.sz {
          assert j > 0 && s'.free[j - 1] == s.free[j];
        } else if j == 0 {
          assert Covers(s'.free[0], p);
        } else {
          assert s'.free[j] == s.free[j];
        }
      }
    }
  }

  // ------------------------------------------------------------------- freeing

  // The place of p in the address-ordered list.
  ghost predicate InsertAt(free: seq<Node>, p: int, k: int) {
    && 0 <= k <= |free|
    && (forall i :: 0 <= i < k ==> free[i].addr < p)
    && (k < |free| ==> p <= free[k].addr)
  }

  function AfterFree(s: Slab, p: int, k: int): Slab
    requires 0 <= k <= |s.free|
  {
    s.(free := s.free[..k] + [Node(p, s.sz)] + s.free[k..])
  }

  function MemAfterFree(mem: Memory, b: int, s: Slab, p: int, k: int): Memory
    requires 0 <= k <= |s.free|
  {
    mem[p + N_SIZE := s.sz][p + N_NEXT := AddrAt(s.free, k)][
      if k == 0 then b + H_HEAD else s.free[k - 1].addr + N_NEXT := p]
  }

  // A live slot keeps clear of every free node.
  lemma LiveApart(b: int, s: Slab, p: int, i: int)
    requires s.sz >= 16 && WellPlaced(b, s) && LiveSlot(b, s, p) && 0 <= i < |s.free|
    ensures p + s.sz <= s.free[i].addr || Before(s.free[i], Node(p, s.sz))
  {
    NodeAt(b, s, i);
    assert !Covers(s.free[i], p);
    if p < s.free[i].addr { MultSub(s.free[i].addr, p, s.sz); }
  }

  lemma FreePlace(b: int, s: Slab, p: int, k: int, i: int)
    requires s.sz >= 16 && WellPlaced(b, s) && LiveSlot(b, s, p) && InsertAt(s.free, p, k) && 0 <= i < |s.free|
    ensures if i < k then Before(s.free[i], Node(p, s.sz)) else Before(Node(p, s.sz), s.free[i])
  {
    LiveApart(b, s, p, i);
    NodeAt(b, s, i);
    if i > k {
      assert Before(s.free[k], s.free[i]);
      NodeAt(b, s, k);
      LiveApart(b, s, p, k);
    }
  }

  lemma FreeWellPlaced(b: int, s: Slab, p: int, k: int)
    requires s.sz >= 16 && WellPlaced(b, s) && LiveSlot(b, s, p) && InsertAt(s.free, p, k)
    ensures WellPlaced(b, AfterFree(s, p, k))
  {
    var free' := AfterFree(s, p, k).free;
    forall i | 0 <= i < |free'|
      ensures IsRange(b, s.sz, free'[i].addr, free'[i].size)
    {
      if i != k { NodeAt(b, s, if i < k then i else i - 1); }
    }
    forall i, j | 0 <= i < j < |free'|
      ensures Before(free'[i], free'[j])
    {
      if i < k { FreePlace(b, s, p, k, i); }
      if j > k { FreePlace(b, s, p, k, j - 1); }
      if i < k && j != k { assert Before(s.free[i], s.free[if j < k then j else j - 1]); }
      if i > k { assert Before(s.free[i - 1], s.free[j - 1]); }
    }
  }

  lemma StoredElsewhere(mem: Memory, n: Node, next: int, a1: int, v1: int, a2: int, v2: int, a3: int, v3: int)
    requires NodeStored(mem, n, next)
    requires a1 !in {n.addr, n.addr + 8} && a2 !in {n.addr, n.addr + 8}
    requires a3 != n.addr + N_SIZE
    ensures NodeStored(mem[a1 := v1][a2 := v2][a3 := v3], n, if a3 == n.addr then v3 else next)
  {}

  // The field that will point to the new node belongs to the header or to node k - 1.
  lemma LinkField(b: int, s: Slab, k: int, i: int)
    requires s.sz >= 16 && WellPlaced(b, s) && 0 <= k <= |s.free| && 0 <= i < |s.free|
    ensures var n, prev := s.free[i], if k == 0 then b + H_HEAD else s.free[k - 1].addr + N_NEXT;
      n.size >= 16 && prev != n.addr + N_SIZE && (prev == n.addr <==> i == k - 1)
  {
    NodeAt(b, s, i);
    if 0 < k {
      NodeAt(b, s, k - 1);
      if i < k - 1 { assert Before(s.free[i], s.free[k - 1]); }
      if i > k - 1 { assert Before(s.free[k - 1], s.free[i]); }
    }
  }

  lemma FreeLeavesNode(mem: Memory, b: int, s: Slab, p: int, k: int, i: int)
    requires SlabOk(mem, b, s) && LiveSlot(b, s, p) && InsertAt(s.free, p, k) && 0 <= i < |s.free|
    ensures NodeStored(MemAfterFree(mem, b, s, p, k), s.free[i], if i == k - 1 then p else AddrAt(s.free, i + 1))
  {
    var n, prev := s.free[i], if k == 0 then b + H_HEAD else s.free[k - 1].addr + N_NEXT;
    FreePlace(b, s, p, k, i);
    LinkField(b, s, k, i);
    assert p + 16 <= n.addr || n.addr + 16 <= p;
    assert StoredAt(mem, s.free, i);
    StoredElsewhere(mem, n, AddrAt(s.free, i + 1), p + N_SIZE, s.sz, p + N_NEXT, AddrAt(s.free, k), prev, p);
  }

  lemma Inserted(free: seq<Node>, n: Node, k: int, i: int)
    requires 0 <= k <= |free| && 0 <= i <= |free|
    ensures var free' := free[..k] + [n] + free[k..];
      && free'[i] == (if i < k then free[i] else if i == k then n else free[i - 1])
      && AddrAt(free', i + 1) ==
        (if i + 1 < k then AddrAt(free, i + 1) else if i + 1 == k then n.addr else AddrAt(free, i))
  {}

  lemma FreeListed(mem: Memory, b: int, s: Slab, p: int, k: int)
    requires SlabOk(mem, b, s) && LiveSlot(b, s, p) && InsertAt(s.free, p, k)
    ensures Listed(MemAfterFree(mem, b, s, p, k), if k == 0 then p else AddrAt(s.free, 0), AfterFree(s, p, k).free)
  {
    var mem', free' := MemAfterFree(mem, b, s, p, k), AfterFree(s, p, k).free;
    forall i | 0 <= i < |free'|
      ensures StoredAt(mem', free', i)
    {
      Inserted(s.free, Node(p, s.sz), k, i);
      if i == k {
        FreedNodeStored(mem, b, s, p, k);
      } else {
        FreeLeavesNode(mem, b, s, p, k, if i < k then i else i - 1);
      }
    }
    if 0 < k { Inserted(s.free, Node(p, s.sz), k, 0); }
  }

  lemma FreedNodeStored(mem: Memory, b: int, s: Slab, p: int, k: int)
    requires SlabOk(mem, b, s) && LiveSlot(b, s, p) && InsertAt(s.free, p, k)
    ensures NodeStored(MemAfterFree(mem, b, s, p, k), Node(p, s.sz), AddrAt(s.free, k))
  {
    if 0 < k { FreePlace(b, s, p, k, k - 1); NodeAt(b, s, k - 1); }
  }

  lemma FreeKeepsSlab(mem: Memory, b: int, s: Slab, p: int, k: int)
    requires SlabOk(mem, b, s) && LiveSlot(b, s, p) && InsertAt(s.free, p, k)
    ensures SlabOk(MemAfterFree(mem, b, s, p, k), b, AfterFree(s, p, k))
  {
    FreeWellPlaced(b, s, p, k);
    FreeListed(mem, b, s, p, k);
    FreeWritesHeader(mem, b, s, p, k);
  }

  // Of the header, only the list head may change.
  lemma FreeWritesHeader(mem: Memory, b: int, s: Slab, p: int, k: int)
    requires SlabOk(mem, b, s) && LiveSlot(b, s, p) && InsertAt(s.free, p, k)
    ensures var mem' := MemAfterFree(mem, b, s, p, k);
      && Rd(mem', b + H_HEAD) == (if k == 0 then p else AddrAt(s.free, 0))
      && Rd(mem', b + H_NEXT) == Rd(mem, b + H_NEXT) && Rd(mem', b + H_SZ) == s.sz
  {
    if 0 < k { NodeAt(b, s, k - 1); }
  }

  lemma FreeReleasesOne(b: int, s: Slab, p: int, k: int, q: int)
    requires s.sz >= 16 && WellPlaced(b, s) && LiveSlot(b, s, p) && InsertAt(s.free, p, k)
    ensures LiveSlot(b, AfterFree(s, p, k), q) <==> LiveSlot(b, s, q) && q != p
  {
    var free' := AfterFree(s, p, k).free;
    Inserted(s.free, Node(p, s.sz), k, k);
    assert Covers(free'[k], p);
    if IsRange(b, s.sz, q, s.sz) && q != p {
      if p < q { MultSub(q, p, s.sz); } else { MultSub(p, q, s.sz); }
      forall i | 0 <= i < |free'| && Covers(free'[i], q)
        ensures exists j :: 0 <= j < |s.free| && Covers(s.free[j], q)
      {
        Inserted(s.free, Node(p, s.sz), k, i);
        assert Covers(s.free[if i < k then i else i - 1], q);
      }
      forall j | 0 <= j < |s.free| && Covers(s.free[j], q)
        ensures exists i :: 0 <= i < |free'| && Covers(free'[i], q)
      {
        Inserted(s.free, Node(p, s.sz), k, if j < k then j else j + 1);
        assert Covers(free'[if j < k then j else j + 1], q);
      }
    }
  }

  // --------------------------------------------------- what the operations write

  // No word that overlaps [q, q + n) differs.
  ghost predicate Untouched(mem: Memory, mem': Memory, q: int, n: int) {
    forall a :: q - 8 < a < q + n ==> Rd(mem', a) == Rd(mem, a)
  }

  // Only words that lie in the page at b differ.
  ghost predicate OnlyPage(mem: Memory, mem': Memory, b: int) {
    forall a :: a < b || b + PG < a + 8 ==> Rd(mem', a) == Rd(mem, a)
  }

  lemma AllocWrites(mem: Memory, b: int, s: Slab)
    requires SlabOk(mem, b, s) && s.free != []
    ensures OnlyPage(mem, MemAfterAlloc(mem, b, s), b)
    ensures forall q :: LiveSlot(b, s, q) ==> Untouched(mem, MemAfterAlloc(mem, b, s), q, s.sz)
    ensures Rd(MemAfterAlloc(mem, b, s), b + H_NEXT) == Rd(mem, b + H_NEXT)
  {
    NodeAt(b, s, 0);
    assert Mult(s.sz, s.sz);
    MultSub(s.free[0].size, s.sz, s.sz);
    forall q | LiveSlot(b, s, q)
      ensures Untouched(mem, MemAfterAlloc(mem, b, s), q, s.sz)
    {
      LiveApart(b, s, q, 0);
    }
  }

  lemma FreeWrites(mem: Memory, b: int, s: Slab, p: int, k: int)
    requires SlabOk(mem, b, s) && LiveSlot(b, s, p) && InsertAt(s.free, p, k)
    ensures OnlyPage(mem, MemAfterFree(mem, b, s, p, k), b)
    ensures forall q :: LiveSlot(b, s, q) && q != p ==> Untouched(mem, MemAfterFree(mem, b, s, p, k), q, s.sz)
    ensures Rd(MemAfterFree(mem, b, s, p, k), b + H_NEXT) == Rd(mem, b + H_NEXT)
  {
    FreeWritesHeader(mem, b, s, p, k);
    if 0 < k { NodeAt(b, s, k - 1); }
    forall q | LiveSlot(b, s, q) && q != p
      ensures Untouched(mem, MemAfterFree(mem, b, s, p, k), q, s.sz)
    {
      FreeSparesLive(mem, b, s, p, k, q);
    }
  }

  lemma FreeSparesLive(mem: Memory, b: int, s: Slab, p: int, k: int, q: int)
    requires SlabOk(mem, b, s) && LiveSlot(b, s, p) && InsertAt(s.free, p, k)
    requires LiveSlot(b, s, q) && q != p
    ensures Untouched(mem, MemAfterFree(mem, b, s, p, k), q, s.sz)
  {
    if p < q { MultSub(q, p, s.sz); } else { MultSub(p, q, s.sz); }
    if 0 < k {
      NodeAt(b, s, k - 1);
      LiveApart(b, s, q, k - 1);
    }
  }

  // The word at a lies inside a live slot.
  ghost predicate InsideLive(b: int, s: Slab, a: int)
    requires s.sz > 0
  {
    exists q :: LiveSlot(b, s, q) && q <= a && a + 8 <= q + s.sz
  }

  // Whatever clients write into live slots, and whatever becomes of the header's next and lk
  // fields, the slab's bookkeeping is unaffected.
  lemma SlabOkStable(mem: Memory, mem': Memory, b: int, s: Slab)
    requires SlabOk(mem, b, s)
    requires forall a :: b <= a < b + PG && Rd(mem', a) != Rd(mem, a) ==>
      a == b + H_NEXT || a == b + H_LK || InsideLive(b, s, a)
    ensures SlabOk(mem', b, s)
  {
    forall i | 0 <= i < |s.free|
      ensures StoredAt(mem', s.free, i)
    {
      assert StoredAt(mem, s.free, i);
      NodeAt(b, s, i);
      forall q | LiveSlot(b, s, q)
        ensures q + s.sz <= s.free[i].addr || s.free[i].addr + s.free[i].size <= q
      {
        LiveApart(b, s, q, i);
      }
    }
  }

  // ------------------------------------------------------------ initialisation

  function FreshSlab(b: int, sz: int): Slab {
    Slab(sz, [Node(b + First(sz), PG - First(sz))])
  }

  function MemAfterInit(mem: Memory, b: int, sz: int): Memory {
    var n := b + First(sz);
    mem[b + H_LK := 0][b + H_SZ := sz][b + H_HEAD := n][b + H_NEXT := 0][n + N_NEXT := 0][n + N_SIZE := PG - First(sz)]
  }

  lemma InitGivesSlab(mem: Memory, b: int, sz: int)
    requires IsClass(sz) && b > 0 && b % PG == 0
    ensures SlabOk(MemAfterInit(mem, b, sz), b, FreshSlab(b, sz))
    ensures forall q :: !LiveSlot(b, FreshSlab(b, sz), q)
    ensures Tiled(b, FreshSlab(b, sz))
    ensures OnlyPage(mem, MemAfterInit(mem, b, sz), b) && Rd(MemAfterInit(mem, b, sz), b + H_NEXT) == 0
  {
    var s, mem' := FreshSlab(b, sz), MemAfterInit(mem, b, sz);
    SlabMultiples(b, sz);
    MultAdd(b, First(sz), sz);
    assert StoredAt(mem', s.free, 0);
    forall q ensures !LiveSlot(b, s, q) {
      assert Covers(s.free[0], q) || !(b + First(sz) <= q < b + PG);
    }
    assert LiveSlots(b, s) == {};
    assert FreeBytes(s.free) == PG - First(sz);
  }

  // ------------------------------------------------------------------- tiling

  function FreeBytes(free: seq<Node>): int {
    if free == [] then 0 else free[0].size + FreeBytes(free[1..])
  }

  ghost function LiveSlots(b: int, s: Slab): set<int>
    requires s.sz > 0
  {
    set p: int | b <= p < b + PG && LiveSlot(b, s, p)
  }

  // Free nodes and live slots together fill the page from the first slot to its end.
  ghost predicate Tiled(b: int, s: Slab)
    requires s.sz > 0
  {
    FreeBytes(s.free) + |LiveSlots(b, s)| * s.sz == PG - First(s.sz)
  }

  lemma AllocKeepsTiling(b: int, s: Slab)
    requires s.sz >= 16 && WellPlaced(b, s) && s.free != [] && Tiled(b, s)
    ensures Tiled(b, AfterAlloc(s))
  {
    var p := s.free[0].addr;
    AllocTakesOne(b, s, p);
    forall q ensures q in LiveSlots(b, AfterAlloc(s)) <==> q in LiveSlots(b, s) || q == p {
      AllocTakesOne(b, s, q);
    }
    assert LiveSlots(b, AfterAlloc(s)) == LiveSlots(b, s) + {p};
    Dist(|LiveSlots(b, s)|, 1, s.sz);
  }

  lemma {:induction false} FreeBytesInsert(free: seq<Node>, k: int, n: Node)
    requires 0 <= k <= |free|
    ensures FreeBytes(free[..k] + [n] + free[k..]) == FreeBytes(free) + n.size
  {
    if k == 0 {
      assert free[..0] + [n] + free[0..] == [n] + free;
    } else {
      FreeBytesInsert(free[1..], k - 1, n);
      assert (free[..k] + [n] + free[k..])[1..] == free[1..][..k - 1] + [n] + free[1..][k - 1..];
    }
  }

  lemma FreeKeepsTiling(b: int, s: Slab, p: int, k: int)
    requires s.sz >= 16 && WellPlaced(b, s) && LiveSlot(b, s, p) && InsertAt(s.free, p, k) && Tiled(b, s)
    ensures Tiled(b, AfterFree(s, p, k))
  {
    forall q ensures q in LiveSlots(b, AfterFree(s, p, k)) <==> q in LiveSlots(b, s) && q != p {
      FreeReleasesOne(b, s, p, k, q);
    }
    assert LiveSlots(b, AfterFree(s, p, k)) == LiveSlots(b, s) - {p};
    FreeBytesInsert(s.free, k, Node(p, s.sz));
    Dist(|LiveSlots(b, s)|, 1, s.sz);
  }
}
