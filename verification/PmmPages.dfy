/** The page allocator of the physical memory manager (kernel/src/pmm.c): a table with one
    entry per 64 KiB page, scanned first-fit for aligned runs. */
module PmmPages {
  import opened Arith
  import opened Bits

  const PG := 65536          // GPAGE_SZ
  const META_SZ := 8192
  const META_BYTES := 24     // sizeof(meta_t)
  const MAX_PAGES := 256     // MAX_ALLOC / GPAGE_SZ
  const WORD := 0x1_0000_0000_0000_0000  // size_t and uintptr_t have 64 bits

  // The page counts that kalloc asks for: the powers of two up to MAX_PAGES.
  ghost predicate PageCount(n: int) { exists k: nat {:trigger Pow2(k)} :: k <= 8 && n == Pow2(k) }

  function RoundDown(a: int, sz: int): int
    requires sz > 0
  {
    a - a % sz
  }

  function RoundUp(a: int, sz: int): int
    requires sz > 0
  {
    RoundDown(a + sz - 1, sz)
  }

  // ROUNDDOWN and ROUNDUP of klib-macros.h are written with a mask.
  function MaskDown(a: nat, sz: nat): nat
    requires 0 < sz <= WORD
  {
    And(a, WORD - sz)
  }

  function MaskUp(a: nat, sz: nat): nat
    requires 0 < sz <= WORD
  {
    MaskDown(a + sz - 1, sz)
  }

  // For a power of two the mask takes off the remainder.
  lemma RoundDownIsMask(a: nat, k: nat, p: nat)
    requires a < WORD && k <= 64 && p == Pow2(k)
    ensures p <= WORD && MaskDown(a, p) == RoundDown(a, p)
  {
    assert Pow2(64) == WORD by { Pow2Values(); }
    AndComplement(a, 64, k);
    ShrIsDiv(a, k);
  }

  lemma CountIsPower(n: int) returns (k: nat)
    requires PageCount(n)
    ensures k <= 8 && n == Pow2(k) && n * PG == Pow2(16 + k)
  {
    k :| k <= 8 && n == Pow2(k);
    assert Pow2(16) == PG by { Pow2Values(); }
    Pow2Add(16, k);
  }

  datatype MetaEntry = MetaEntry(start: int, end: int, isAlloc: bool, isSlab: bool)

  // A live block of n pages.
  datatype Run = Run(n: int, isSlab: bool)

  // Pages i, ..., i + n - 1 are marked free.
  ghost predicate FreeRun(m: seq<MetaEntry>, i: int, n: int) {
    0 <= i && i + n <= |m| && forall j :: i <= j < i + n ==> !m[j].isAlloc
  }

  // The table after marking pages i, ..., i + n - 1 as one block.
  ghost function Marked(m: seq<MetaEntry>, i: int, n: int, e: int, isSlab: bool): (r: seq<MetaEntry>)
    requires 0 <= i && 0 <= n && i + n <= |m|
    ensures |r| == |m|
    ensures forall j :: 0 <= j < |m| ==>
      r[j] == (if i <= j < i + n then m[j].(isAlloc := true, isSlab := isSlab, end := e) else m[j])
  {
    seq(|m|, j requires 0 <= j < |m| =>
      if i <= j < i + n then m[j].(isAlloc := true, isSlab := isSlab, end := e) else m[j])
  }

  // The table after freeing pages i, ..., i + n - 1; is_slab keeps its old value.
  ghost function Cleared(m: seq<MetaEntry>, i: int, n: int): (r: seq<MetaEntry>)
    requires 0 <= i && 0 <= n && i + n <= |m|
    ensures |r| == |m|
    ensures forall j :: 0 <= j < |m| ==>
      r[j] == (if i <= j < i + n then m[j].(isAlloc := false, end := 0) else m[j])
  {
    seq(|m|, j requires 0 <= j < |m| => if i <= j < i + n then m[j].(isAlloc := false, end := 0) else m[j])
  }

  ghost predicate InBlock(blocks: map<int, Run>, i: int, j: int) {
    i in blocks && i <= j < i + blocks[i].n
  }

  // The table m pictures the set of live blocks, page by page. Entries from nMeta on hold what the
  // memory held; those that happen to read as allocated are the stale ones.
  ghost predicate Picture(m: seq<MetaEntry>, gStart: int, nMeta: int, blocks: map<int, Run>, stale: set<int>) {
    && 0 <= nMeta <= |m|
    && (forall i :: i in blocks ==> 0 <= i < nMeta && blocks[i].n > 0 && i + blocks[i].n <= |m|)
    && (forall i, j :: i in blocks && j in blocks && i < j ==> i + blocks[i].n <= j)
    && (forall i, j :: InBlock(blocks, i, j) ==>
          m[j].isAlloc && m[j].isSlab == blocks[i].isSlab && m[j].end == gStart + (i + blocks[i].n) * PG && j !in stale)
    && (forall j :: 0 <= j < |m| && m[j].isAlloc && j !in stale ==> exists i :: InBlock(blocks, i, j))
    && (forall j {:trigger j in stale} :: j in stale ==> nMeta <= j < |m| && m[j].isAlloc)
    && (forall j :: 0 <= j < nMeta ==> m[j].start == gStart + j * PG)
  }

  // A run is free in the table exactly if it keeps clear of every block and of stale entries.
  lemma FreeRunIsNew(m: seq<MetaEntry>, gStart: int, nMeta: int, blocks: map<int, Run>, stale: set<int>, i: int, n: int)
    requires Picture(m, gStart, nMeta, blocks, stale) && 0 <= i && n > 0 && i + n <= |m|
    ensures FreeRun(m, i, n) <==>
      (forall k :: k in blocks ==> k + blocks[k].n <= i || i + n <= k) && (forall j :: i <= j < i + n ==> j !in stale)
    ensures FreeRun(m, i, n) ==> i !in blocks
  {
    if FreeRun(m, i, n) {
      forall k | k in blocks
        ensures k + blocks[k].n <= i || i + n <= k
      {
        if k < i < k + blocks[k].n { assert InBlock(blocks, k, i); }
        if i <= k < i + n { assert InBlock(blocks, k, k); }
      }
    } else {
      var j :| i <= j < i + n && m[j].isAlloc;
      if j !in stale { var k :| InBlock(blocks, k, j); }
    }
  }

  lemma PictureAfterAlloc(m: seq<MetaEntry>, gStart: int, nMeta: int, blocks: map<int, Run>, stale: set<int>,
                          i: int, n: int, isSlab: bool)
    requires Picture(m, gStart, nMeta, blocks, stale)
    requires 0 <= i < nMeta && n > 0 && FreeRun(m, i, n)
    ensures i !in blocks
    ensures Picture(Marked(m, i, n, gStart + (i + n) * PG, isSlab), gStart, nMeta, blocks[i := Run(n, isSlab)], stale)
  {
    FreeRunIsNew(m, gStart, nMeta, blocks, stale, i, n);
    var m' := Marked(m, i, n, gStart + (i + n) * PG, isSlab);
    var blocks' := blocks[i := Run(n, isSlab)];
    forall k, j | InBlock(blocks', k, j)
      ensures m'[j].isAlloc && m'[j].isSlab == blocks'[k].isSlab && m'[j].end == gStart + (k + blocks'[k].n) * PG
      ensures j !in stale
    {
      if k != i { assert InBlock(blocks, k, j); }
    }
    forall j | 0 <= j < |m'| && m'[j].isAlloc && j !in stale
      ensures exists k :: InBlock(blocks', k, j)
    {
      if i <= j < i + n {
        assert InBlock(blocks', i, j);
      } else {
        var k :| InBlock(blocks, k, j);
        assert InBlock(blocks', k, j);
      }
    }
  }

  lemma PictureAfterFree(m: seq<MetaEntry>, gStart: int, nMeta: int, blocks: map<int, Run>, stale: set<int>, i: int)
    requires Picture(m, gStart, nMeta, blocks, stale) && i in blocks
    ensures Picture(Cleared(m, i, blocks[i].n), gStart, nMeta, blocks - {i}, stale)
  {
    var n := blocks[i].n;
    var m', blocks' := Cleared(m, i, n), blocks - {i};
    forall k, j | InBlock(blocks', k, j)
      ensures m'[j].isAlloc && m'[j].isSlab == blocks'[k].isSlab && m'[j].end == gStart + (k + blocks'[k].n) * PG
      ensures j !in stale
    {
      assert InBlock(blocks, k, j);
    }
    forall j | 0 <= j < |m'| && m'[j].isAlloc && j !in stale
      ensures exists k :: InBlock(blocks', k, j)
    {
      var k :| InBlock(blocks, k, j);
      assert k != i;
      assert InBlock(blocks', k, j);
    }
  }

  lemma MultipleGap(x: int, y: int, n: int)
    requires n > 0 && x % n == 0 && y % n == 0 && x < y
    ensures x + n <= y
  {
    var q, p := x / n, y / n;
    assert x == n * q && y == n * p;
    Dist(p, q, n);
    MulAtLeast(n, p - q);
    if p <= q { MulMono(0, q - p, n); }
  }

  // Rounding up to a multiple of n pages, in pages and in bytes.
  lemma RoundUpPages(p: int, n: int)
    requires p >= 0 && n > 0
    ensures RoundUp(p * PG, n * PG) == RoundUp(p, n) * PG
    ensures p <= RoundUp(p, n) < p + n && RoundUp(p, n) % n == 0
  {
    var a := p + n - 1;
    var q, r := a / n, a % n;
    assert a == n * q + r;
    assert (n * PG) * q == (n * q) * PG;
    DivUnique(p * PG + n * PG - 1, n * PG, q, r * PG + PG - 1);
    DivUnique(n * q, n, q, 0);
  }

  class Pages {
    const gStart: int   // G_start
    const nMeta: int    // n_meta
    const meta: array<MetaEntry>
    ghost const stale: set<int>
    ghost var blocks: map<int, Run>

    // The page numbers are those of memory, counted from address 0.
    ghost function Page0(): int { gStart / PG }

    ghost predicate Valid()
      reads this, meta
    {
      && gStart > 0 && gStart % PG == 0 && gStart + META_SZ * PG <= WORD
      && meta.Length == META_SZ
      && Picture(meta[..], gStart, nMeta, blocks, stale)
    }

    // try_alloc reads the table up to n - 1 entries past a candidate's first page.
    ghost predicate TableCovers(n: int) {
      n > 0 && ((Page0() + nMeta) % n == 0 || nMeta + n - 1 <= META_SZ)
    }

    // Candidates for a block of n pages are the pages on a multiple of n pages of memory.
    ghost predicate Candidate(i: int, n: int)
      requires n > 0
    {
      0 <= i < nMeta && (Page0() + i) % n == 0
    }

    ghost predicate NoneFreeBelow(m: seq<MetaEntry>, i: int, n: int)
      requires n > 0
    {
      forall q :: q < i && Candidate(q, n) ==> !FreeRun(m, q, n)
    }

    ghost predicate LowestFree(m: seq<MetaEntry>, i: int, n: int)
      requires n > 0
    {
      Candidate(i, n) && FreeRun(m, i, n) && NoneFreeBelow(m, i, n)
    }

    // meta_init; the loop reaching the table's end is the C code's assert(0).
    constructor (heapStart: int, heapEnd: int)
      requires heapStart > 0
      requires heapEnd < RoundUp(heapStart + META_BYTES * META_SZ, PG) + META_SZ * PG <= WORD
      ensures Valid() && blocks == map[] && fresh(meta)
      ensures heapStart + META_BYTES * META_SZ <= gStart == RoundUp(heapStart + META_BYTES * META_SZ, PG)
      ensures nMeta > 0 ==> gStart + nMeta * PG <= heapEnd < gStart + (nMeta + 1) * PG
      ensures nMeta == 0 <==> heapEnd < gStart + PG
    {
      var g := RoundUp(heapStart + META_BYTES * META_SZ, PG);
      var m := new MetaEntry[META_SZ];
      var i := 0;
      while i < META_SZ && g + (i + 1) * PG <= heapEnd
        invariant 0 <= i <= META_SZ
        invariant i > 0 ==> g + i * PG <= heapEnd
        invariant forall j :: 0 <= j < i ==> m[j] == MetaEntry(g + j * PG, 0, false, false)
      {
        m[i] := MetaEntry(g + i * PG, 0, false, false);
        i := i + 1;
      }
      gStart, nMeta, meta, blocks := g, i, m, map[];
      stale := set j | i <= j < META_SZ && m[j].isAlloc;
      new;
      assert forall j :: 0 <= j < nMeta ==> !meta[..][j].isAlloc;
    }

    function MetaIndex(p: int): int { (p - gStart) / PG }

    predicate IsValidRet(p: int) { gStart <= p < gStart + nMeta * PG }

    method TryAlloc(ret: int, sz: int) returns (ok: bool)
      requires Valid() && IsValidRet(ret) && (ret - gStart) % PG == 0
      requires sz > 0 && sz % PG == 0 && MetaIndex(ret) + sz / PG <= META_SZ
      ensures ok == FreeRun(meta[..], MetaIndex(ret), sz / PG)
    {
      var id, nPg := MetaIndex(ret), sz / PG;
      for i := 0 to nPg
        invariant forall j :: id <= j < id + i ==> !meta[..][j].isAlloc
      {
        if meta[id + i].isAlloc {
          assert meta[..][id + i].isAlloc;
          return false;
        }
      }
      return true;
    }

    method SlowAlloc(ret: int, sz: int, isSlab: bool)
      requires Valid() && IsValidRet(ret) && (ret - gStart) % PG == 0
      requires sz > 0 && sz % PG == 0 && FreeRun(meta[..], MetaIndex(ret), sz / PG)
      modifies meta, `blocks
      ensures Valid() && meta[..] == Marked(old(meta[..]), MetaIndex(ret), sz / PG, ret + sz, isSlab)
      ensures MetaIndex(ret) !in old(blocks) && blocks == old(blocks)[MetaIndex(ret) := Run(sz / PG, isSlab)]
    {
      var id, nPg := MetaIndex(ret), sz / PG;
      ghost var m0 := meta[..];
      for i := 0 to nPg
        invariant meta[..] == Marked(m0, id, i, ret + sz, isSlab) && blocks == old(blocks)
      {
        assert meta[..][id + i] == m0[id + i];
        meta[id + i] := meta[id + i].(isAlloc := true, isSlab := isSlab, end := ret + sz);
      }
      PictureAfterAlloc(m0, gStart, nMeta, blocks, stale, id, nPg, isSlab);
      blocks := blocks[id := Run(nPg, isSlab)];
      PagesToBytes(ret, id, nPg, sz);
      assert Picture(meta[..], gStart, nMeta, blocks, stale);
    }

    lemma PagesToBytes(ret: int, id: int, n: int, sz: int)
      requires (ret - gStart) % PG == 0 && id == MetaIndex(ret) && sz % PG == 0 && n == sz / PG
      ensures gStart + (id + n) * PG == ret + sz
    {}

    // One turn of the loop of g_alloc: take the run at tryRet if it is free.
    method TryTake(tryRet: int, npage: int, isSlab: bool, ghost i: int) returns (ok: bool)
      requires Valid() && TableCovers(npage) && Candidate(i, npage) && tryRet == gStart + i * PG
      requires NoneFreeBelow(meta[..], i, npage)
      modifies meta, `blocks
      ensures Valid() && (ok ==> Taken(old(meta[..]), old(blocks), tryRet, npage, isSlab))
      ensures !ok ==> meta[..] == old(meta[..]) && blocks == old(blocks)
      ensures !ok ==> NoneFreeBelow(meta[..], i + npage, npage) && (Page0() + (i + npage)) % npage == 0
    {
      LastCandidate(i, npage);
      AddressOfPage(i, npage);
      ok := TryAlloc(tryRet, npage * PG);
      if ok {
        SlowAlloc(tryRet, npage * PG, isSlab);
      } else {
        NoneFreeStep(meta[..], i, npage);
      }
    }

    // The lowest free run was marked in table m0 and added to the blocks b0.
    ghost predicate Taken(m0: seq<MetaEntry>, b0: map<int, Run>, ret: int, n: int, isSlab: bool)
      requires n > 0
      reads this, meta
    {
      var i := MetaIndex(ret);
      && ret == gStart + i * PG && ret % PG == 0 && ret % (n * PG) == 0
      && LowestFree(m0, i, n)
      && i !in b0 && blocks == b0[i := Run(n, isSlab)]
      && meta[..] == Marked(m0, i, n, ret + n * PG, isSlab)
    }

    // ROUNDUP(G_start, sz)
    method FirstTry(npage: int) returns (tryRet: int)
      requires Valid() && PageCount(npage)
      ensures npage > 0 && tryRet == RoundUp(gStart, npage * PG)
    {
      ghost var k := CountIsPower(npage);
      SmallCount(npage, k);
      RoundDownIsMask(gStart + npage * PG - 1, 16 + k, npage * PG);
      tryRet := MaskUp(gStart, npage * PG);
    }

    lemma SmallCount(n: int, k: nat)
      requires k <= 8 && n == Pow2(k)
      ensures 0 < n <= MAX_PAGES && n * PG <= META_SZ * PG <= WORD
    {
      assert Pow2(8) == MAX_PAGES by { Pow2Values(); }
      Pow2Mono(k, 8);
    }

    // First fit: the lowest aligned run of free pages, or 0 (NULL) if there is none.
    method GAlloc(npage: int, isSlab: bool) returns (ret: int)
      requires Valid() && TableCovers(npage) && PageCount(npage)
      modifies meta, `blocks
      ensures Valid()
      ensures ret == 0 ==> meta[..] == old(meta[..]) && blocks == old(blocks)
      ensures ret == 0 ==> NoneFreeBelow(old(meta[..]), nMeta, npage)
      ensures ret != 0 ==> Taken(old(meta[..]), old(blocks), ret, npage, isSlab)
    {
      var sz := npage * PG;
      var tryRet := FirstTry(npage);
      RoundUpPages(Page0(), npage);
      ghost var i := RoundUp(Page0(), npage) - Page0();
      NoneFreeAtStart(meta[..], npage);
      while IsValidRet(tryRet)
        invariant tryRet == gStart + i * PG && 0 <= i && (Page0() + i) % npage == 0
        invariant NoneFreeBelow(meta[..], i, npage)
        invariant Valid() && meta[..] == old(meta[..]) && blocks == old(blocks)
        decreases nMeta - i
      {
        var ok := TryTake(tryRet, npage, isSlab, i);
        if ok {
          return tryRet;
        }
        tryRet, i := tryRet + sz, i + npage;
      }
      return 0;
    }

    lemma AddressOfPage(i: int, n: int)
      requires n > 0 && gStart % PG == 0 && (Page0() + i) % n == 0
      ensures (gStart + i * PG) % (n * PG) == 0 && (gStart + i * PG) % PG == 0
      ensures MetaIndex(gStart + i * PG) == i
    {
      PagesAligned(Page0() + i, n);
      assert gStart == Page0() * PG;
    }

    lemma NoneFreeStep(m: seq<MetaEntry>, i: int, n: int)
      requires n > 0 && (Page0() + i) % n == 0 && NoneFreeBelow(m, i, n) && !FreeRun(m, i, n)
      ensures NoneFreeBelow(m, i + n, n) && (Page0() + (i + n)) % n == 0
    {
      forall q | q < i + n && Candidate(q, n)
        ensures !FreeRun(m, q, n)
      {
        if q > i { MultipleGap(Page0() + i, Page0() + q, n); }
      }
      NextMultiple(Page0() + i, n);
    }

    lemma NoneFreeAtStart(m: seq<MetaEntry>, n: int)
      requires n > 0 && gStart >= 0
      ensures NoneFreeBelow(m, RoundUp(Page0(), n) - Page0(), n)
    {
      forall q | Candidate(q, n)
        ensures q >= RoundUp(Page0(), n) - Page0()
      {
        FirstCandidate(q, n);
      }
    }

    lemma FirstCandidate(i: int, n: int)
      requires n > 0 && Candidate(i, n) && gStart >= 0
      ensures Page0() + i >= RoundUp(Page0(), n)
    {
      RoundUpPages(Page0(), n);
      if Page0() + i < RoundUp(Page0(), n) { MultipleGap(Page0() + i, RoundUp(Page0(), n), n); }
    }

    // A candidate's last page lies in the table.
    lemma LastCandidate(i: int, n: int)
      requires TableCovers(n) && Candidate(i, n) && nMeta <= META_SZ
      ensures i + n <= META_SZ
    {
      if (Page0() + nMeta) % n == 0 { MultipleGap(Page0() + i, Page0() + nMeta, n); }
    }

    // Frees the block that starts at ptr; freeing anything else is a client error.
    method GFree(ptr: int)
      requires Valid() && (ptr - gStart) % PG == 0
      requires MetaIndex(ptr) in blocks && !blocks[MetaIndex(ptr)].isSlab
      modifies meta, `blocks
      ensures Valid() && blocks == old(blocks) - {MetaIndex(ptr)}
      ensures meta[..] == Cleared(old(meta[..]), MetaIndex(ptr), old(blocks)[MetaIndex(ptr)].n)
    {
      var id := MetaIndex(ptr);
      ghost var m0 := meta[..];
      assert InBlock(blocks, id, id);
      var freeEnd := meta[id].end;
      var nPg := (freeEnd - ptr) / PG;
      for i := 0 to nPg
        invariant meta[..] == Cleared(m0, id, i) && blocks == old(blocks)
      {
        assert InBlock(blocks, id, id + i);
        assert meta[..][id + i] == m0[id + i];
        meta[id + i] := meta[id + i].(isAlloc := false, end := 0);
      }
      PictureAfterFree(m0, gStart, nMeta, blocks, stale, id);
      blocks := blocks - {id};
    }
  }

  lemma RoundDownMultiple(x: int, n: int)
    requires n > 0 && x >= 0
    ensures RoundDown(x, n) % n == 0 && x - n < RoundDown(x, n) <= x
  {
    assert x == n * (x / n) + x % n;
    DivUnique(n * (x / n), n, x / n, 0);
  }

  lemma NextMultiple(x: int, n: int)
    requires n > 0 && x % n == 0
    ensures (x + n) % n == 0
  {
    assert x == n * (x / n);
    DivUnique(x + n, n, x / n + 1, 0);
  }

  lemma PagesAligned(p: int, n: int)
    requires n > 0 && p % n == 0
    ensures (p * PG) % (n * PG) == 0
  {
    var q := p / n;
    assert p == n * q;
    assert p * PG == (n * PG) * q;
    DivUnique(p * PG, n * PG, q, 0);
  }

  // A multiple of n pages of memory is a page whose number is a multiple of n.
  lemma AlignedPages(a: int, n: int)
    requires n > 0 && a % (n * PG) == 0
    ensures a % PG == 0 && a / PG % n == 0
  {
    var q := a / (n * PG);
    assert a == (n * PG) * q;
    Assoc(n, PG, q);
    DivUnique(a, PG, n * q, 0);
    DivUnique(n * q, n, q, 0);
  }
}
