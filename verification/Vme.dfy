/** The x86 virtual memory manager (abstract-machine/am/src/x86/qemu/vme.c). */
module Vme {
  import opened Arith
  import opened Bits
  import opened Options
  import opened VmeMmu
  import opened VmeTree
  import opened VmeSpace

  class AddrSpace {
    var pgsize: nat
    var area: Area
    var ptr: nat
    ghost var at: map<seq<int>, int>
    ghost var home: map<int, seq<int>>

    constructor () { pgsize, area, ptr, at, home := 0, Area(0, 0), 0, map[], map[]; }
  }

  // The pages of the subtree at path, and those behind the first k entries of the table at path.
  ghost predicate IsBelow(path: seq<int>, q: seq<int>, k: int) {
    |q| > |path| && q[..|path|] == path && 0 <= q[|path|] < k
  }

  ghost function Below(t: Tree, path: seq<int>, k: int): set<int> {
    set p | p in t.home && IsBelow(path, t.home[p], k)
  }

  ghost function Subtree(t: Tree, path: seq<int>): set<int> {
    set p | p in t.home && |t.home[p]| >= |path| && t.home[p][..|path|] == path
  }

  lemma SplitStep(path: seq<int>, q: seq<int>, k: int)
    ensures |q| > |path| && q[..|path| + 1] == path + [k] <==> |q| > |path| && q[..|path|] == path && q[|path|] == k
  {
    if |q| > |path| {
      assert q[..|path| + 1] == q[..|path|] + [q[|path|]];
      PathSteps(path, k);
    }
  }

  lemma NextSubtree(t: Tree, path: seq<int>, k: int)
    requires k >= 0
    ensures Below(t, path, k + 1) == Below(t, path, k) + Subtree(t, path + [k])
    ensures Below(t, path, k) !! Subtree(t, path + [k])
    ensures Subtree(t, path + [k]) <= Subtree(t, path)
  {
    var below, here, next := Below(t, path, k), Subtree(t, path + [k]), Below(t, path, k + 1);
    forall p | p in t.home
      ensures p in here <==> p in next && p !in below
      ensures p in below ==> p in next
      ensures p in here ==> p in Subtree(t, path)
    {
      SplitStep(path, t.home[p], k);
    }
    assert forall p :: p in next <==> p in below + here;
  }

  // Paths that go on below path are prefixed by a path of the tree.
  lemma {:induction false} PrefixIn(t: Tree, q: seq<int>, n: int)
    requires Shaped(t) && q in t.at && 0 <= n <= |q|
    ensures q[..n] in t.at
    decreases |q| - n
  {
    if n < |q| {
      PrefixIn(t, q, n + 1);
      assert Placed(t, q[..n + 1]);
      assert q[..n + 1][..n] == q[..n];
    } else {
      assert q[..n] == q;
    }
  }

  lemma MissingSubtree(t: Tree, path: seq<int>)
    requires Shaped(t) && path !in t.at
    ensures Subtree(t, path) == {}
  {
    forall p | p in t.home
      ensures p !in Subtree(t, path)
    {
      if p in Subtree(t, path) { PrefixIn(t, t.home[p], |path|); }
    }
  }

  lemma WholeSubtree(m: Mmu, t: Tree, path: seq<int>)
    requires MmuOk(m) && TreeOk(m, t) && path in t.at
    ensures t.at[path] !in Below(t, path, Pow2(m.bits))
    ensures Subtree(t, path) == Below(t, path, Pow2(m.bits)) + {t.at[path]}
  {
    assert Placed(t, path);
    forall p | p in t.home
      ensures p in Subtree(t, path) <==> p in Below(t, path, Pow2(m.bits)) || p == t.at[path]
    {
      var q := t.home[p];
      if p in Subtree(t, path) {
        if |q| > |path| {
          PrefixIn(t, q, |path| + 1);
          assert NodeOk(m, t, q[..|path| + 1]);
        } else {
          assert q == path;
        }
      }
    }
  }

  lemma DepthBound(m: Mmu, t: Tree, path: seq<int>)
    requires MmuOk(m) && TreeOk(m, t) && path in t.at
    ensures |path| < m.levels
  {
    assert NodeOk(m, t, path);
  }

  lemma NothingBefore(t: Tree, path: seq<int>)
    ensures Below(t, path, 0) == {}
  {
    forall p | p in t.home ensures p !in Below(t, path, 0) { assert !IsBelow(path, t.home[p], 0); }
  }

  lemma RootSubtree(t: Tree)
    ensures Subtree(t, []) == t.home.Keys
  {}

  // The tables at and below path are as they were in t.
  ghost predicate Untouched(t: Tree, mem: Memory, path: seq<int>) {
    forall p {:trigger p in Subtree(t, path)} :: p in Subtree(t, path) ==> p in t.mem && p in mem && mem[p] == t.mem[p]
  }

  lemma StillUntouched(m: Mmu, t: Tree, path: seq<int>, index: int, mem: Memory)
    requires MmuOk(m) && TreeOk(m, t) && path in t.at && 0 <= index < Pow2(m.bits) && Untouched(t, mem, path)
    ensures var now, pt := mem - Below(t, path, index), t.at[path];
      pt in t.mem && pt in now && now[pt] == t.mem[pt] && Untouched(t, now, path + [index])
  {
    NextSubtree(t, path, index);
    StillThere(m, t, path, index);
    WholeSubtree(m, t, path);
    assert t.at[path] in Subtree(t, path);
    var now := mem - Below(t, path, index);
    forall p | p in Subtree(t, path + [index])
      ensures p in t.mem && p in now && now[p] == t.mem[p]
    {
      assert p in Subtree(t, path);
    }
  }

  lemma AllUntouched(m: Mmu, t: Tree)
    requires MmuOk(m) && TreeOk(m, t)
    ensures Untouched(t, t.mem, []) && Outside(t) == t.mem - t.home.Keys
  {
    forall p | p in Subtree(t, [])
      ensures p in t.mem
    {
      TablesAreInMemory(m, t, p);
    }
  }

  lemma RootFits(m: Mmu, t: Tree)
    requires MmuOk(m) && TreeOk(m, t)
    ensures Pow2(m.word) >= PGSIZE && t.at[[]] > 0
    ensures var e := t.at[[]] + 5; Present(e) && User(e) && BaseOf(m, e) == t.at[[]]
  {
    assert NodeOk(m, t, []);
    WordHoldsPage(m);
    ReadOnlyEntry(t.at[[]]);
    BaseIs(m, t.at[[]] + 5);
  }

  // What pgfree does over time: the pages of gone leave memory for the pool, each freed once.
  ghost predicate Released(before: Held, after: Held, s: seq<int>, gone: set<int>) {
    && after.mem == before.mem - gone && after.pool == before.pool + gone
    && after.freed == before.freed + s && multiset(s) == multiset(gone)
  }

  datatype Held = Held(mem: Memory, pool: set<int>, freed: seq<int>)

  lemma ReleasedTwo(a: Held, b: Held, c: Held, s: seq<int>, s': seq<int>, gone: set<int>, gone': set<int>)
    requires Released(a, b, s, gone) && Released(b, c, s', gone') && gone !! gone'
    ensures Released(a, c, s + s', gone + gone')
  {
    assert multiset(gone + gone') == multiset(gone) + multiset(gone');
    assert (a.mem - gone) - gone' == a.mem - (gone + gone');
    assert (a.freed + s) + s' == a.freed + (s + s');
  }

  lemma ReleasedNone(a: Held)
    ensures Released(a, a, [], {})
  {}

  // The table at path and what is behind its entry index are not among what was freed before.
  lemma StillThere(m: Mmu, t: Tree, path: seq<int>, index: int)
    requires MmuOk(m) && TreeOk(m, t) && path in t.at && 0 <= index < Pow2(m.bits)
    ensures t.at[path] !in Below(t, path, index)
    ensures NodeOk(m, t, path) && Pow2(m.word) >= PGSIZE
    ensures var e := t.mem[t.at[path]][index];
      && (|path| + 1 < m.levels && Present(e) && User(e) ==>
            path + [index] in t.at && BaseOf(m, e) == t.at[path + [index]])
      && (|path| + 1 < m.levels && !(Present(e) && User(e)) ==> Subtree(t, path + [index]) == {})
      && (|path| + 1 == m.levels ==> Subtree(t, path + [index]) == {})
  {
    assert NodeOk(m, t, path) && EntryOk(m, t, path, index) && Placed(t, path);
    WordHoldsPage(m);
    if path + [index] in t.at {
      DepthBound(m, t, path + [index]);
      PointerFits(m, t, path, index);
    } else {
      MissingSubtree(t, path + [index]);
    }
  }

  // Words lo to k of the table upt have been copied from the table kpt.
  ghost predicate Copied(m: Mmu, was: Memory, mem: Memory, kpt: int, upt: int, lo: int, k: int) {
    && upt in was && |was[upt]| == Pow2(m.bits) && kpt in was && |was[kpt]| == Pow2(m.bits) && upt != kpt
    && upt in mem && |mem[upt]| == Pow2(m.bits) && mem == was[upt := mem[upt]]
    && (forall i {:trigger mem[upt][i]} :: 0 <= i < Pow2(m.bits) ==>
          mem[upt][i] == if lo <= i < k then was[kpt][i] else was[upt][i])
  }

  lemma CopiedNext(m: Mmu, was: Memory, now: Memory, mem: Memory, kpt: int, upt: int, lo: int, k: int)
    requires Copied(m, was, now, kpt, upt, lo, k) && 0 <= lo <= k < Pow2(m.bits)
    requires upt in mem && mem[upt] == now[upt][k := now[kpt][k]] && mem == now[upt := mem[upt]]
    ensures Copied(m, was, mem, kpt, upt, lo, k + 1)
  {
    assert now[kpt] == was[kpt];
    assert mem == was[upt := mem[upt]];
  }

  lemma FreshOutside(was: Memory, mem: Memory, upt: int)
    requires upt !in was && upt in mem && mem == was[upt := mem[upt]]
    ensures Outside(Fresh(mem, upt)) == was
  {}

  lemma CountTwo(s: seq<int>, i: nat, j: nat)
    requires i < j < |s| && s[i] == s[j]
    ensures multiset(s)[s[i]] >= 2
  {
    assert s == s[..j] + [s[j]] + s[j + 1..];
    assert s[i] in s[..j];
  }

  lemma OnceEach(s: seq<int>, gone: set<int>)
    requires multiset(s) == multiset(gone)
    ensures forall i, j :: 0 <= i < j < |s| ==> s[i] != s[j]
    ensures forall p :: p in s <==> p in gone
  {
    forall i, j | 0 <= i < j < |s|
      ensures s[i] != s[j]
    {
      if s[i] == s[j] { CountTwo(s, i, j); }
    }
    forall p
      ensures p in s <==> p in gone
    {
      assert p in s <==> p in multiset(s);
      assert p in multiset(gone) <==> p in gone;
    }
  }

  // What unprotect has freed (s) at the end of a run.
  ghost predicate Unprotected(end: Space, freed: seq<int>, last: Held, s: seq<int>) {
    Released(Held(end.tree.mem, end.pool, freed), last, s, end.tree.home.Keys)
  }

  // unprotect after protect and any run of maps and unmaps, others acting in between: it frees
  // exactly the tables, that is the root and the pages that the calls of map took, each once.
  // So it frees no page that somebody else holds, and not the kernel's table.
  lemma UnprotectFreesOwn(m: Mmu, kpt: int, ss: seq<Space>, es: seq<Event>, freed: seq<int>, last: Held, s: seq<int>)
    requires IsRun(m, kpt, ss, es) && Unprotected(ss[|es|], freed, last, s)
    requires forall va: nat :: InUser(m, va) ==> View(m, ss[0].tree, va) == None
    ensures forall i, j :: 0 <= i < j < |s| ==> s[i] != s[j]
    ensures forall p :: p in s <==> p in ss[0].tree.home || p in Took(ss, es)
    ensures kpt !in s && last.freed == freed + s
    ensures last.mem == Outside(ss[|es|].tree) && last.pool == ss[|es|].pool + ss[|es|].tree.home.Keys
  {
    RunRefinesMap(m, kpt, ss, es);
    var end := ss[|es|];
    AllUntouched(m, end.tree);
    OnceEach(s, end.tree.home.Keys);
    assert forall p :: p in end.tree.home.Keys <==> p in ss[0].tree.home.Keys + Took(ss, es);
  }

  // ... no page that somebody else has held since state k of the run ...
  lemma UnprotectSparesHeld(m: Mmu, kpt: int, ss: seq<Space>, es: seq<Event>, freed: seq<int>, last: Held, s: seq<int>,
                            k: nat, p: int)
    requires IsRun(m, kpt, ss, es) && Unprotected(ss[|es|], freed, last, s)
    requires k <= |es| && p !in ss[k].tree.home
    requires forall j {:trigger ss[j]} :: k <= j <= |es| ==> p !in ss[j].pool
    ensures p !in s
  {
    HeldPageSpared(m, kpt, ss, es, k, p);
    OnceEach(s, ss[|es|].tree.home.Keys);
  }

  // ... and no user page that is still mapped, if clients map pages that they own.
  lemma UnprotectSparesLeaves(m: Mmu, kpt: int, ss: seq<Space>, es: seq<Event>, freed: seq<int>, last: Held,
                              s: seq<int>, va: nat)
    requires Disciplined(m, kpt, ss, es) && Unprotected(ss[|es|], freed, last, s) && InUser(m, va)
    requires forall va: nat :: InUser(m, va) ==> View(m, ss[0].tree, va) == None
    ensures SpaceOk(m, kpt, ss[|es|])
    ensures var v := View(m, ss[|es|].tree, va); v.Some? ==> v.value.pa !in s
  {
    assert SpaceOk(m, kpt, ss[|es|]);
    LeafPagesSpared(m, kpt, ss, es, va);
    OnceEach(s, ss[|es|].tree.home.Keys);
  }

  // If nobody else acts, memory and pool are what they were before protect.
  lemma UnprotectUndoesRun(m: Mmu, kpt: int, ss: seq<Space>, es: seq<Event>, first: Held, freed: seq<int>, last: Held,
                           s: seq<int>)
    requires IsRun(m, kpt, ss, es) && Unprotected(ss[|es|], freed, last, s)
    requires forall k :: 0 <= k < |es| ==> es[k].Call?
    requires forall va: nat :: InUser(m, va) ==> View(m, ss[0].tree, va) == None
    requires Outside(ss[0].tree) == first.mem && ss[0].tree.home.Keys + ss[0].pool == first.pool
    ensures last.mem == first.mem && last.pool == first.pool
  {
    UnprotectFreesOwn(m, kpt, ss, es, freed, last, s);
    QuietRunFrames(m, kpt, ss, es);
    var end := ss[|es|];
    assert end.pool + end.tree.home.Keys == end.tree.home.Keys + end.pool;
  }

  // A slot of one of the first j kernel areas.
  ghost predicate Covered(m: Mmu, j: int, i: int)
    requires MmuOk(m) && j <= |m.kernel|
  {
    exists n {:trigger AreaIndex(m, m.kernel[n], i)} :: 0 <= n < j && AreaIndex(m, m.kernel[n], i)
  }

  class Vm {
    const m: Mmu
    const kpt: int
    var mem: Memory
    var pool: set<int>          // pages that pgalloc can still hand out
    ghost var freed: seq<int>   // calls of pgfree, in order

    constructor (m: Mmu, kpt: int, mem: Memory, pool: set<int>)
      ensures this.m == m && this.kpt == kpt && this.mem == mem && this.pool == pool && freed == []
    {
      this.m, this.kpt, this.mem, this.pool, this.freed := m, kpt, mem, pool, [];
    }

    ghost function State(space: AddrSpace): Space
      reads this, space
    {
      Space(Tree(mem, space.at, space.home), pool)
    }

    ghost predicate Valid(space: AddrSpace)
      reads this, space
    {
      && SpaceOk(m, kpt, State(space))
      && space.ptr == space.at[[]] + 5
    }

    // ------------------------------------------------------------------ pages

    ghost function Pages(): Held
      reads this
    {
      Held(mem, pool, freed)
    }

    method ClearPage(base: int)
      requires MmuOk(m) && base in mem && |mem[base]| == Pow2(m.bits)
      modifies `mem
      ensures mem == old(mem)[base := Zeros(m)]
    {
      var i := 0;
      while i < PGSIZE / (m.word / 8)
        invariant 0 <= i <= Pow2(m.bits)
        invariant base in mem && |mem[base]| == Pow2(m.bits) && mem == old(mem)[base := mem[base]]
        invariant forall j :: 0 <= j < i ==> mem[base][j] == 0
      {
        var cleared: seq<nat> := mem[base][i := 0];
        mem := mem[base := cleared];
        i := i + 1;
      }
      assert mem[base] == Zeros(m);
    }

    // pgallocz: whichever page pgalloc picks, cleared word by word; ok is false if it gives none.
    method PgAllocZ() returns (ok: bool, base: int)
      requires MmuOk(m) && PoolOk(m, mem, pool)
      modifies `mem, `pool
      ensures !ok ==> pool == old(pool) && mem == old(mem)
      ensures ok ==> base in old(pool) && pool == old(pool) - {base} && mem == old(mem)[base := Zeros(m)]
    {
      base := *;
      if base !in pool { return false, 0; }
      pool := pool - {base};
      assert |Zeros(m)| == Pow2(m.bits);
      var contents: seq<nat> :| |contents| == Pow2(m.bits);
      mem := mem[base := contents];
      ClearPage(base);
      return true, base;
    }

    method PgFree(p: int)
      requires p in mem
      modifies `mem, `pool, `freed
      ensures Released(old(Pages()), Pages(), [p], {p})
    {
      mem, pool, freed := mem - {p}, pool + {p}, freed + [p];
    }

    // ---------------------------------------------------------------- protect

    // protect's loop over one kernel area: the root takes over the kernel table's entries.
    method CopyArea(upt: int, a: Area)
      requires MmuOk(m) && AreaOk(m, a) && upt != kpt
      requires upt in mem && |mem[upt]| == Pow2(m.bits) && kpt in mem && |mem[kpt]| == Pow2(m.bits)
      modifies `mem
      ensures upt in mem && |mem[upt]| == Pow2(m.bits) && mem == old(mem)[upt := mem[upt]]
      ensures forall i: nat {:trigger AreaIndex(m, a, i)} :: i < Pow2(m.bits) ==>
        mem[upt][i] == if AreaIndex(m, a, i) then mem[kpt][i] else old(mem)[upt][i]
    {
      ghost var lo, hi := AreaSlots(m, a);
      ghost var k: nat := lo;
      var info := m.pgtables[1];
      var cur: nat := a.start;
      SlotBegin(m, a, lo, hi);
      while cur != a.end
        invariant lo <= k <= hi && AtSlot(m, cur, k)
        invariant Copied(m, old(mem), mem, kpt, upt, lo, k)
        decreases hi - k
      {
        SlotEnd(m, a, lo, hi, cur, k);
        SlotStep(m, cur, k);
        ghost var was := mem;
        var index := IndexOf(cur, info);
        SetWord(upt, index, mem[kpt][index]);
        CopiedNext(m, old(mem), was, mem, kpt, upt, lo, k);
        cur, k := Low(cur + Pow2(info.shift), m.word), k + 1;
      }
      SlotEnd(m, a, lo, hi, cur, k);
    }

    // protect's root: a new page with the kernel table's entries for the kernel areas.
    method NewRoot() returns (ok: bool, upt: int)
      requires MmuOk(m) && KernelTable(m, mem, kpt) && PoolOk(m, mem, pool)
      modifies `mem, `pool
      ensures !ok ==> mem == old(mem) && pool == old(pool)
      ensures ok ==> KernelTable(m, mem, kpt) && RootOf(m, mem, kpt, upt) && mem == old(mem)[upt := mem[upt]]
      ensures ok ==> upt in old(pool) && pool == old(pool) - {upt}
    {
      ok, upt := PgAllocZ();
      if !ok { return; }
      var j := 0;
      while j < |m.kernel|
        invariant 0 <= j <= |m.kernel| && pool == old(pool) - {upt}
        invariant upt in mem && |mem[upt]| == Pow2(m.bits) && mem == old(mem)[upt := mem[upt]]
        invariant forall i: nat {:trigger Covered(m, j, i)} :: i < Pow2(m.bits) ==>
          mem[upt][i] == if Covered(m, j, i) then mem[kpt][i] else 0
      {
        CopyArea(upt, m.kernel[j]);
        forall i: nat | i < Pow2(m.bits)
          ensures mem[upt][i] == if Covered(m, j + 1, i) then mem[kpt][i] else 0
        {
          assert AreaIndex(m, m.kernel[j], i) || Covered(m, j, i) <==> Covered(m, j + 1, i);
        }
        j := j + 1;
      }
      forall i: nat | i < Pow2(m.bits)
        ensures mem[upt][i] == if KernelIndex(m, i) then mem[kpt][i] else 0
      {
        assert Covered(m, |m.kernel|, i) <==> KernelIndex(m, i);
      }
    }

    // protect
    method Protect(space: AddrSpace) returns (ok: bool)
      requires MmuOk(m) && KernelTable(m, mem, kpt) && PoolOk(m, mem, pool)
      modifies `mem, `pool, space
      ensures !ok ==> mem == old(mem) && pool == old(pool)
      ensures ok ==> Valid(space) && space.pgsize == PGSIZE && space.area == m.uvm
      ensures ok ==> forall va: nat {:trigger View(m, State(space).tree, va)} ::
        InUser(m, va) ==> View(m, State(space).tree, va) == None
      ensures ok ==> Outside(State(space).tree) == old(mem) && space.home.Keys + pool == old(pool)
    {
      var upt;
      ok, upt := NewRoot();
      if !ok { return; }
      space.pgsize, space.area := PGSIZE, m.uvm;
      space.ptr := Or(Or(upt, PTE_P), PTE_U);
      space.at, space.home := map[[] := upt], map[upt := []];
      TableEntryIs(upt);
      FreshIsTree(m, mem, kpt, upt);
      FreshOutside(old(mem), mem, upt);
      forall va: nat | InUser(m, va)
        ensures View(m, State(space).tree, va) == None
      {
        FreshMapsNothing(m, mem, kpt, upt, va);
      }
    }

    // *ptentry = e
    method SetWord(page: int, index: nat, e: nat)
      requires page in mem && index < |mem[page]|
      modifies `mem
      ensures var entries: seq<nat> := old(mem)[page][index := e]; mem == old(mem)[page := entries]
    {
      var entries: seq<nat> := mem[page][index := e];
      mem := mem[page := entries];
    }

    // -------------------------------------------------------------------- map

    // ptwalk's step from the table at path on the way to the table behind its entry index.
    method NextTable(space: AddrSpace, cur: int, index: nat, ghost addr: nat, ghost i: int)
      returns (ok: bool, next: int)
      requires Valid(space) && InUser(m, addr) && 1 <= i < m.levels && Path(m, addr)[..i - 1] in space.at
      requires cur == space.at[Path(m, addr)[..i - 1]] && index == IndexOf(addr, m.pgtables[i])
      modifies `mem, `pool, space`at, space`home
      ensures Valid(space) && Grown(m, kpt, old(State(space)), State(space))
      ensures old(Path(m, addr)[..i] in space.at) ==> ok && State(space) == old(State(space))
      ensures ok ==> Path(m, addr)[..i] in space.at && next == space.at[Path(m, addr)[..i]]
    {
      ghost var s, path, below := State(space), Path(m, addr)[..i - 1], Path(m, addr)[..i];
      PointsDown(m, kpt, s, addr, i);
      if !Present(mem[cur][index]) {
        ok, next := PgAllocZ();
        if !ok { return; }
        RoomBelow(m, kpt, s, addr, i, next);
        TakeTable(m, kpt, s, path, index, next);
        TableEntryIs(next);
        var entries: seq<nat> := mem[cur][index := TableEntry(next, Or(PTE_W, PTE_U))];
        mem := mem[cur := entries];
        space.at, space.home := space.at[below := next], space.home[next := below];
        assert State(space) == TableTaken(m, s, path, index, next);
      } else {
        return true, BaseOf(m, mem[cur][index]);
      }
    }

    // ptwalk with flags PTE_W | PTE_U. Its level 0 reads the table address from space.ptr, which
    // protect has made present. The entry it returns is word index of the table at page.
    method PtWalk(space: AddrSpace, addr: nat) returns (ok: bool, page: int, index: nat)
      requires Valid(space) && InUser(m, addr)
      modifies `mem, `pool, space`at, space`home
      ensures Valid(space) && Grown(m, kpt, old(State(space)), State(space))
      ensures old(Path(m, addr)[..m.levels - 1] in space.at) ==> ok && State(space) == old(State(space))
      ensures ok ==> Path(m, addr)[..m.levels - 1] in space.at
      ensures ok ==> page == space.at[Path(m, addr)[..m.levels - 1]] && index == Path(m, addr)[m.levels - 1]
    {
      ghost var full, s0 := Path(m, addr), State(space);
      RootFits(m, State(space).tree);
      var cur, i := BaseOf(m, space.ptr), 1;
      while i < m.levels
        invariant 1 <= i <= m.levels && Valid(space) && space.ptr == old(space.ptr)
        invariant full[..i - 1] in space.at && cur == space.at[full[..i - 1]]
        invariant Grown(m, kpt, s0, State(space))
        invariant full[..m.levels - 1] in s0.tree.at ==> State(space) == s0
      {
        ghost var s := State(space);
        if full[..m.levels - 1] in s0.tree.at && full[..i] !in s0.tree.at { MissingBelow(m, s0.tree, addr, i); }
        ok, cur := NextTable(space, cur, IndexOf(addr, m.pgtables[i]), addr, i);
        GrownTransitive(m, kpt, s0, s, State(space));
        if !ok { return false, 0, 0; }
        i := i + 1;
      }
      return true, cur, IndexOf(addr, m.pgtables[m.levels]);
    }

    // map, once ptwalk has found the entry.
    method WriteEntry(space: AddrSpace, page: int, index: nat, q: Request) returns (r: Outcome)
      requires Valid(space) && Reached(m, State(space).tree, q)
      requires page == space.at[Path(m, q.va)[..m.levels - 1]] && index == Path(m, q.va)[m.levels - 1]
      modifies `mem
      ensures Valid(space)
      ensures r == NotMapped <==> q.prot == MMAP_NONE && old(View(m, State(space).tree, q.va)) == None
      ensures r == AlreadyMapped <==> q.prot != MMAP_NONE && old(View(m, State(space).tree, q.va)) != None
      ensures r == Done || r == NotMapped || r == AlreadyMapped
      ensures r != Done ==> mem == old(mem)
      ensures r == Done ==> MapStep(m, kpt, old(State(space)), State(space), q)
      ensures r == Done ==> Path(m, q.va)[..m.levels - 1] in space.at
    {
      ghost var s := State(space);
      MayWrite(m, s.tree, q);
      assert mem[page][index] == UserEntry(m, s.tree, q.va);
      if q.prot == MMAP_NONE {
        if !Present(mem[page][index]) { return NotMapped; }
        WriteIsMap(m, kpt, s, q);
        SetWord(page, index, 0);
      } else {
        if Present(mem[page][index]) { return AlreadyMapped; }
        WriteIsMap(m, kpt, s, q);
        var pte := Or(Or(Or(q.pa, PTE_P), PTE_U), if And(q.prot, MMAP_WRITE) != 0 then PTE_W else 0);
        SetWord(page, index, pte);
      }
      return Done;
    }

    // map. Addresses are words; every outcome but Done is a panic.
    method Map(space: AddrSpace, va: nat, pa: nat, prot: nat) returns (r: Outcome)
      requires Valid(space) && va < Pow2(m.word) && pa < Pow2(m.word)
      modifies `mem, `pool, space`at, space`home
      ensures Valid(space)
      ensures r == OutsideArea <==> !InUser(m, va)
      ensures r == Misaligned <==> InUser(m, va) && (va % PGSIZE != 0 || pa % PGSIZE != 0)
      ensures r != Done ==> Grown(m, kpt, old(State(space)), State(space))
      ensures r == NotMapped ==> prot == MMAP_NONE && old(View(m, State(space).tree, va)) == None
      ensures r == AlreadyMapped ==> prot != MMAP_NONE && old(View(m, State(space).tree, va)) != None
      ensures r == NoMemory ==> old(Path(m, va)[..m.levels - 1] !in space.at)
      ensures r == Done ==> MapStep(m, kpt, old(State(space)), State(space), Request(va, pa, prot))
    {
      if !(m.uvm.start <= va && va < m.uvm.end) { return OutsideArea; }
      WordHoldsPage(m); BaseIs(m, va); BaseIs(m, pa);
      if va != BaseOf(m, va) || pa != BaseOf(m, pa) { return Misaligned; }
      ghost var s0 := State(space);
      var q := Request(va, pa, prot);
      var ok, page, index := PtWalk(space, va);
      if !ok { return NoMemory; }
      ghost var s := State(space);
      r := WriteEntry(space, page, index, q);
      assert View(m, s.tree, va) == View(m, s0.tree, va) by {
        assert UserEntry(m, s.tree, va) == UserEntry(m, s0.tree, va);
      }
      if r == Done {
        GrownThenStep(m, kpt, s0, s, State(space), q);
        ok, page, index := PtWalk(space, va);
      }
    }

    // --------------------------------------------------------------- teardown

    // teardown: frees the table pt and every table below it, each once. Below the last level it
    // is called with data pages, which it does not touch.
    method Teardown(level: int, pt: int, ghost t: Tree, ghost path: seq<int>) returns (ghost s: seq<int>)
      requires MmuOk(m) && TreeOk(m, t) && 1 <= level <= m.levels + 1
      requires level <= m.levels ==> path in t.at && pt == t.at[path] && |path| == level - 1
      requires level <= m.levels ==> Untouched(t, mem, path)
      modifies `mem, `pool, `freed
      ensures Released(old(Pages()), Pages(), s, if level <= m.levels then Subtree(t, path) else {})
      decreases m.levels + 1 - level, 2
    {
      s := [];
      ReleasedNone(Pages());
      if level > m.levels { return; }
      WholeSubtree(m, t, path);
      ghost var before := Pages();
      s := TeardownEntries(level, pt, t, path);
      ghost var now := Pages();
      PgFree(pt);
      ReleasedTwo(before, now, Pages(), s, [pt], Below(t, path, Pow2(m.bits)), {pt});
      s := s + [pt];
    }

    // teardown's loop over the entries of the table pt.
    method TeardownEntries(level: int, pt: int, ghost t: Tree, ghost path: seq<int>) returns (ghost s: seq<int>)
      requires MmuOk(m) && TreeOk(m, t) && 1 <= level <= m.levels
      requires path in t.at && pt == t.at[path] && |path| == level - 1 && Untouched(t, mem, path)
      modifies `mem, `pool, `freed
      ensures Released(old(Pages()), Pages(), s, Below(t, path, Pow2(m.bits))) && pt in mem
      decreases m.levels + 1 - level, 1
    {
      s := [];
      assert LevelOk(m, level);
      WholeSubtree(m, t, path);
      assert pt in Subtree(t, path);
      NothingBefore(t, path);
      ReleasedNone(Pages());
      ghost var before := Pages();
      var index := 0;
      while index < Pow2(m.pgtables[level].bits)
        invariant 0 <= index <= Pow2(m.bits)
        invariant Released(before, Pages(), s, Below(t, path, index))
      {
        ghost var now := Pages();
        NextSubtree(t, path, index);
        StillUntouched(m, t, path, index, before.mem);
        ghost var more := TeardownEntry(level, pt, index, t, path);
        ReleasedTwo(before, now, Pages(), s, more, Below(t, path, index), Subtree(t, path + [index]));
        s, index := s + more, index + 1;
      }
    }

    // teardown's step at entry index of the table pt.
    method TeardownEntry(level: int, pt: int, index: int, ghost t: Tree, ghost path: seq<int>)
      returns (ghost s: seq<int>)
      requires MmuOk(m) && TreeOk(m, t) && 1 <= level <= m.levels && 0 <= index < Pow2(m.bits)
      requires path in t.at && pt == t.at[path] && |path| == level - 1
      requires pt in t.mem && pt in mem && mem[pt] == t.mem[pt]
      requires Untouched(t, mem, path + [index])
      modifies `mem, `pool, `freed
      ensures Released(old(Pages()), Pages(), s, Subtree(t, path + [index]))
      decreases m.levels + 1 - level, 0
    {
      s := [];
      ReleasedNone(Pages());
      StillThere(m, t, path, index);
      if Present(mem[pt][index]) && User(mem[pt][index]) {
        s := Teardown(level + 1, BaseOf(m, mem[pt][index]), t, path + [index]);
      }
    }

    // unprotect: level 0 of teardown, whose one entry is space.ptr.
    method Unprotect(space: AddrSpace) returns (ghost s: seq<int>)
      requires Valid(space)
      modifies `mem, `pool, `freed
      ensures Released(old(Pages()), Pages(), s, space.home.Keys)
      ensures mem == Outside(old(State(space)).tree) && kpt in mem
    {
      ghost var t := State(space).tree;
      RootFits(m, t);
      RootSubtree(t);
      AllUntouched(m, t);
      s := [];
      if Present(space.ptr) && User(space.ptr) {
        s := Teardown(1, BaseOf(m, space.ptr), t, []);
      }
    }
  }
}
