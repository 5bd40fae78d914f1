/** An address space (abstract-machine/am/src/x86/qemu/vme.c): its table tree next to the
    kernel table that it shares and the pages that pgalloc has left. */
module VmeSpace {
  import opened Arith
  import opened Bits
  import opened Options
  import opened VmeMmu
  import opened VmeTree

  const MMAP_NONE := 0
  const MMAP_WRITE := 2

  datatype Space = Space(tree: Tree, pool: set<int>)

  // baseof: addr & ~(pgsize - 1)
  function BaseOf(m: Mmu, addr: nat): nat
    requires Pow2(m.word) >= PGSIZE
  {
    And(addr, Pow2(m.word) - PGSIZE)
  }

  lemma BaseIs(m: Mmu, addr: nat)
    requires m.word >= 12 && addr < Pow2(m.word)
    ensures Pow2(m.word) >= PGSIZE && BaseOf(m, addr) == addr - addr % PGSIZE
  {
    assert Pow2(12) == PGSIZE by { Powers(); }
    AndComplement(addr, m.word, 12);
    ShrIsDiv(addr, 12);
  }

  lemma WordHoldsPage(m: Mmu)
    requires MmuOk(m)
    ensures m.word >= 12 && Pow2(m.word) >= PGSIZE
  {
    assert Pow2(12) == PGSIZE by { Powers(); }
    Pow2Mono(12, m.word);
  }

  predicate InUser(m: Mmu, va: nat) { m.uvm.start <= va < m.uvm.end }

  // ---------------------------------------------------------------- the invariant

  // The root has the kernel table's entries at the kernel areas.
  ghost predicate SharesKernel(m: Mmu, t: Tree, kpt: int)
    requires MmuOk(m) && TreeOk(m, t)
  {
    && kpt in t.mem && |t.mem[kpt]| == Pow2(m.bits) && kpt !in t.home
    && (forall i {:trigger KernelIndex(m, i)} ::
          0 <= i < Pow2(m.bits) && KernelIndex(m, i) ==> EntryAt(m, t, [], i) == t.mem[kpt][i])
  }

  // What pgalloc returns next is a page that nobody uses.
  ghost predicate PoolOk(m: Mmu, mem: Memory, pool: set<int>) {
    forall p {:trigger p in pool} :: p in pool ==> PageOk(m, p) && p !in mem
  }

  ghost predicate SpaceOk(m: Mmu, kpt: int, s: Space) {
    MmuOk(m) && TreeOk(m, s.tree) && SharesKernel(m, s.tree, kpt) && PoolOk(m, s.tree.mem, s.pool)
  }

  // Everything that is not a table of this address space.
  ghost function Outside(t: Tree): Memory { map p | p in t.mem && p !in t.home :: t.mem[p] }

  // Tables come from the pool; nothing else changes.
  ghost predicate Frame(s: Space, s': Space) {
    && Outside(s'.tree) == Outside(s.tree)
    && s'.tree.home.Keys + s'.pool == s.tree.home.Keys + s.pool
    && s.tree.home.Keys <= s'.tree.home.Keys
    && [] in s.tree.at && [] in s'.tree.at && s'.tree.at[[]] == s.tree.at[[]]
  }

  // New tables, but the same entry for every address.
  ghost predicate Grown(m: Mmu, kpt: int, s: Space, s': Space)
    requires SpaceOk(m, kpt, s) && SpaceOk(m, kpt, s')
  {
    && Frame(s, s')
    && (forall va: nat {:trigger UserEntry(m, s'.tree, va)} :: UserEntry(m, s'.tree, va) == UserEntry(m, s.tree, va))
  }

  lemma GrownTransitive(m: Mmu, kpt: int, s: Space, s': Space, s'': Space)
    requires SpaceOk(m, kpt, s) && SpaceOk(m, kpt, s') && SpaceOk(m, kpt, s'')
    requires Grown(m, kpt, s, s') && Grown(m, kpt, s', s'')
    ensures Grown(m, kpt, s, s'')
  {
    forall va: nat
      ensures UserEntry(m, s''.tree, va) == UserEntry(m, s.tree, va)
    {
      assert UserEntry(m, s''.tree, va) == UserEntry(m, s'.tree, va);
    }
  }

  lemma TablesAreInMemory(m: Mmu, t: Tree, p: int)
    requires MmuOk(m) && TreeOk(m, t) && p in t.home
    ensures p in t.mem && t.home[p] in t.at && t.at[t.home[p]] == p && NodeOk(m, t, t.home[p])
  {
    assert t.home[p] in t.at;
    assert NodeOk(m, t, t.home[p]);
  }

  // Address space with a page taken from the pool as a new table.
  ghost function TableTaken(m: Mmu, s: Space, path: seq<int>, i: int, p: int): Space
    requires path in s.tree.at && s.tree.at[path] in s.tree.mem && 0 <= i < |s.tree.mem[s.tree.at[path]]| && p >= 0
  {
    Space(TableAdded(m, s.tree, path, i, p), s.pool - {p})
  }

  ghost predicate CanTake(m: Mmu, kpt: int, s: Space, path: seq<int>, i: int, p: int) {
    && SpaceOk(m, kpt, s) && p in s.pool && path in s.tree.at && |path| + 1 < m.levels && 0 <= i < Pow2(m.bits)
    && !Present(EntryAt(m, s.tree, path, i)) && !(path == [] && KernelIndex(m, i))
  }

  lemma TakenCanAdd(m: Mmu, kpt: int, s: Space, path: seq<int>, i: int, p: int)
    requires CanTake(m, kpt, s, path, i, p)
    ensures CanAdd(m, s.tree, path, i, p) && NodeOk(m, s.tree, path) && p > 0
  {
    assert NodeOk(m, s.tree, path);
    if p in s.tree.home { TablesAreInMemory(m, s.tree, p); }
  }

  lemma TakeFrame(m: Mmu, kpt: int, s: Space, path: seq<int>, i: int, p: int)
    requires CanTake(m, kpt, s, path, i, p)
    ensures NodeOk(m, s.tree, path) && p > 0 && Frame(s, TableTaken(m, s, path, i, p))
  {
    TakenCanAdd(m, kpt, s, path, i, p);
    assert Placed(s.tree, path);
    var s' := TableTaken(m, s, path, i, p);
    assert s'.tree.home.Keys == s.tree.home.Keys + {p};
    assert Outside(s'.tree) == Outside(s.tree);
  }

  lemma TakeTable(m: Mmu, kpt: int, s: Space, path: seq<int>, i: int, p: int)
    requires CanTake(m, kpt, s, path, i, p)
    ensures NodeOk(m, s.tree, path) && p > 0
    ensures var s' := TableTaken(m, s, path, i, p); SpaceOk(m, kpt, s') && Grown(m, kpt, s, s')
  {
    TakenCanAdd(m, kpt, s, path, i, p);
    AddTable(m, s.tree, path, i, p);
    TakeFrame(m, kpt, s, path, i, p);
    TakeShares(m, kpt, s, path, i, p);
  }

  lemma TakeShares(m: Mmu, kpt: int, s: Space, path: seq<int>, i: int, p: int)
    requires CanTake(m, kpt, s, path, i, p) && NodeOk(m, s.tree, path) && p > 0
    requires TreeOk(m, TableTaken(m, s, path, i, p).tree)
    ensures SharesKernel(m, TableTaken(m, s, path, i, p).tree, kpt)
  {
    var t, t' := s.tree, TableTaken(m, s, path, i, p).tree;
    assert NodeOk(m, t, []) && Placed(t, []) && Placed(t, path) && NodeOk(m, t', []);
    forall j | 0 <= j < Pow2(m.bits) && KernelIndex(m, j)
      ensures EntryAt(m, t', [], j) == t'.mem[kpt][j]
    {
      assert EntryAt(m, t, [], j) == t.mem[kpt][j];
    }
  }

  // ---------------------------------------------------------- a new address space

  // The kernel areas use these level-1 slots.
  ghost predicate Slots(m: Mmu, a: Area, lo: nat, hi: nat)
    requires MmuOk(m)
  {
    var unit := Pow2(m.pgtables[1].shift);
    a.start == lo * unit && AreaEnd(m, a) == hi * unit && lo < hi <= Pow2(m.bits)
  }

  lemma Multiple(x: nat, unit: nat) returns (k: nat)
    requires unit > 0 && x % unit == 0
    ensures x == k * unit
  {
    k := x / unit;
  }

  // The slots fill the address space.
  lemma SlotTop(m: Mmu)
    requires MmuOk(m)
    ensures Pow2(m.bits) * Pow2(m.pgtables[1].shift) == Pow2(12 + m.bits * m.levels) <= Pow2(m.word)
  {
    TopShift(m);
    Pow2Add(m.pgtables[1].shift, m.bits);
    Commute(Pow2(m.bits), Pow2(m.pgtables[1].shift));
    Pow2Mono(12 + m.bits * m.levels, m.word);
  }

  lemma AreaBounds(m: Mmu, a: Area) returns (lo: nat, hi: nat)
    requires MmuOk(m) && AreaOk(m, a)
    ensures Slots(m, a, lo, hi)
  {
    var unit := Pow2(m.pgtables[1].shift);
    lo := Multiple(a.start, unit);
    hi := Multiple(AreaEnd(m, a), unit);
    SlotOrder(lo, hi, unit);
    SlotTop(m);
    SlotOrder(Pow2(m.bits), hi, unit);
  }

  lemma AreaSlots(m: Mmu, a: Area) returns (lo: nat, hi: nat)
    requires MmuOk(m) && AreaOk(m, a)
    ensures Slots(m, a, lo, hi)
    ensures forall i: nat {:trigger AreaIndex(m, a, i)} :: AreaIndex(m, a, i) <==> lo <= i < hi
  {
    var unit := Pow2(m.pgtables[1].shift);
    lo, hi := AreaBounds(m, a);
    forall i: nat
      ensures AreaIndex(m, a, i) <==> lo <= i < hi
    {
      SlotOrder(i, lo, unit); SlotOrder(i, hi, unit);
    }
  }

  lemma SlotOrder(i: nat, j: nat, unit: nat)
    requires unit > 0
    ensures i < j <==> i * unit < j * unit
  {
    if i < j { MulMono(i + 1, j, unit); Dist(i, 1, unit); } else { MulMono(j, i, unit); }
  }

  // An address as an unsigned word: the end of the address space is 0.
  function Wrapped(m: Mmu, x: nat): nat { if x == Pow2(m.word) then 0 else x }

  // Where slot k starts.
  ghost function SlotAt(unit: nat, k: nat): nat { if k == 0 then 0 else SlotAt(unit, k - 1) + unit }

  lemma {:induction false} SlotAtIs(unit: nat, k: nat)
    ensures SlotAt(unit, k) == k * unit
  {
    if k > 0 { SlotAtIs(unit, k - 1); Dist(k, 1, unit); }
  }

  // protect's loop variable, k slots from the start of the address space.
  ghost predicate AtSlot(m: Mmu, cur: nat, k: nat)
    requires MmuOk(m)
  {
    cur == Wrapped(m, SlotAt(Pow2(m.pgtables[1].shift), k))
  }

  // protect's step to the next slot, as the machine adds.
  lemma SlotStep(m: Mmu, cur: nat, k: nat)
    requires MmuOk(m) && k < Pow2(m.bits) && AtSlot(m, cur, k)
    ensures IndexOf(cur, m.pgtables[1]) == k
    ensures AtSlot(m, Low(cur + Pow2(m.pgtables[1].shift), m.word), k + 1)
  {
    var unit := Pow2(m.pgtables[1].shift);
    SlotTop(m);
    SlotAtIs(unit, k); SlotAtIs(unit, k + 1);
    SlotOrder(k, Pow2(m.bits), unit);
    FirstIndex(m, k * unit);
    Parts(k * unit, m.pgtables[1].shift, k, 0);
    SlotOrder(Pow2(m.bits), k + 1, unit);
    LowOf(m.word, SlotAt(unit, k + 1), Pow2(m.bits) * unit);
  }

  // protect's loop over an area starts at its first slot.
  lemma SlotBegin(m: Mmu, a: Area, lo: nat, hi: nat)
    requires MmuOk(m) && AreaOk(m, a) && Slots(m, a, lo, hi)
    ensures AtSlot(m, a.start, lo)
  {
    SlotAtIs(Pow2(m.pgtables[1].shift), lo);
    Pow2Mono(12 + m.bits * m.levels, m.word);
  }

  lemma LowOf(w: nat, x: nat, top: nat)
    requires top <= Pow2(w) && x <= top
    ensures Low(x, w) == if x == Pow2(w) then 0 else x
  {
    if x == Pow2(w) { Parts(x, w, 1, 0); } else { Parts(x, w, 0, x); }
  }

  // ... and stops at its last slot and not before.
  lemma SlotEnd(m: Mmu, a: Area, lo: nat, hi: nat, cur: nat, k: nat)
    requires MmuOk(m) && AreaOk(m, a) && Slots(m, a, lo, hi) && lo <= k <= hi && AtSlot(m, cur, k)
    ensures cur == a.end <==> k == hi
  {
    var unit := Pow2(m.pgtables[1].shift);
    SlotAtIs(unit, k);
    SlotOrder(k, hi, unit);
    SlotOrder(lo, k, unit);
    Pow2Mono(12 + m.bits * m.levels, m.word);
  }

  // Kernel entries carry no PTE_U.
  ghost predicate KernelTable(m: Mmu, mem: Memory, kpt: int)
    requires MmuOk(m)
  {
    && kpt in mem && |mem[kpt]| == Pow2(m.bits)
    && (forall i {:trigger KernelIndex(m, i)} ::
          0 <= i < Pow2(m.bits) && KernelIndex(m, i) && Present(mem[kpt][i]) ==> !User(mem[kpt][i]))
  }

  // The root that protect builds.
  ghost predicate RootOf(m: Mmu, mem: Memory, kpt: int, upt: int)
    requires MmuOk(m) && KernelTable(m, mem, kpt)
  {
    && upt in mem && |mem[upt]| == Pow2(m.bits)
    && (forall i {:trigger KernelIndex(m, i)} ::
          0 <= i < Pow2(m.bits) ==> mem[upt][i] == if KernelIndex(m, i) then mem[kpt][i] else 0)
  }

  ghost function Fresh(mem: Memory, upt: int): Tree { Tree(mem, map[[] := upt], map[upt := []]) }

  lemma FreshIsTree(m: Mmu, mem: Memory, kpt: int, upt: int)
    requires MmuOk(m) && KernelTable(m, mem, kpt) && RootOf(m, mem, kpt, upt) && PageOk(m, upt) && upt != kpt
    ensures TreeOk(m, Fresh(mem, upt)) && SharesKernel(m, Fresh(mem, upt), kpt)
  {
    var t := Fresh(mem, upt);
    forall i | 0 <= i < Pow2(m.bits)
      ensures EntryOk(m, t, [], i)
    {
      var here := KernelIndex(m, i);
      assert [] + [i] !in t.at;
      EntryBits(0);
    }
    assert NodeOk(m, t, []);
    assert Placed(t, []);
  }

  lemma FreshMapsNothing(m: Mmu, mem: Memory, kpt: int, upt: int, va: nat)
    requires MmuOk(m) && KernelTable(m, mem, kpt) && RootOf(m, mem, kpt, upt) && PageOk(m, upt) && upt != kpt
    requires InUser(m, va)
    ensures TreeOk(m, Fresh(mem, upt)) && View(m, Fresh(mem, upt), va) == None
  {
    FreshIsTree(m, mem, kpt, upt);
    UserIndexIsNoKernel(m, va);
    PathInRange(m, va, 0);
    EntryBits(0);
    assert |Path(m, va)[..m.levels - 1]| == m.levels - 1;
  }

  // ptwalk at level i on the way to a user address: the entry points to the next table, or the
  // next table can go there.
  lemma PointsDown(m: Mmu, kpt: int, s: Space, va: nat, i: int)
    requires SpaceOk(m, kpt, s) && InUser(m, va) && 1 <= i < m.levels && Path(m, va)[..i - 1] in s.tree.at
    ensures var path, index := Path(m, va)[..i - 1], IndexOf(va, m.pgtables[i]);
      && s.tree.at[path] in s.tree.mem && index < |s.tree.mem[s.tree.at[path]]|
      && Path(m, va)[..i] == path + [index]
      && var e := s.tree.mem[s.tree.at[path]][index];
      && (Present(e) <==> Path(m, va)[..i] in s.tree.at)
      && Pow2(m.word) >= PGSIZE
      && (Present(e) ==> BaseOf(m, e) == s.tree.at[Path(m, va)[..i]])
  {
    UserIndexIsNoKernel(m, va);
    StepDown(m, s.tree, va, i);
    WordHoldsPage(m);
    var path, index := Path(m, va)[..i - 1], Path(m, va)[i - 1];
    PathInRange(m, va, i - 1);
    assert Path(m, va)[..i] == path + [index];
    if path + [index] in s.tree.at { PointerFits(m, s.tree, path, index); }
  }

  lemma PointerFits(m: Mmu, t: Tree, path: seq<int>, i: int)
    requires MmuOk(m) && TreeOk(m, t) && path in t.at && path + [i] in t.at
    requires |path| + 1 < m.levels && 0 <= i < Pow2(m.bits)
    ensures NodeOk(m, t, path) && Pow2(m.word) >= PGSIZE
    ensures var e := t.mem[t.at[path]][i]; Present(e) && User(e) && BaseOf(m, e) == t.at[path + [i]]
  {
    assert NodeOk(m, t, path) && EntryOk(m, t, path, i) && NodeOk(m, t, path + [i]);
    WordHoldsPage(m);
    PointerEntry(t.at[path + [i]]);
    BaseIs(m, t.at[path + [i]] + 7);
  }

  lemma RoomBelow(m: Mmu, kpt: int, s: Space, va: nat, i: int, p: int)
    requires SpaceOk(m, kpt, s) && InUser(m, va) && 1 <= i < m.levels && Path(m, va)[..i - 1] in s.tree.at
    requires Path(m, va)[..i] !in s.tree.at && p in s.pool
    ensures CanTake(m, kpt, s, Path(m, va)[..i - 1], IndexOf(va, m.pgtables[i]), p)
  {
    PointsDown(m, kpt, s, va, i);
    UserIndexIsNoKernel(m, va);
    PathInRange(m, va, i - 1);
    assert NodeOk(m, s.tree, Path(m, va)[..i - 1]);
  }

  // ------------------------------------------------------------------ the user map

  datatype Mapping = Mapping(pa: nat, w: bool)

  // The physical page and the right to write that a user address has.
  ghost function View(m: Mmu, t: Tree, va: nat): Option<Mapping>
    requires MmuOk(m) && TreeOk(m, t)
  {
    var e := UserEntry(m, t, va);
    if Present(e) then Some(Mapping(e - e % PGSIZE, Writable(e))) else None
  }

  lemma LeafFacts(pa: nat, w: bool)
    requires pa % PGSIZE == 0
    ensures var e := LeafEntry(pa, w);
      Present(e) && User(e) && (Writable(e) <==> w) && e - e % PGSIZE == pa
  {
    LeafEntryIs(pa, w);
    PointerEntry(pa);
    ReadOnlyEntry(pa);
  }

  lemma ReadOnlyEntry(pa: nat)
    requires pa % PGSIZE == 0
    ensures Present(pa + 5) && User(pa + 5) && !Writable(pa + 5) && (pa + 5) % PGSIZE == 5
  {
    ReadOnlyBits(pa, pa / PGSIZE);
    FlagBit(pa + 5, 0, 1); FlagBit(pa + 5, 1, 2); FlagBit(pa + 5, 2, 4);
  }

  lemma ReadOnlyBits(pa: nat, q: nat)
    requires pa == 4096 * q
    ensures (pa + 5) % 2 == 1 && (pa + 5) / 2 % 2 == 0 && (pa + 5) / 4 % 2 == 1 && (pa + 5) % 4096 == 5
  {
    DivUnique(pa + 5, 2, 2048 * q + 2, 1); DivUnique(2048 * q + 2, 2, 1024 * q + 1, 0);
    DivUnique(pa + 5, 4, 1024 * q + 1, 1); DivUnique(1024 * q + 1, 2, 512 * q, 1);
    DivUnique(pa + 5, 4096, q, 5);
  }

  // All bytes of a page are found by the same indices.
  lemma PathOfPage(m: Mmu, va: nat)
    requires MmuOk(m)
    ensures Path(m, va) == Path(m, va - va % PGSIZE)
  {
    var base := va - va % PGSIZE;
    forall j | 0 <= j < m.levels
      ensures Path(m, va)[j] == Path(m, base)[j]
    {
      assert LevelOk(m, j + 1);
      var k := m.pgtables[j + 1].shift;
      MulNonneg(m.bits, m.levels - (j + 1));
      IndexIs(m, va, j + 1); IndexIs(m, base, j + 1);
      SamePage(va, k);
    }
  }

  lemma MulNonneg(a: nat, b: nat)
    ensures a * b >= 0
  {}

  lemma SamePage(va: nat, k: nat)
    requires k >= 12
    ensures Shr(va, k) == Shr(va - va % PGSIZE, k)
  {
    assert Pow2(12) == PGSIZE by { Powers(); }
    ShrIsDiv(va, 12); ShrIsDiv(va - va % PGSIZE, 12);
    ShrShr(va, 12, k - 12); ShrShr(va - va % PGSIZE, 12, k - 12);
  }

  lemma SameTables(m: Mmu, va: nat, vb: nat)
    requires MmuOk(m) && InUser(m, va) && InUser(m, vb) && va % PGSIZE == 0
    ensures Path(m, vb) == Path(m, va) <==> vb - vb % PGSIZE == va
  {
    UserIndexIsNoKernel(m, va); UserIndexIsNoKernel(m, vb);
    PathOfPage(m, vb);
    PageBase(vb);
    var base := vb - vb % PGSIZE;
    if Path(m, base) == Path(m, va) { PathUnique(m, va, base); }
  }

  lemma PageBase(va: nat)
    ensures 0 <= va - va % PGSIZE <= va && (va - va % PGSIZE) % PGSIZE == 0
  {}

  ghost function EntrySet(s: Space, path: seq<int>, i: int, e: nat): Space
    requires path in s.tree.at && s.tree.at[path] in s.tree.mem && 0 <= i < |s.tree.mem[s.tree.at[path]]|
  {
    s.(tree := LeafSet(s.tree, path, i, e))
  }

  lemma SetEntryFrame(m: Mmu, kpt: int, s: Space, path: seq<int>, i: int, e: nat)
    requires SpaceOk(m, kpt, s) && CanSet(m, s.tree, path, i, e)
    ensures NodeOk(m, s.tree, path) && Frame(s, EntrySet(s, path, i, e))
    ensures SpaceOk(m, kpt, EntrySet(s, path, i, e))
  {
    var t := s.tree;
    assert NodeOk(m, t, path) && Placed(t, path);
    SetLeaf(m, t, path, i, e);
    var t' := EntrySet(s, path, i, e).tree;
    assert Outside(t') == Outside(t);
    assert NodeOk(m, t, []) && Placed(t, []) && NodeOk(m, t', []);
    forall j | 0 <= j < Pow2(m.bits) && KernelIndex(m, j)
      ensures EntryAt(m, t', [], j) == t'.mem[kpt][j]
    {
      assert EntryAt(m, t, [], j) == t.mem[kpt][j];
    }
  }

  // --------------------------------------------------------------- calls of map

  datatype Request = Request(va: nat, pa: nat, prot: nat)

  // How a call of map ends; all but Done are panics.
  datatype Outcome = Done | OutsideArea | Misaligned | NotMapped | AlreadyMapped | NoMemory

  // What a user address is mapped to once the request is done.
  ghost function Mapped(m: Mmu, q: Request, old_: Option<Mapping>, va: nat): Option<Mapping> {
    if va - va % PGSIZE != q.va then old_
    else if q.prot == MMAP_NONE then None
    else Some(Mapping(q.pa, And(q.prot, MMAP_WRITE) != 0))
  }

  // The request changes the mapping of its own page only.
  ghost predicate MapStep(m: Mmu, kpt: int, s: Space, s': Space, q: Request) {
    && SpaceOk(m, kpt, s) && SpaceOk(m, kpt, s') && Frame(s, s')
    && InUser(m, q.va) && q.va % PGSIZE == 0 && q.pa % PGSIZE == 0
    && (View(m, s.tree, q.va) == None <==> q.prot != MMAP_NONE)
    && (forall va: nat {:trigger View(m, s'.tree, va)} :: InUser(m, va) ==>
          View(m, s'.tree, va) == Mapped(m, q, View(m, s.tree, va), va))
  }

  // The entry that map writes for a request.
  function NewEntry(q: Request): nat {
    if q.prot == MMAP_NONE then 0 else LeafEntry(q.pa, And(q.prot, MMAP_WRITE) != 0)
  }

  lemma NewEntryFacts(q: Request)
    requires q.pa % PGSIZE == 0
    ensures Present(NewEntry(q)) <==> q.prot != MMAP_NONE
    ensures Present(NewEntry(q)) ==> User(NewEntry(q)) && NewEntry(q) - NewEntry(q) % PGSIZE == q.pa
    ensures Present(NewEntry(q)) ==> (Writable(NewEntry(q)) <==> And(q.prot, MMAP_WRITE) != 0)
  {
    LeafFacts(q.pa, And(q.prot, MMAP_WRITE) != 0);
    EntryBits(0);
  }

  ghost predicate Reached(m: Mmu, t: Tree, q: Request)
    requires MmuOk(m)
  {
    InUser(m, q.va) && q.va % PGSIZE == 0 && q.pa % PGSIZE == 0 && Path(m, q.va)[..m.levels - 1] in t.at
  }

  lemma MayWrite(m: Mmu, t: Tree, q: Request)
    requires MmuOk(m) && TreeOk(m, t) && Reached(m, t, q)
    ensures var path := Path(m, q.va)[..m.levels - 1];
      CanSet(m, t, path, Path(m, q.va)[m.levels - 1], NewEntry(q)) && NodeOk(m, t, path)
  {
    NewEntryFacts(q);
    UserIndexIsNoKernel(m, q.va);
    PathInRange(m, q.va, m.levels - 1);
    assert NodeOk(m, t, Path(m, q.va)[..m.levels - 1]);
  }

  lemma WrittenView(m: Mmu, t: Tree, q: Request, va: nat)
    requires MmuOk(m) && TreeOk(m, t) && Reached(m, t, q) && InUser(m, va)
    ensures var path, i := Path(m, q.va)[..m.levels - 1], Path(m, q.va)[m.levels - 1];
      && CanSet(m, t, path, i, NewEntry(q)) && NodeOk(m, t, path)
      && TreeOk(m, LeafSet(t, path, i, NewEntry(q)))
      && View(m, LeafSet(t, path, i, NewEntry(q)), va) == Mapped(m, q, View(m, t, va), va)
  {
    var path, i := Path(m, q.va)[..m.levels - 1], Path(m, q.va)[m.levels - 1];
    MayWrite(m, t, q);
    SetLeaf(m, t, path, i, NewEntry(q));
    SetEntry(m, t, path, i, NewEntry(q), va);
    assert Path(m, q.va) == path + [i];
    SameTables(m, q.va, va);
    NewEntryFacts(q);
  }

  lemma WriteIsMap(m: Mmu, kpt: int, s: Space, q: Request)
    requires SpaceOk(m, kpt, s) && Reached(m, s.tree, q)
    requires Present(UserEntry(m, s.tree, q.va)) <==> q.prot == MMAP_NONE
    ensures var path, i := Path(m, q.va)[..m.levels - 1], Path(m, q.va)[m.levels - 1];
      && CanSet(m, s.tree, path, i, NewEntry(q)) && NodeOk(m, s.tree, path)
      && MapStep(m, kpt, s, EntrySet(s, path, i, NewEntry(q)), q)
  {
    var path, i := Path(m, q.va)[..m.levels - 1], Path(m, q.va)[m.levels - 1];
    MayWrite(m, s.tree, q);
    SetEntryFrame(m, kpt, s, path, i, NewEntry(q));
    forall va: nat | InUser(m, va)
      ensures View(m, EntrySet(s, path, i, NewEntry(q)).tree, va) == Mapped(m, q, View(m, s.tree, va), va)
    {
      WrittenView(m, s.tree, q, va);
    }
  }

  lemma GrownThenStep(m: Mmu, kpt: int, s: Space, s': Space, s'': Space, q: Request)
    requires SpaceOk(m, kpt, s) && SpaceOk(m, kpt, s') && Grown(m, kpt, s, s') && MapStep(m, kpt, s', s'', q)
    ensures MapStep(m, kpt, s, s'', q)
  {
    forall va: nat | InUser(m, va)
      ensures View(m, s''.tree, va) == Mapped(m, q, View(m, s.tree, va), va)
    {
      assert UserEntry(m, s'.tree, va) == UserEntry(m, s.tree, va);
      assert View(m, s''.tree, va) == Mapped(m, q, View(m, s'.tree, va), va);
    }
    assert UserEntry(m, s'.tree, q.va) == UserEntry(m, s.tree, q.va);
  }

  // ------------------------------------------------------ what the hardware sees

  // The MMU translates a user address exactly as the view says.
  lemma UserTranslation(m: Mmu, kpt: int, s: Space, va: nat)
    requires SpaceOk(m, kpt, s) && InUser(m, va)
    ensures var hit := Walk(m, s.tree.mem, s.tree.at[[]], 1, va);
      match View(m, s.tree, va)
      case None => hit == None
      case Some(v) =>
        hit.Some? && hit.value.entry - hit.value.entry % PGSIZE == v.pa && hit.value.w == v.w && hit.value.u
  {
    UserIndexIsNoKernel(m, va);
    assert Path(m, va)[..0] == [];
    WalkFindsUserEntry(m, s.tree, va, 1);
  }

  // A kernel address is translated as by the kernel's own table.
  lemma KernelTranslation(m: Mmu, kpt: int, s: Space, va: nat)
    requires SpaceOk(m, kpt, s) && KernelIndex(m, Path(m, va)[0])
    ensures Walk(m, s.tree.mem, s.tree.at[[]], 1, va) == Walk(m, s.tree.mem, kpt, 1, va)
  {
    PathInRange(m, va, 0);
    var i := IndexOf(va, m.pgtables[1]);
    assert i == Path(m, va)[0];
    assert NodeOk(m, s.tree, []);
    assert EntryAt(m, s.tree, [], i) == s.tree.mem[kpt][i];
  }

  // Every address of a kernel area is one of those.
  lemma KernelAddress(m: Mmu, kpt: int, s: Space, j: nat, va: nat)
    requires SpaceOk(m, kpt, s) && j < |m.kernel| && va < Pow2(m.word)
    requires m.kernel[j].start <= va && (va < m.kernel[j].end || m.kernel[j].end == 0)
    ensures Walk(m, s.tree.mem, s.tree.at[[]], 1, va) == Walk(m, s.tree.mem, kpt, 1, va)
  {
    var k, i := m.pgtables[1].shift, IndexOf(va, m.pgtables[1]);
    FirstIndex(m, va);
    Split(va, k);
    SlotStart(m.kernel[j].start, va, i, Pow2(k), Low(va, k));
    assert AreaIndex(m, m.kernel[j], i);
    KernelTranslation(m, kpt, s, va);
  }

  // What the hardware finds: the page, the right to write, for user code.
  ghost predicate Finds(hit: Option<Hit>, pa: nat, w: bool) {
    hit.Some? && hit.value.entry - hit.value.entry % PGSIZE == pa && hit.value.w == w && hit.value.u
  }

  // A call of map, as the hardware sees it: the addresses of its page are not mapped any more, or
  // mapped to pa, writable exactly if bit 1 of prot is set; all other user addresses are
  // translated as before.
  lemma MapMeans(m: Mmu, kpt: int, s: Space, s': Space, q: Request, va: nat)
    requires MapStep(m, kpt, s, s', q) && InUser(m, va)
    ensures var was, now := Walk(m, s.tree.mem, s.tree.at[[]], 1, va), Walk(m, s'.tree.mem, s'.tree.at[[]], 1, va);
      if q.va <= va < q.va + PGSIZE then
        if q.prot == 0 then now == None else Finds(now, q.pa, q.prot / 2 % 2 == 1)
      else
        && (now == None <==> was == None)
        && (was.Some? ==> Finds(now, was.value.entry - was.value.entry % PGSIZE, was.value.w))
  {
    UserTranslation(m, kpt, s, va);
    UserTranslation(m, kpt, s', va);
    assert View(m, s'.tree, va) == Mapped(m, q, View(m, s.tree, va), va);
    MappedMeans(m, q, View(m, s.tree, va), va);
  }

  lemma MappedMeans(m: Mmu, q: Request, before: Option<Mapping>, va: nat)
    requires q.va % PGSIZE == 0
    ensures Mapped(m, q, before, va)
      == if !(q.va <= va < q.va + PGSIZE) then before
         else if q.prot == 0 then None else Some(Mapping(q.pa, q.prot / 2 % 2 == 1))
  {
    assert Pow2(1) == 2;
    FlagBit(q.prot, 1, 2);
    PageStart(q.va, va);
  }

  lemma PageStart(base: nat, va: nat)
    requires base % PGSIZE == 0
    ensures base <= va < base + PGSIZE <==> va - va % PGSIZE == base
  {}

  lemma OutsideKept(s: Space, s': Space, p: int)
    requires Frame(s, s') && p !in s.tree.home && p !in s.pool
    ensures (p in s'.tree.mem <==> p in s.tree.mem) && p !in s'.tree.home
    ensures p in s.tree.mem ==> s'.tree.mem[p] == s.tree.mem[p]
  {
    assert p !in s.tree.home.Keys + s.pool;
    assert p in s.tree.mem <==> p in Outside(s.tree);
    assert p in s'.tree.mem <==> p in Outside(s'.tree);
  }

  // No call of map changes how a kernel address is translated; pages are the kernel's tables.
  lemma KernelUnmoved(m: Mmu, kpt: int, s: Space, s': Space, pages: set<int>, va: nat)
    requires SpaceOk(m, kpt, s) && SpaceOk(m, kpt, s') && Frame(s, s')
    requires Closed(m, s.tree.mem, pages, kpt, 1) && pages !! s.tree.home.Keys && pages !! s.pool
    requires KernelIndex(m, Path(m, va)[0])
    ensures Walk(m, s'.tree.mem, s'.tree.at[[]], 1, va) == Walk(m, s.tree.mem, s.tree.at[[]], 1, va)
  {
    forall q | q in pages
      ensures (q in s'.tree.mem <==> q in s.tree.mem) && (q in s.tree.mem ==> s'.tree.mem[q] == s.tree.mem[q])
    {
      OutsideKept(s, s', q);
    }
    WalkUnchanged(m, s.tree.mem, s'.tree.mem, pages, kpt, 1, va);
    KernelTranslation(m, kpt, s, va);
    KernelTranslation(m, kpt, s', va);
  }

  // Another address space in the same memory.
  ghost predicate Apart(s: Space, t: Tree) {
    t.mem == s.tree.mem && t.home.Keys !! s.tree.home.Keys && t.home.Keys !! s.pool
  }

  lemma OtherTables(m: Mmu, s: Space, s': Space, t: Tree, path: seq<int>)
    requires MmuOk(m) && TreeOk(m, t) && Apart(s, t) && Frame(s, s') && path in t.at
    ensures t.at[path] in t.mem && t.at[path] in s'.tree.mem && s'.tree.mem[t.at[path]] == t.mem[t.at[path]]
    ensures NodeOk(m, t.(mem := s'.tree.mem), path)
  {
    var t' := t.(mem := s'.tree.mem);
    assert NodeOk(m, t, path) && Placed(t, path);
    assert t.at[path] in t.home.Keys;
    OutsideKept(s, s', t.at[path]);
    forall i | 0 <= i < Pow2(m.bits)
      ensures EntryOk(m, t', path, i)
    {
      assert EntryOk(m, t, path, i);
    }
  }

  // Calls of map on one address space leave every other one as it is.
  lemma OtherSpaceUnmoved(m: Mmu, s: Space, s': Space, t: Tree, va: nat)
    requires MmuOk(m) && TreeOk(m, t) && Apart(s, t) && Frame(s, s')
    ensures TreeOk(m, t.(mem := s'.tree.mem)) && View(m, t.(mem := s'.tree.mem), va) == View(m, t, va)
    ensures Apart(s', t.(mem := s'.tree.mem))
  {
    var t' := t.(mem := s'.tree.mem);
    forall path | path in t.at
      ensures NodeOk(m, t', path) && Placed(t', path)
    {
      OtherTables(m, s, s', t, path);
      assert Placed(t, path);
    }
    forall p | p in t.home.Keys
      ensures p !in s'.tree.home.Keys && p !in s'.pool
    {
      assert p !in s.tree.home.Keys + s.pool;
    }
    var path := Path(m, va)[..m.levels - 1];
    if path in t.at { OtherTables(m, s, s', t, path); assert NodeOk(m, t, path); }
  }

  // ------------------------------------------------------- what others do meanwhile

  // Anything that leaves the tables of this address space alone: a client takes a page from
  // pgalloc or gives one back, another address space is protected, mapped or unprotected.
  ghost predicate OthersStep(m: Mmu, kpt: int, s: Space, s': Space) {
    && SpaceOk(m, kpt, s) && SpaceOk(m, kpt, s')
    && s'.tree.at == s.tree.at && s'.tree.home == s.tree.home
    && (forall p {:trigger p in s.tree.home} :: p in s.tree.home ==>
          p in s.tree.mem && p in s'.tree.mem && s'.tree.mem[p] == s.tree.mem[p])
  }

  lemma OthersKeepView(m: Mmu, kpt: int, s: Space, s': Space, va: nat)
    requires OthersStep(m, kpt, s, s')
    ensures View(m, s'.tree, va) == View(m, s.tree, va)
  {
    var path := Path(m, va)[..m.levels - 1];
    if path in s.tree.at {
      assert Placed(s.tree, path) && NodeOk(m, s.tree, path);
      assert s.tree.at[path] in s.tree.home;
    }
  }

  // With the same places and the same tables a tree stays a tree.
  lemma SameTreeElsewhere(m: Mmu, t: Tree, mem: Memory)
    requires MmuOk(m) && TreeOk(m, t)
    requires forall p :: p in t.home ==> p in t.mem && p in mem && mem[p] == t.mem[p]
    ensures TreeOk(m, t.(mem := mem))
  {
    var t' := t.(mem := mem);
    forall path | path in t.at
      ensures NodeOk(m, t', path) && Placed(t', path)
    {
      assert NodeOk(m, t, path) && Placed(t, path);
      assert t.at[path] in t.home;
      forall i | 0 <= i < Pow2(m.bits) ensures EntryOk(m, t', path, i) { assert EntryOk(m, t, path, i); }
    }
  }

  lemma SameShares(m: Mmu, kpt: int, t: Tree, mem: Memory)
    requires MmuOk(m) && TreeOk(m, t) && SharesKernel(m, t, kpt) && TreeOk(m, t.(mem := mem))
    requires [] in t.at && t.at[[]] in t.home && t.at[[]] in mem && t.at[[]] in t.mem
    requires mem[t.at[[]]] == t.mem[t.at[[]]]
    requires kpt in mem && mem[kpt] == t.mem[kpt]
    ensures SharesKernel(m, t.(mem := mem), kpt)
  {
    var t' := t.(mem := mem);
    assert NodeOk(m, t, []) && NodeOk(m, t', []);
    forall i | 0 <= i < Pow2(m.bits) && KernelIndex(m, i)
      ensures EntryAt(m, t', [], i) == mem[kpt][i]
    {
      assert EntryAt(m, t, [], i) == t.mem[kpt][i];
    }
  }

  lemma OthersStepIs(m: Mmu, kpt: int, s: Space, mem: Memory, pool: set<int>)
    requires SpaceOk(m, kpt, s) && PoolOk(m, mem, pool)
    requires forall p :: p in s.tree.home ==> p in s.tree.mem && p in mem && mem[p] == s.tree.mem[p]
    requires kpt in mem && mem[kpt] == s.tree.mem[kpt]
    ensures OthersStep(m, kpt, s, Space(s.tree.(mem := mem), pool))
  {
    SameTreeElsewhere(m, s.tree, mem);
    assert Placed(s.tree, []);
    SameShares(m, kpt, s.tree, mem);
  }

  lemma AllInMemory(m: Mmu, t: Tree)
    requires MmuOk(m) && TreeOk(m, t)
    ensures forall p :: p in t.home ==> p in t.mem
  {
    forall p | p in t.home ensures p in t.mem { TablesAreInMemory(m, t, p); }
  }

  // A client takes a page from pgalloc and fills it as it likes; protect of another space
  // does the same.
  lemma TakingIsOthers(m: Mmu, kpt: int, s: Space, p: int, contents: seq<nat>)
    requires SpaceOk(m, kpt, s) && p in s.pool
    ensures OthersStep(m, kpt, s, Space(s.tree.(mem := s.tree.mem[p := contents]), s.pool - {p}))
  {
    AllInMemory(m, s.tree);
    OthersStepIs(m, kpt, s, s.tree.mem[p := contents], s.pool - {p});
  }

  // Pages are given back, by a client or by unprotect of another space.
  lemma GivingIsOthers(m: Mmu, kpt: int, s: Space, gone: set<int>)
    requires SpaceOk(m, kpt, s) && gone !! s.tree.home.Keys && kpt !in gone
    requires forall p :: p in gone ==> PageOk(m, p)
    ensures OthersStep(m, kpt, s, Space(s.tree.(mem := s.tree.mem - gone), s.pool + gone))
  {
    AllInMemory(m, s.tree);
    forall p | p in s.tree.home
      ensures p in s.tree.mem - gone
    {
      assert p in s.tree.home.Keys;
    }
    OthersStepIs(m, kpt, s, s.tree.mem - gone, s.pool + gone);
  }

  // A call of map on another space o in the same memory.
  lemma MappingIsOthers(m: Mmu, kpt: int, s: Space, o: Space, o': Space)
    requires SpaceOk(m, kpt, s) && SpaceOk(m, kpt, o) && SpaceOk(m, kpt, o') && Frame(o, o')
    requires Apart(o, s.tree) && s.pool == o.pool
    ensures OthersStep(m, kpt, s, Space(s.tree.(mem := o'.tree.mem), o'.pool))
  {
    AllInMemory(m, s.tree);
    forall p | p in s.tree.home
      ensures p in o'.tree.mem && o'.tree.mem[p] == s.tree.mem[p]
    {
      assert p in s.tree.home.Keys;
      OutsideKept(o, o', p);
    }
    OutsideKept(o, o', kpt);
    OthersStepIs(m, kpt, s, o'.tree.mem, o'.pool);
  }

  // ---------------------------------------------------------------- whole runs

  datatype Event = Call(q: Request) | Others

  ghost predicate EventStep(m: Mmu, kpt: int, s: Space, s': Space, e: Event) {
    match e case Call(q) => MapStep(m, kpt, s, s', q) case Others => OthersStep(m, kpt, s, s')
  }

  // Calls of map on this address space, and anything that others do in between.
  ghost predicate IsRun(m: Mmu, kpt: int, ss: seq<Space>, es: seq<Event>) {
    && |ss| == |es| + 1 && SpaceOk(m, kpt, ss[0])
    && (forall k {:trigger es[k]} :: 0 <= k < |es| ==> EventStep(m, kpt, ss[k], ss[k + 1], es[k]))
  }

  lemma RunPrefix(m: Mmu, kpt: int, ss: seq<Space>, es: seq<Event>, n: nat)
    requires IsRun(m, kpt, ss, es) && n <= |es|
    ensures IsRun(m, kpt, ss[..n + 1], es[..n])
  {
    forall k | 0 <= k < n
      ensures EventStep(m, kpt, ss[..n + 1][k], ss[..n + 1][k + 1], es[..n][k])
    {
      assert es[k] == es[..n][k];
    }
  }

  // The user map that the calls stand for.
  ghost function MapAfter(m: Mmu, es: seq<Event>, va: nat): Option<Mapping> {
    if es == [] then None else AfterEvent(m, es[|es| - 1], MapAfter(m, es[..|es| - 1], va), va)
  }

  ghost function AfterEvent(m: Mmu, e: Event, before: Option<Mapping>, va: nat): Option<Mapping> {
    match e case Call(q) => Mapped(m, q, before, va) case Others => before
  }

  // The call concerns the page of va.
  predicate Concerns(e: Event, va: nat) { e.Call? && e.q.va <= va < e.q.va + PGSIZE }

  ghost predicate CallsAligned(es: seq<Event>) {
    forall k {:trigger es[k]} :: 0 <= k < |es| && es[k].Call? ==> es[k].q.va % PGSIZE == 0
  }

  // An event that does not concern a page leaves its mapping as it is.
  lemma AfterOther(m: Mmu, e: Event, before: Option<Mapping>, va: nat)
    requires !Concerns(e, va) && (e.Call? ==> e.q.va % PGSIZE == 0)
    ensures AfterEvent(m, e, before, va) == before
  {
    if e.Call? { MappedMeans(m, e.q, before, va); }
  }

  // The last call for a page decides ...
  lemma {:induction false} LastCallDecides(m: Mmu, es: seq<Event>, k: nat, va: nat)
    requires CallsAligned(es) && k < |es| && Concerns(es[k], va)
    requires forall j {:trigger es[j]} :: k < j < |es| ==> !Concerns(es[j], va)
    ensures MapAfter(m, es, va)
      == if es[k].q.prot == 0 then None else Some(Mapping(es[k].q.pa, es[k].q.prot / 2 % 2 == 1))
    decreases |es|
  {
    var n := |es| - 1;
    if k == n {
      MappedMeans(m, es[n].q, MapAfter(m, es[..n], va), va);
    } else {
      LastCallDecides(m, es[..n], k, va);
      AfterOther(m, es[n], MapAfter(m, es[..n], va), va);
    }
  }

  // ... and a page that no call concerns is not mapped.
  lemma {:induction false} NoCallNoMapping(m: Mmu, es: seq<Event>, va: nat)
    requires CallsAligned(es) && forall j {:trigger es[j]} :: 0 <= j < |es| ==> !Concerns(es[j], va)
    ensures MapAfter(m, es, va) == None
  {
    if es != [] {
      var n := |es| - 1;
      NoCallNoMapping(m, es[..n], va);
      AfterOther(m, es[n], MapAfter(m, es[..n], va), va);
    }
  }

  lemma EventMaps(m: Mmu, kpt: int, s: Space, s': Space, e: Event, va: nat)
    requires EventStep(m, kpt, s, s', e) && InUser(m, va)
    ensures SpaceOk(m, kpt, s) && SpaceOk(m, kpt, s')
    ensures View(m, s'.tree, va) == AfterEvent(m, e, View(m, s.tree, va), va)
  {
    if e.Others? { OthersKeepView(m, kpt, s, s', va); }
  }

  lemma EventTables(m: Mmu, kpt: int, s: Space, s': Space, e: Event)
    requires EventStep(m, kpt, s, s', e)
    ensures s'.tree.home.Keys == s.tree.home.Keys + if e.Call? then s.pool - s'.pool else {}
  {
    if e.Call? { CallTakesTables(m, kpt, s, s', e.q); }
  }

  // The pages that the calls have taken from the pool.
  ghost function Took(ss: seq<Space>, es: seq<Event>): set<int>
    requires |ss| == |es| + 1
  {
    if es == [] then {}
    else
      var n := |es| - 1;
      Took(ss[..n + 1], es[..n]) + if es[n].Call? then ss[n].pool - ss[n + 1].pool else {}
  }

  // A call's new tables are exactly the pages that it took.
  lemma CallTakesTables(m: Mmu, kpt: int, s: Space, s': Space, q: Request)
    requires MapStep(m, kpt, s, s', q)
    ensures s'.tree.home.Keys == s.tree.home.Keys + (s.pool - s'.pool)
  {
    AllInMemory(m, s.tree); AllInMemory(m, s'.tree);
    forall p
      ensures p in s'.tree.home.Keys <==> p in s.tree.home.Keys + (s.pool - s'.pool)
    {
      assert p in s'.tree.home.Keys + s'.pool <==> p in s.tree.home.Keys + s.pool;
      assert p in s'.pool ==> p !in s'.tree.mem;
    }
  }

  // Any run implements the partial map, and the tables are those of the start and the pages that
  // the calls took themselves.
  lemma {:induction false} RunRefinesMap(m: Mmu, kpt: int, ss: seq<Space>, es: seq<Event>)
    requires IsRun(m, kpt, ss, es)
    requires forall va: nat :: InUser(m, va) ==> View(m, ss[0].tree, va) == None
    ensures SpaceOk(m, kpt, ss[|es|])
    ensures forall va: nat {:trigger View(m, ss[|es|].tree, va)} ::
      InUser(m, va) ==> View(m, ss[|es|].tree, va) == MapAfter(m, es, va)
    ensures ss[|es|].tree.home.Keys == ss[0].tree.home.Keys + Took(ss, es)
  {
    if es != [] {
      var n := |es| - 1;
      RunPrefix(m, kpt, ss, es, n);
      RunRefinesMap(m, kpt, ss[..n + 1], es[..n]);
      assert EventStep(m, kpt, ss[n], ss[n + 1], es[n]) && ss[..n + 1][n] == ss[n];
      EventTables(m, kpt, ss[n], ss[n + 1], es[n]);
      forall va: nat | InUser(m, va)
        ensures SpaceOk(m, kpt, ss[n + 1]) && View(m, ss[n + 1].tree, va) == MapAfter(m, es, va)
      {
        EventMaps(m, kpt, ss[n], ss[n + 1], es[n], va);
      }
      assert SpaceOk(m, kpt, ss[n + 1]);
    }
  }

  // So after any run the hardware translates a user address as the last call for its page says.
  lemma RunTranslates(m: Mmu, kpt: int, ss: seq<Space>, es: seq<Event>, k: nat, va: nat)
    requires IsRun(m, kpt, ss, es) && InUser(m, va) && k < |es| && Concerns(es[k], va)
    requires forall va: nat :: InUser(m, va) ==> View(m, ss[0].tree, va) == None
    requires forall j {:trigger es[j]} :: k < j < |es| ==> !Concerns(es[j], va)
    ensures var end := ss[|es|].tree;
      && SpaceOk(m, kpt, ss[|es|])
      && var hit := Walk(m, end.mem, end.at[[]], 1, va);
         if es[k].q.prot == 0 then hit == None else Finds(hit, es[k].q.pa, es[k].q.prot / 2 % 2 == 1)
  {
    RunRefinesMap(m, kpt, ss, es);
    forall i | 0 <= i < |es| && es[i].Call?
      ensures es[i].q.va % PGSIZE == 0
    {
      assert EventStep(m, kpt, ss[i], ss[i + 1], es[i]);
    }
    LastCallDecides(m, es, k, va);
    assert View(m, ss[|es|].tree, va) == MapAfter(m, es, va);
    UserTranslation(m, kpt, ss[|es|], va);
  }

  // A page that belongs to somebody else, and is not given back, never becomes a table of this
  // address space.
  lemma {:induction false} HeldPageSpared(m: Mmu, kpt: int, ss: seq<Space>, es: seq<Event>, k: nat, p: int)
    requires IsRun(m, kpt, ss, es) && k <= |es| && p !in ss[k].tree.home
    requires forall j {:trigger ss[j]} :: k <= j <= |es| ==> p !in ss[j].pool
    ensures p !in ss[|es|].tree.home
    decreases |es|
  {
    if k < |es| {
      var n := |es| - 1;
      RunPrefix(m, kpt, ss, es, n);
      assert ss[n] == ss[..n + 1][n] && p !in ss[n].pool;
      HeldPageSpared(m, kpt, ss[..n + 1], es[..n], k, p);
      assert EventStep(m, kpt, ss[n], ss[n + 1], es[n]);
      if es[n].Call? {
        CallTakesTables(m, kpt, ss[n], ss[n + 1], es[n].q);
        assert p in ss[n + 1].tree.home.Keys <==> p in ss[n].tree.home.Keys + (ss[n].pool - ss[n + 1].pool);
      }
    }
  }

  // Clients map pages that they own, and own them as long as they are mapped.
  ghost predicate MapsOwned(m: Mmu, s: Space, e: Event) {
    e.Call? && e.q.prot != MMAP_NONE ==> e.q.pa !in s.pool && e.q.pa !in s.tree.home
  }

  ghost predicate OwnsMapped(m: Mmu, kpt: int, s: Space) {
    SpaceOk(m, kpt, s) && forall va: nat {:trigger View(m, s.tree, va)} ::
      InUser(m, va) && View(m, s.tree, va).Some? ==> View(m, s.tree, va).value.pa !in s.pool
  }

  ghost predicate Disciplined(m: Mmu, kpt: int, ss: seq<Space>, es: seq<Event>) {
    && IsRun(m, kpt, ss, es)
    && (forall k {:trigger es[k]} :: 0 <= k < |es| ==> MapsOwned(m, ss[k], es[k]))
    && (forall k {:trigger ss[k]} :: 0 <= k <= |es| ==> OwnsMapped(m, kpt, ss[k]))
  }

  // No user page that is mapped is a table of this address space.
  lemma {:induction false} LeafPagesSpared(m: Mmu, kpt: int, ss: seq<Space>, es: seq<Event>, va: nat)
    requires Disciplined(m, kpt, ss, es) && InUser(m, va)
    requires forall va: nat :: InUser(m, va) ==> View(m, ss[0].tree, va) == None
    ensures var v := View(m, ss[|es|].tree, va); v.Some? ==> v.value.pa !in ss[|es|].tree.home
    decreases |es|
  {
    if es != [] {
      var n := |es| - 1;
      RunPrefix(m, kpt, ss, es, n);
      var ss', es' := ss[..n + 1], es[..n];
      forall k | 0 <= k < n ensures MapsOwned(m, ss'[k], es'[k]) { assert MapsOwned(m, ss[k], es[k]); }
      forall k | 0 <= k <= n ensures OwnsMapped(m, kpt, ss'[k]) { assert ss'[k] == ss[k]; }
      LeafPagesSpared(m, kpt, ss', es', va);
      assert EventStep(m, kpt, ss[n], ss[n + 1], es[n]) && MapsOwned(m, ss[n], es[n]);
      assert ss'[n] == ss[n] && OwnsMapped(m, kpt, ss[n]);
      StepSparesLeaf(m, kpt, ss[n], ss[n + 1], es[n], va);
    }
  }

  lemma StepSparesLeaf(m: Mmu, kpt: int, s: Space, s': Space, e: Event, va: nat)
    requires EventStep(m, kpt, s, s', e) && MapsOwned(m, s, e) && OwnsMapped(m, kpt, s)
    requires InUser(m, va) && var v := View(m, s.tree, va); v.Some? ==> v.value.pa !in s.tree.home
    ensures SpaceOk(m, kpt, s') && var v := View(m, s'.tree, va); v.Some? ==> v.value.pa !in s'.tree.home
  {
    match e
    case Call(q) =>
      CallTakesTables(m, kpt, s, s', q);
      var v := View(m, s'.tree, va);
      assert v == Mapped(m, q, View(m, s.tree, va), va);
      if v.Some? {
        assert v.value.pa in s'.tree.home.Keys <==> v.value.pa in s.tree.home.Keys + (s.pool - s'.pool);
      }
    case Others => OthersKeepView(m, kpt, s, s', va);
  }

  // If nobody else acts, memory outside the tables and the pages of pool and tables together stay
  // as they were.
  lemma {:induction false} QuietRunFrames(m: Mmu, kpt: int, ss: seq<Space>, es: seq<Event>)
    requires IsRun(m, kpt, ss, es) && forall k :: 0 <= k < |es| ==> es[k].Call?
    ensures Frame(ss[0], ss[|es|])
  {
    if es != [] {
      var n := |es| - 1;
      RunPrefix(m, kpt, ss, es, n);
      QuietRunFrames(m, kpt, ss[..n + 1], es[..n]);
      assert EventStep(m, kpt, ss[n], ss[n + 1], es[n]);
    }
  }
}
