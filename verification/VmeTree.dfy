/** The page-table tree of one address space (abstract-machine/am/src/x86/qemu/vme.c), as the
    partial map from user pages to leaf entries that it stands for. */
module VmeTree {
  import opened Arith
  import opened Bits
  import opened Options
  import opened VmeMmu

  // Physical memory, as far as it holds tables: page address to entries.
  type Memory = map<int, seq<nat>>

  // at[path] is the table that the indices of path lead to from the root at[[]]; home is its
  // inverse.
  datatype Tree = Tree(mem: Memory, at: map<seq<int>, int>, home: map<int, seq<int>>)

  // Level-1 indices that the kernel areas use.
  ghost predicate AreaIndex(m: Mmu, a: Area, i: int)
    requires MmuOk(m)
  {
    a.start <= i * Pow2(m.pgtables[1].shift) < AreaEnd(m, a)
  }

  ghost predicate KernelIndex(m: Mmu, i: int)
    requires MmuOk(m)
  {
    exists j :: 0 <= j < |m.kernel| && AreaIndex(m, m.kernel[j], i)
  }

  // User addresses and kernel areas share no entry of the root table.
  lemma UserIndexIsNoKernel(m: Mmu, va: nat)
    requires MmuOk(m) && m.uvm.start <= va < m.uvm.end
    ensures va < Pow2(12 + m.bits * m.levels) && !KernelIndex(m, Path(m, va)[0])
  {
    var k, i := m.pgtables[1].shift, IndexOf(va, m.pgtables[1]);
    FirstIndex(m, va);
    Split(va, k);
    SlotStart(m.uvm.start, va, i, Pow2(k), Low(va, k));
    forall j | 0 <= j < |m.kernel|
      ensures !AreaIndex(m, m.kernel[j], i)
    {
      assert AreaEnd(m, m.kernel[j]) <= m.uvm.start || AreaEnd(m, m.uvm) <= m.kernel[j].start;
    }
  }

  // An area that starts on a slot and holds an address holds the start of the address's slot.
  lemma SlotStart(start: nat, va: nat, i: nat, unit: nat, r: nat)
    requires unit > 0 && start % unit == 0 && start <= va == i * unit + r && r < unit
    ensures start <= i * unit <= va
  {
    var lo := start / unit;
    assert start == unit * lo;
    if lo > i { MulMono(i + 1, lo, unit); Dist(i, 1, unit); } else { MulMono(lo, i, unit); }
  }

  // ---------------------------------------------------------------- the invariant

  ghost predicate EntryOk(m: Mmu, t: Tree, path: seq<int>, i: int)
    requires MmuOk(m) && path in t.at && t.at[path] in t.mem && 0 <= i < |t.mem[t.at[path]]|
  {
    var e := t.mem[t.at[path]][i];
    && (Present(e) ==> (User(e) <==> !(path == [] && KernelIndex(m, i))))
    && (|path| + 1 < m.levels ==>
          (Present(e) && User(e) <==> path + [i] in t.at)
          && (path + [i] in t.at ==> e == t.at[path + [i]] + 7))
  }

  predicate PageOk(m: Mmu, p: int) {
    p > 0 && p % PGSIZE == 0 && p + PGSIZE <= Pow2(m.word)
  }

  ghost predicate NodeOk(m: Mmu, t: Tree, path: seq<int>)
    requires MmuOk(m) && path in t.at
  {
    var p := t.at[path];
    && |path| < m.levels && PageOk(m, p)
    && (path != [] ==> 0 <= path[|path| - 1] < Pow2(m.bits))
    && p in t.mem && |t.mem[p]| == Pow2(m.bits)
    && (forall i {:trigger EntryOk(m, t, path, i)} :: 0 <= i < Pow2(m.bits) ==> EntryOk(m, t, path, i))
  }

  // Every table has one place in the tree.
  ghost predicate Placed(t: Tree, path: seq<int>)
    requires path in t.at
  {
    && t.at[path] in t.home && t.home[t.at[path]] == path
    && (path != [] ==> path[..|path| - 1] in t.at)
  }

  ghost predicate Shaped(t: Tree) {
    && [] in t.at
    && (forall path {:trigger Placed(t, path)} :: path in t.at ==> Placed(t, path))
    && (forall p {:trigger t.home[p]} :: p in t.home ==> t.home[p] in t.at && t.at[t.home[p]] == p)
  }

  ghost predicate TreeOk(m: Mmu, t: Tree)
    requires MmuOk(m)
  {
    && Shaped(t)
    && (forall path {:trigger NodeOk(m, t, path)} :: path in t.at ==> NodeOk(m, t, path))
  }

  // The leaf entry for a user address; 0 if a table on the way is missing.
  ghost function UserEntry(m: Mmu, t: Tree, va: nat): nat
    requires MmuOk(m) && TreeOk(m, t)
  {
    var path := Path(m, va)[..m.levels - 1];
    if path in t.at then EntryAt(m, t, path, Path(m, va)[m.levels - 1]) else 0
  }

  ghost function EntryAt(m: Mmu, t: Tree, path: seq<int>, i: int): nat
    requires MmuOk(m) && TreeOk(m, t) && path in t.at
  {
    assert NodeOk(m, t, path);
    if 0 <= i < Pow2(m.bits) then t.mem[t.at[path]][i] else 0
  }

  // What the hardware and ptwalk read in an entry that points to a table.
  lemma PointerEntry(p: nat)
    requires p % PGSIZE == 0
    ensures Present(p + 7) && Writable(p + 7) && User(p + 7) && !Large(p + 7)
    ensures (p + 7) % PGSIZE == 7
  {
    PointerBits(p, p / PGSIZE);
    FlagBit(p + 7, 0, 1); FlagBit(p + 7, 1, 2); FlagBit(p + 7, 2, 4); FlagBit(p + 7, 7, 128);
  }

  lemma PointerBits(p: nat, q: nat)
    requires p == 4096 * q
    ensures (p + 7) % 2 == 1 && (p + 7) / 2 % 2 == 1 && (p + 7) / 4 % 2 == 1 && (p + 7) / 128 % 2 == 0
    ensures (p + 7) % 4096 == 7
  {
    DivUnique(p + 7, 2, 2048 * q + 3, 1); DivUnique(2048 * q + 3, 2, 1024 * q + 1, 1);
    DivUnique(p + 7, 4, 1024 * q + 1, 3); DivUnique(1024 * q + 1, 2, 512 * q, 1);
    DivUnique(p + 7, 128, 32 * q, 7); DivUnique(32 * q, 2, 16 * q, 0);
    DivUnique(p + 7, 4096, q, 7);
  }

  // ------------------------------------------------------------------- growing

  ghost function Zeros(m: Mmu): seq<nat> { seq(Pow2(m.bits), _ => 0) }

  // A new empty table p behind entry i of the table at path.
  ghost function TableAdded(m: Mmu, t: Tree, path: seq<int>, i: int, p: int): Tree
    requires path in t.at && t.at[path] in t.mem && 0 <= i < |t.mem[t.at[path]]| && p >= 0
  {
    var q := t.at[path];
    Tree(t.mem[p := Zeros(m)][q := t.mem[q][i := p + 7]], t.at[path + [i] := p], t.home[p := path + [i]])
  }

  ghost predicate CanAdd(m: Mmu, t: Tree, path: seq<int>, i: int, p: int)
    requires MmuOk(m) && TreeOk(m, t)
  {
    && path in t.at && |path| + 1 < m.levels && 0 <= i < Pow2(m.bits)
    && !Present(EntryAt(m, t, path, i)) && !(path == [] && KernelIndex(m, i))
    && p !in t.mem && p !in t.home && PageOk(m, p)
  }

  lemma PathSteps(path: seq<int>, i: int)
    ensures (path + [i])[..|path + [i]| - 1] == path
    ensures forall other: seq<int>, j: int :: other + [j] == path + [i] ==> other == path && j == i
  {
    forall other: seq<int>, j: int | other + [j] == path + [i]
      ensures other == path && j == i
    {
      assert (other + [j])[..|other|] == other && (path + [i])[..|path|] == path;
      assert (other + [j])[|other|] == j && (path + [i])[|path|] == i;
    }
  }

  // No path goes on below a table that is not there.
  lemma NothingBelow(t: Tree, path: seq<int>, j: int)
    requires Shaped(t) && path !in t.at
    ensures path + [j] !in t.at
  {
    if path + [j] in t.at {
      assert Placed(t, path + [j]);
      PathSteps(path, j);
    }
  }

  lemma AddShaped(m: Mmu, t: Tree, path: seq<int>, i: int, p: int)
    requires MmuOk(m) && TreeOk(m, t) && CanAdd(m, t, path, i, p)
    ensures NodeOk(m, t, path) && path + [i] !in t.at
    ensures Shaped(TableAdded(m, t, path, i, p))
  {
    assert NodeOk(m, t, path) && EntryOk(m, t, path, i);
    var t' := TableAdded(m, t, path, i, p);
    PathSteps(path, i);
    forall s | s in t'.at
      ensures Placed(t', s)
    {
      if s != path + [i] { assert Placed(t, s); }
    }
  }

  // The entry that points to the new table, and every other entry.
  lemma AddPointer(m: Mmu, t: Tree, path: seq<int>, i: int, p: int)
    requires MmuOk(m) && TreeOk(m, t) && CanAdd(m, t, path, i, p)
    ensures NodeOk(m, t, path) && EntryOk(m, TableAdded(m, t, path, i, p), path, i)
  {
    assert NodeOk(m, t, path);
    PointerEntry(p);
  }

  lemma AddOther(m: Mmu, t: Tree, path: seq<int>, i: int, p: int, s: seq<int>, j: int)
    requires MmuOk(m) && TreeOk(m, t) && CanAdd(m, t, path, i, p)
    requires s in t.at && 0 <= j < Pow2(m.bits) && !(s == path && j == i)
    ensures NodeOk(m, t, path) && NodeOk(m, t, s) && s in TableAdded(m, t, path, i, p).at
    ensures EntryOk(m, TableAdded(m, t, path, i, p), s, j)
  {
    assert NodeOk(m, t, path) && NodeOk(m, t, s) && Placed(t, s) && Placed(t, path);
    assert EntryOk(m, t, s, j);
    PathSteps(path, i);
    AddShaped(m, t, path, i, p);
  }

  lemma AddNode(m: Mmu, t: Tree, path: seq<int>, i: int, p: int, s: seq<int>)
    requires MmuOk(m) && TreeOk(m, t) && CanAdd(m, t, path, i, p)
    requires s in t.at
    ensures NodeOk(m, t, path) && NodeOk(m, TableAdded(m, t, path, i, p), s)
  {
    AddShaped(m, t, path, i, p);
    assert NodeOk(m, t, s) && Placed(t, s) && Placed(t, path);
    forall j | 0 <= j < Pow2(m.bits)
      ensures EntryOk(m, TableAdded(m, t, path, i, p), s, j)
    {
      if s == path && j == i { AddPointer(m, t, path, i, p); } else { AddOther(m, t, path, i, p, s, j); }
    }
  }

  lemma AddTable(m: Mmu, t: Tree, path: seq<int>, i: int, p: int)
    requires MmuOk(m) && TreeOk(m, t) && CanAdd(m, t, path, i, p)
    ensures NodeOk(m, t, path) && TreeOk(m, TableAdded(m, t, path, i, p))
    ensures forall va: nat :: UserEntry(m, TableAdded(m, t, path, i, p), va) == UserEntry(m, t, va)
  {
    AddShaped(m, t, path, i, p);
    var t' := TableAdded(m, t, path, i, p);
    forall s | s in t'.at
      ensures NodeOk(m, t', s)
    {
      if s == path + [i] {
        AddNewNode(m, t, path, i, p);
      } else {
        AddNode(m, t, path, i, p, s);
      }
    }
    forall va: nat
      ensures UserEntry(m, t', va) == UserEntry(m, t, va)
    {
      var s := Path(m, va)[..m.levels - 1];
      if s in t.at { assert Placed(t, s) && Placed(t, path) && NodeOk(m, t, s); }
    }
  }

  lemma AddNewNode(m: Mmu, t: Tree, path: seq<int>, i: int, p: int)
    requires MmuOk(m) && TreeOk(m, t) && CanAdd(m, t, path, i, p)
    ensures NodeOk(m, t, path) && NodeOk(m, TableAdded(m, t, path, i, p), path + [i])
  {
    AddShaped(m, t, path, i, p);
    var t' := TableAdded(m, t, path, i, p);
    forall j | 0 <= j < Pow2(m.bits)
      ensures EntryOk(m, t', path + [i], j)
    {
      NothingBelow(t, path + [i], j);
      assert path + [i] + [j] != path + [i];
      EntryBits(0);
    }
  }

  // ------------------------------------------------------------------ leaf entries

  // Entry i of the last-level table at path becomes e.
  ghost function LeafSet(t: Tree, path: seq<int>, i: int, e: nat): Tree
    requires path in t.at && t.at[path] in t.mem && 0 <= i < |t.mem[t.at[path]]|
  {
    var entries: seq<nat> := t.mem[t.at[path]][i := e];
    t.(mem := t.mem[t.at[path] := entries])
  }

  ghost predicate CanSet(m: Mmu, t: Tree, path: seq<int>, i: int, e: nat)
    requires MmuOk(m)
  {
    && path in t.at && |path| + 1 == m.levels && 0 <= i < Pow2(m.bits)
    && (Present(e) ==> User(e)) && !(path == [] && KernelIndex(m, i))
  }

  lemma SetNode(m: Mmu, t: Tree, path: seq<int>, i: int, e: nat, s: seq<int>)
    requires MmuOk(m) && TreeOk(m, t) && CanSet(m, t, path, i, e) && s in t.at
    ensures NodeOk(m, t, path) && NodeOk(m, LeafSet(t, path, i, e), s)
  {
    assert NodeOk(m, t, path) && NodeOk(m, t, s) && Placed(t, s) && Placed(t, path);
    var t' := LeafSet(t, path, i, e);
    forall j | 0 <= j < Pow2(m.bits)
      ensures EntryOk(m, t', s, j)
    {
      assert EntryOk(m, t, s, j);
      if s != path { assert t'.mem[t'.at[s]] == t.mem[t.at[s]]; }
    }
  }

  // Setting a leaf entry changes the entry of exactly one user page.
  lemma SetLeaf(m: Mmu, t: Tree, path: seq<int>, i: int, e: nat)
    requires MmuOk(m) && TreeOk(m, t) && CanSet(m, t, path, i, e)
    ensures NodeOk(m, t, path) && TreeOk(m, LeafSet(t, path, i, e))
    ensures forall va: nat ::
      UserEntry(m, LeafSet(t, path, i, e), va) == (if Path(m, va) == path + [i] then e else UserEntry(m, t, va))
  {
    assert NodeOk(m, t, path);
    var t' := LeafSet(t, path, i, e);
    forall s | s in t'.at
      ensures NodeOk(m, t', s)
    {
      SetNode(m, t, path, i, e, s);
    }
    forall s | s in t'.at ensures Placed(t', s) { assert Placed(t, s); }
    forall va: nat
      ensures UserEntry(m, t', va) == if Path(m, va) == path + [i] then e else UserEntry(m, t, va)
    {
      SetEntry(m, t, path, i, e, va);
    }
  }

  lemma SetEntry(m: Mmu, t: Tree, path: seq<int>, i: int, e: nat, va: nat)
    requires MmuOk(m) && TreeOk(m, t) && CanSet(m, t, path, i, e)
    requires NodeOk(m, t, path) && TreeOk(m, LeafSet(t, path, i, e))
    ensures UserEntry(m, LeafSet(t, path, i, e), va)
      == if Path(m, va) == path + [i] then e else UserEntry(m, t, va)
  {
    var full := Path(m, va);
    var s, j := full[..m.levels - 1], full[m.levels - 1];
    assert full == s + [j];
    PathSteps(path, i);
    if s in t.at {
      assert Placed(t, s) && Placed(t, path) && NodeOk(m, t, s);
    }
  }

  // ------------------------------------------------------- what the hardware finds

  // The entry that maps an address, its level, and the rights along the way.
  datatype Hit = Hit(entry: nat, level: int, w: bool, u: bool)

  // The MMU's walk from the table at p, which is of level i.
  ghost function Walk(m: Mmu, mem: Memory, p: int, i: int, va: nat): Option<Hit>
    requires MmuOk(m) && 1 <= i <= m.levels
    decreases m.levels - i
  {
    var index := IndexOf(va, m.pgtables[i]);
    if p !in mem || index >= |mem[p]| then None
    else
      var e := mem[p][index];
      if !Present(e) then None
      else if i == m.levels || (i > 1 && Large(e)) then Some(Hit(e, i, Writable(e), User(e)))
      else
        match Walk(m, mem, e - e % PGSIZE, i + 1, va)
        case None => None
        case Some(h) => Some(h.(w := h.w && Writable(e), u := h.u && User(e)))
  }

  // For a user address the hardware finds the leaf entry: mapped exactly if that is present,
  // writable exactly if it says so.
  lemma {:induction false} WalkFindsUserEntry(m: Mmu, t: Tree, va: nat, i: int)
    requires MmuOk(m) && TreeOk(m, t) && 1 <= i <= m.levels
    requires !KernelIndex(m, Path(m, va)[0]) && Path(m, va)[..i - 1] in t.at
    ensures var e := UserEntry(m, t, va);
      Walk(m, t.mem, t.at[Path(m, va)[..i - 1]], i, va)
      == if Present(e) then Some(Hit(e, m.levels, Writable(e), true)) else None
    decreases m.levels - i
  {
    var full := Path(m, va);
    var path := full[..i - 1];
    PathInRange(m, va, i - 1);
    assert NodeOk(m, t, path) && EntryOk(m, t, path, full[i - 1]);
    if i < m.levels {
      StepDown(m, t, va, i);
      if full[..i] in t.at {
        WalkFindsUserEntry(m, t, va, i + 1);
      } else {
        MissingBelow(m, t, va, i);
        EntryBits(0);
      }
    }
  }

  // The entry met at level i points to the next table on the path, with all rights.
  lemma StepDown(m: Mmu, t: Tree, va: nat, i: int)
    requires MmuOk(m) && TreeOk(m, t) && 1 <= i < m.levels
    requires !KernelIndex(m, Path(m, va)[0]) && Path(m, va)[..i - 1] in t.at
    ensures var p, index := t.at[Path(m, va)[..i - 1]], IndexOf(va, m.pgtables[i]);
      && p in t.mem && index < |t.mem[p]|
      && var e := t.mem[p][index];
      && (Present(e) <==> Path(m, va)[..i] in t.at)
      && (Present(e) ==> e - e % PGSIZE == t.at[Path(m, va)[..i]] && Writable(e) && User(e) && !Large(e))
  {
    var full := Path(m, va);
    var path, index := full[..i - 1], full[i - 1];
    PathInRange(m, va, i - 1);
    assert NodeOk(m, t, path) && EntryOk(m, t, path, index);
    assert full[..i] == path + [index];
    if full[..i] in t.at {
      assert NodeOk(m, t, full[..i]);
      PointerEntry(t.at[full[..i]]);
    }
  }

  lemma {:induction false} MissingBelow(m: Mmu, t: Tree, va: nat, i: int)
    requires MmuOk(m) && TreeOk(m, t) && 1 <= i < m.levels && Path(m, va)[..i] !in t.at
    ensures Path(m, va)[..m.levels - 1] !in t.at
    decreases m.levels - i
  {
    if i < m.levels - 1 {
      assert Path(m, va)[..i + 1] == Path(m, va)[..i] + [Path(m, va)[i]];
      NothingBelow(t, Path(m, va)[..i], Path(m, va)[i]);
      MissingBelow(m, t, va, i + 1);
    }
  }

  // A walk depends only on the tables that it visits.
  ghost predicate Closed(m: Mmu, mem: Memory, pages: set<int>, p: int, i: int)
    requires MmuOk(m) && 1 <= i <= m.levels
    decreases m.levels - i
  {
    p in pages &&
    (i < m.levels && p in mem ==>
      forall j {:trigger mem[p][j]} :: 0 <= j < |mem[p]| && Present(mem[p][j]) && !(i > 1 && Large(mem[p][j])) ==>
        Closed(m, mem, pages, mem[p][j] - mem[p][j] % PGSIZE, i + 1))
  }

  lemma {:induction false} WalkUnchanged(m: Mmu, mem: Memory, mem': Memory, pages: set<int>, p: int, i: int, va: nat)
    requires MmuOk(m) && 1 <= i <= m.levels && Closed(m, mem, pages, p, i)
    requires forall q :: q in pages ==> (q in mem' <==> q in mem) && (q in mem ==> mem'[q] == mem[q])
    ensures Walk(m, mem', p, i, va) == Walk(m, mem, p, i, va)
    decreases m.levels - i
  {
    var index := IndexOf(va, m.pgtables[i]);
    if p in mem && index < |mem[p]| {
      var e := mem[p][index];
      if Present(e) && i < m.levels && !(i > 1 && Large(e)) {
        WalkUnchanged(m, mem, mem', pages, e - e % PGSIZE, i + 1, va);
      }
    }
  }
}
