/** Page-table entries and the radix of the page-table tree
    (abstract-machine/am/src/x86/qemu/vme.c). The layout is that of 4-level paging (section
    4.5 of the Intel SDM, volume 3A) and of 32-bit paging (section 4.3). */
module VmeMmu {
  import opened Arith
  import opened Bits

  const PGSIZE := 4096
  const PTE_P := 1
  const PTE_W := 2
  const PTE_U := 4
  const PTE_PS := 0x80

  // ------------------------------------------------------------------- entries

  predicate Present(e: nat) { And(e, PTE_P) != 0 }
  predicate Writable(e: nat) { And(e, PTE_W) != 0 }
  predicate User(e: nat) { And(e, PTE_U) != 0 }
  predicate Large(e: nat) { And(e, PTE_PS) != 0 }

  lemma EntryBits(e: nat)
    ensures Present(e) <==> e % 2 == 1
    ensures Writable(e) <==> e / 2 % 2 == 1
    ensures User(e) <==> e / 4 % 2 == 1
    ensures Large(e) <==> e / 128 % 2 == 1
  {
    FlagBit(e, 0, 1); FlagBit(e, 1, 2); FlagBit(e, 2, 4); FlagBit(e, 7, 128);
  }

  lemma FlagBit(e: nat, k: nat, p: nat)
    requires p == Pow2(k)
    ensures And(e, p) != 0 <==> e / p % 2 == 1
  {
    assert Pow2(1) == 2;
    AndField(e, p, 1, k);
    ShrIsDiv(e, k);
    ShrIsDiv(Shr(e, k), 1);
  }

  // base | a | f with a page-aligned base, as the sum that it is
  lemma Flagged(base: nat, a: nat, f: nat)
    requires base % PGSIZE == 0 && a < PGSIZE && f < PGSIZE
    ensures Or(base + a, f) == base + Or(a, f) && Or(a, f) < PGSIZE
  {
    assert Pow2(12) == PGSIZE by { Pow2Values(); }
    OrSplit(base + a, f, 12);
    Parts(base + a, 12, base / PGSIZE, a);
    Parts(f, 12, 0, f);
    OrBound(a, f, 12);
  }

  // The entry for a table: next_page | PTE_P | flags
  function TableEntry(page: nat, flags: nat): nat { Or(Or(page, PTE_P), flags) }

  // The entry for a user page: pa | PTE_P | PTE_U | (writable ? PTE_W : 0)
  function LeafEntry(pa: nat, w: bool): nat {
    Or(Or(Or(pa, PTE_P), PTE_U), if w then PTE_W else 0)
  }

  lemma TableEntryIs(page: nat)
    requires page % PGSIZE == 0
    ensures TableEntry(page, Or(PTE_W, PTE_U)) == page + 7 && TableEntry(page, PTE_U) == page + 5
  {
    Flagged(page, 0, PTE_P);
    assert Or(PTE_W, PTE_U) == 6 && Or(0, PTE_P) == 1 && Or(1, 6) == 7 && Or(1, 4) == 5;
    Flagged(page, 1, 6);
    Flagged(page, 1, PTE_U);
  }

  lemma LeafEntryIs(pa: nat, w: bool)
    requires pa % PGSIZE == 0
    ensures LeafEntry(pa, w) == pa + if w then 7 else 5
  {
    Flagged(pa, 0, PTE_P);
    assert Or(0, PTE_P) == 1 && Or(1, PTE_U) == 5 && Or(5, PTE_W) == 7 && Or(5, 0) == 5;
    Flagged(pa, 1, PTE_U);
    Flagged(pa, 5, if w then PTE_W else 0);
  }

  // ------------------------------------------------------------- configurations

  datatype PtInfo = PtInfo(mask: nat, shift: nat, bits: nat)
  datatype Area = Area(start: nat, end: nat)

  // word is the width of uintptr_t; bits the width of the index into a table.
  datatype Mmu = Mmu(levels: nat, pgtables: seq<PtInfo>, word: nat, bits: nat, uvm: Area, kernel: seq<Area>)

  function Mmu64(): Mmu {
    Mmu(4,
        [PtInfo(0x000000000000, 0, 0),
         PtInfo(0xff8000000000, 39, 9),
         PtInfo(0x007fc0000000, 30, 9),
         PtInfo(0x00003fe00000, 21, 9),
         PtInfo(0x0000001ff000, 12, 9)],
        64, 9, Area(0x100000000000, 0x108000000000), [Area(0x000000000000, 0x008000000000)])
  }

  function Mmu32(): Mmu {
    Mmu(2,
        [PtInfo(0x00000000, 0, 0),
         PtInfo(0xffc00000, 22, 10),
         PtInfo(0x003ff000, 12, 10)],
        32, 10, Area(0x40000000, 0x80000000), [Area(0x00000000, 0x40000000), Area(0xfd000000, 0x00000000)])
  }

  // Level i indexes the next bits of the address below level i - 1, down to the page offset.
  ghost predicate LevelOk(m: Mmu, i: nat)
    requires 1 <= i <= m.levels && |m.pgtables| == m.levels + 1
  {
    var info := m.pgtables[i];
    && info.bits == m.bits && info.shift == 12 + m.bits * (m.levels - i)
    && info.mask == (Pow2(m.bits) - 1) * Pow2(info.shift)
  }

  // A whole number of level-1 slots; an end of 0 is the end of the address space.
  function AreaEnd(m: Mmu, a: Area): nat { if a.end == 0 then Pow2(m.word) else a.end }

  ghost predicate AreaOk(m: Mmu, a: Area)
    requires |m.pgtables| > 1
  {
    var unit := Pow2(m.pgtables[1].shift);
    && a.start % unit == 0 && AreaEnd(m, a) % unit == 0
    && a.start < AreaEnd(m, a) <= Pow2(12 + m.bits * m.levels)
    && a.start != a.end < Pow2(m.word)
  }

  ghost predicate MmuOk(m: Mmu) {
    && m.levels >= 1 && m.bits >= 1 && |m.pgtables| == m.levels + 1
    && m.word >= 8 && PGSIZE / (m.word / 8) == Pow2(m.bits)
    && m.pgtables[0] == PtInfo(0, 0, 0)
    && (forall i {:trigger LevelOk(m, i)} :: 1 <= i <= m.levels ==> LevelOk(m, i))
    && 12 + m.bits * m.levels <= m.word
    && AreaOk(m, m.uvm)
    && (forall j {:trigger m.kernel[j]} :: 0 <= j < |m.kernel| ==> AreaOk(m, m.kernel[j]))
    && (forall j {:trigger m.kernel[j]} :: 0 <= j < |m.kernel| ==>
          AreaEnd(m, m.kernel[j]) <= m.uvm.start || AreaEnd(m, m.uvm) <= m.kernel[j].start)
    && m.uvm.end != 0
  }

  lemma LevelMask(m: Mmu, i: nat, h: nat, p: nat, q: nat)
    requires 1 <= i <= m.levels && |m.pgtables| == m.levels + 1
    requires m.pgtables[i].bits == m.bits && m.pgtables[i].shift == 12 + m.bits * (m.levels - i)
    requires p == Pow2(m.bits) && q == Pow2(m.pgtables[i].shift) && m.pgtables[i].mask == (p - 1) * q
    ensures LevelOk(m, i)
  {}

  lemma Powers()
    ensures Pow2(9) == 0x200 && Pow2(10) == 0x400 && Pow2(12) == 0x1000 && Pow2(21) == 0x20_0000
    ensures Pow2(22) == 0x40_0000 && Pow2(30) == 0x4000_0000 && Pow2(32) == 0x1_0000_0000
    ensures Pow2(39) == 0x80_0000_0000 && Pow2(48) == 0x1_0000_0000_0000
  {
    Pow2Values();
    Pow2Add(9, 12); Pow2Add(10, 12); Pow2Add(9, 21); Pow2Add(9, 30); Pow2Add(9, 39);
  }

  lemma AreaFits(m: Mmu, a: Area, unit: nat, lo: nat, hi: nat)
    requires |m.pgtables| > 1 && unit == Pow2(m.pgtables[1].shift)
    requires a.start == unit * lo && AreaEnd(m, a) == unit * hi
    requires a.start < AreaEnd(m, a) <= Pow2(12 + m.bits * m.levels)
    requires a.start != a.end < Pow2(m.word)
    ensures AreaOk(m, a)
  {
    DivUnique(a.start, unit, lo, 0);
    DivUnique(AreaEnd(m, a), unit, hi, 0);
  }

  lemma Mmu64Levels()
    ensures forall i {:trigger LevelOk(Mmu64(), i)} :: 1 <= i <= 4 ==> LevelOk(Mmu64(), i)
  {
    var m := Mmu64();
    assert Pow2(9) == 0x200 && Pow2(12) == 0x1000 && Pow2(21) == 0x20_0000 by { Powers(); }
    assert Pow2(30) == 0x4000_0000 && Pow2(39) == 0x80_0000_0000 by { Powers(); }
    LevelMask(m, 1, 9, 0x200, 0x80_0000_0000);
    LevelMask(m, 2, 9, 0x200, 0x4000_0000);
    LevelMask(m, 3, 9, 0x200, 0x20_0000);
    LevelMask(m, 4, 9, 0x200, 0x1000);
  }

  lemma Mmu64Ok()
    ensures MmuOk(Mmu64())
  {
    var m := Mmu64();
    Mmu64Levels();
    assert Pow2(9) == 0x200 && Pow2(39) == 0x80_0000_0000 && Pow2(48) == 0x1_0000_0000_0000 by { Powers(); }
    assert Pow2(64) == 0x1_0000_0000_0000_0000 by { Pow2Values(); }
    AreaFits(m, m.uvm, 0x80_0000_0000, 32, 33);
    AreaFits(m, m.kernel[0], 0x80_0000_0000, 0, 1);
  }

  lemma Mmu32Levels()
    ensures forall i {:trigger LevelOk(Mmu32(), i)} :: 1 <= i <= 2 ==> LevelOk(Mmu32(), i)
  {
    var m := Mmu32();
    Powers();
    LevelMask(m, 1, 10, 0x400, 0x40_0000);
    LevelMask(m, 2, 10, 0x400, 0x1000);
  }

  lemma Mmu32Ok()
    ensures MmuOk(Mmu32())
  {
    var m := Mmu32();
    Mmu32Levels();
    assert Pow2(10) == 0x400 && Pow2(22) == 0x40_0000 && Pow2(32) == 0x1_0000_0000 by { Powers(); }
    AreaFits(m, m.uvm, 0x40_0000, 256, 512);
    AreaFits(m, m.kernel[0], 0x40_0000, 0, 256);
    AreaFits(m, m.kernel[1], 0x40_0000, 1012, 1024);
  }

  // ---------------------------------------------------------- paths of addresses

  // indexof
  function IndexOf(addr: nat, info: PtInfo): nat {
    Shr(And(addr, info.mask), info.shift)
  }

  lemma IndexIs(m: Mmu, addr: nat, i: nat)
    requires MmuOk(m) && 1 <= i <= m.levels
    ensures IndexOf(addr, m.pgtables[i]) == Low(Shr(addr, m.pgtables[i].shift), m.bits) < Pow2(m.bits)
  {
    assert LevelOk(m, i);
    var k, h := m.pgtables[i].shift, m.bits;
    AndField(addr, m.pgtables[i].mask, h, k);
    Split(Shr(addr, k), h);
    Parts(Low(Shr(addr, k), h) * Pow2(k), k, Low(Shr(addr, k), h), 0);
  }

  // The indices that lead to an address, from level 1 down.
  ghost function Path(m: Mmu, va: nat): (p: seq<int>)
    requires MmuOk(m)
    ensures |p| == m.levels
    ensures forall j :: 0 <= j < m.levels ==> p[j] == IndexOf(va, m.pgtables[j + 1])
  {
    seq(m.levels, j requires 0 <= j < m.levels => IndexOf(va, m.pgtables[j + 1]))
  }

  lemma PathInRange(m: Mmu, va: nat, j: nat)
    requires MmuOk(m) && j < m.levels
    ensures 0 <= Path(m, va)[j] < Pow2(m.bits)
  {
    IndexIs(m, va, j + 1);
  }

  // One level: the address above level i is that above level i - 1 and the index of level i.
  lemma NextIndex(m: Mmu, va: nat, i: nat)
    requires MmuOk(m) && 1 < i <= m.levels
    ensures Shr(va, m.pgtables[i].shift)
      == Shr(va, m.pgtables[i - 1].shift) * Pow2(m.bits) + IndexOf(va, m.pgtables[i])
  {
    assert LevelOk(m, i) && LevelOk(m, i - 1);
    var k, b := m.pgtables[i].shift, m.bits;
    OneMore(b, m.levels - i + 1);
    assert m.pgtables[i - 1].shift == k + b;
    IndexIs(m, va, i);
    Split(Shr(va, k), b);
    ShrShr(va, k, b);
  }

  // The first i indices of a path determine the address above level i.
  lemma {:induction false} PrefixDetermines(m: Mmu, va: nat, vb: nat, i: nat)
    requires MmuOk(m) && 1 <= i <= m.levels
    requires va < Pow2(12 + m.bits * m.levels) && vb < Pow2(12 + m.bits * m.levels)
    requires forall j {:trigger Path(m, va)[j]} :: 0 <= j < i ==> Path(m, va)[j] == Path(m, vb)[j]
    ensures Shr(va, m.pgtables[i].shift) == Shr(vb, m.pgtables[i].shift)
  {
    assert Path(m, va)[i - 1] == Path(m, vb)[i - 1];
    if i == 1 {
      FirstIndex(m, va); FirstIndex(m, vb);
    } else {
      NextIndex(m, va, i); NextIndex(m, vb, i);
      PrefixDetermines(m, va, vb, i - 1);
    }
  }

  lemma FirstIndex(m: Mmu, va: nat)
    requires MmuOk(m) && va < Pow2(12 + m.bits * m.levels)
    ensures IndexOf(va, m.pgtables[1]) == Shr(va, m.pgtables[1].shift)
  {
    IndexIs(m, va, 1);
    TopShift(m);
    TopBits(va, m.pgtables[1].shift, m.bits);
  }

  lemma TopShift(m: Mmu)
    requires MmuOk(m)
    ensures m.pgtables[1].shift + m.bits == 12 + m.bits * m.levels
  {
    assert LevelOk(m, 1);
    OneMore(m.bits, m.levels);
  }

  lemma OneMore(b: int, n: int)
    ensures b * (n - 1) + b == b * n
  {}

  lemma TopBits(va: nat, k: nat, b: nat)
    requires va < Pow2(k + b)
    ensures Low(Shr(va, k), b) == Shr(va, k) < Pow2(b)
  {
    Pow2Add(k, b);
    Split(va, k);
    QuotientBound(va, Shr(va, k), Low(va, k), Pow2(k), Pow2(b));
    Parts(Shr(va, k), b, 0, Shr(va, k));
  }

  // A page is identified by its indices.
  lemma PathUnique(m: Mmu, va: nat, vb: nat)
    requires MmuOk(m) && va % PGSIZE == 0 && vb % PGSIZE == 0
    requires va < Pow2(12 + m.bits * m.levels) && vb < Pow2(12 + m.bits * m.levels)
    requires Path(m, va) == Path(m, vb)
    ensures va == vb
  {
    assert LevelOk(m, m.levels);
    PrefixDetermines(m, va, vb, m.levels);
    assert Pow2(12) == PGSIZE by { Powers(); }
    Split(va, 12); Split(vb, 12);
    ShrIsDiv(va, 12); ShrIsDiv(vb, 12);
  }
}
