/** Request sizes of the physical memory manager (kernel/src/pmm.c): rounding to a power of
    two, the size class of a block, and the ROUNDUP/ROUNDDOWN masks. */
module PmmSizes {
  import opened Arith
  import opened Bits
  import opened PmmPages
  import opened PmmSlab

  const MAX_ALLOC := 16 * 1024 * 1024

  // ------------------------------------------------------------- nextPower_2

  // One line of nextPower_2: x | (x >> s).
  function Smear(x: nat, s: nat): nat { Or(x, Shr(x, s)) }

  function SmearAll(x: nat): nat { Smear(Smear(Smear(Smear(Smear(x, 1), 2), 4), 8), 16) }

  function NextPower2(x: nat): nat {
    (SmearAll((x - 1) % WORD) + 1) % WORD
  }

  // r is the least power of two that is not below x.
  ghost predicate LeastPower(x: nat, r: nat, k: nat) {
    r == Pow2(k) && x <= r && (k > 0 ==> Pow2(k - 1) < x)
  }

  // The top m of the k bits of x are ones.
  ghost predicate TopOnes(x: nat, k: nat, m: nat) {
    x < Pow2(k) && forall i {:trigger Bit(x, i)} :: k - m <= i < k && 0 <= i ==> Bit(x, i)
  }

  // Smearing by m doubles a run of m ones at the top.
  lemma SmearDoubles(x: nat, k: nat, m: nat)
    requires TopOnes(x, k, m)
    ensures TopOnes(Smear(x, m), k, 2 * m)
  {
    OrBound(x, Shr(x, m), k);
    forall i | k - 2 * m <= i < k && 0 <= i
      ensures Bit(Smear(x, m), i)
    {
      OrBits(x, Shr(x, m), i);
      if i >= k - m {
        assert Bit(x, i);
      } else {
        ShrShr(x, m, i);
        assert Bit(x, i + m);
      }
    }
  }

  lemma {:induction false} TopBitIsOne(x: nat)
    requires x > 0
    ensures Bit(x, BitLen(x) - 1)
  {
    if x > 1 { TopBitIsOne(x / 2); }
  }

  lemma SmearFills(y: nat, k: nat)
    requires k <= 32 && TopOnes(y, k, 1)
    ensures SmearAll(y) == Pow2(k) - 1
  {
    SmearDoubles(y, k, 1);
    var y1 := Smear(y, 1);
    SmearDoubles(y1, k, 2);
    var y2 := Smear(y1, 2);
    SmearDoubles(y2, k, 4);
    var y3 := Smear(y2, 4);
    SmearDoubles(y3, k, 8);
    var y4 := Smear(y3, 8);
    SmearDoubles(y4, k, 16);
    AllBits(Smear(y4, 16), k);
  }

  // The least power of two, for every request that fits the 32-bit smear.
  lemma NextPower2IsLeast(x: nat) returns (k: nat)
    requires 1 <= x <= 0x1_0000_0000
    ensures LeastPower(x, NextPower2(x), k) && k <= 32
  {
    k := BitLen(x - 1);
    BitLenOfRequest(x - 1);
    if x > 1 { TopBitIsOne(x - 1); }
    SmearFills(x - 1, k);
    NextPower2Wraps(x, Pow2(k));
  }

  lemma NextPower2Wraps(x: nat, p: nat)
    requires 1 <= x < WORD && SmearAll(x - 1) == p - 1 && p < WORD
    ensures NextPower2(x) == p
  {
    assert (x - 1) % WORD == x - 1;
  }

  lemma BitLenOfRequest(y: nat)
    requires y < 0x1_0000_0000
    ensures BitLen(y) <= 32 && y < Pow2(BitLen(y)) <= 0x1_0000_0000
    ensures y > 0 ==> Pow2(BitLen(y) - 1) <= y
  {
    assert Pow2(32) == 0x1_0000_0000 by { Pow2Values(); }
    BitLenAtMost(y, 32);
    Pow2Mono(BitLen(y), 32);
    if y > 0 { BitLenBounds(y); }
  }

  // nextPower_2(0) wraps around to 0.
  lemma NextPower2OfZero()
    ensures NextPower2(0) == 0
  {
    var ones := WORD - 1;
    assert Pow2(64) == WORD by { Pow2Values(); }
    forall s: nat ensures Smear(ones, s) == ones { OrBound(ones, Shr(ones, s), 64); }
    assert (0 - 1) % WORD == ones;
  }

  // ---------------------------------------------------------- the size classes

  lemma {:induction false} ClassIsPower(j: nat)
    ensures ClassSize(j) == Pow2(j + 4)
  {
    if j > 0 { ClassIsPower(j - 1); } else { assert Pow2(4) == 16; }
  }

  lemma {:induction false} ClassGrows(j: nat, k: nat)
    requires j <= k
    ensures ClassSize(j) <= ClassSize(k) && (j < k ==> 2 * ClassSize(j) <= ClassSize(k))
  {
    if j < k { ClassGrows(j, k - 1); }
  }

  // get_slab_index
  method GetSlabIndex(size: int, ghost j: nat) returns (index: nat)
    requires size == ClassSize(j)
    ensures index == j
  {
    var x := size;
    index := 0;
    while x > 16
      invariant index <= j && x == ClassSize(j - index)
    {
      x := x / 2;
      index := index + 1;
    }
  }

  // The block that a request of size bytes asks for: kalloc's arithmetic.
  function BlockSize(size: nat): nat {
    var s := NextPower2(size);
    if s < 16 then 16 else s
  }

  // r is the least power of two that holds size bytes, but 16 at least.
  ghost predicate LeastBlock(size: nat, r: int) {
    && (exists k: nat {:trigger Pow2(k)} :: r == Pow2(k)) && size <= r && 16 <= r
    && forall i: nat {:trigger Pow2(i)} :: size <= Pow2(i) && 16 <= Pow2(i) ==> r <= Pow2(i)
  }

  lemma LeastOf(size: nat, x: nat, k: nat)
    requires LeastPower(size, x, k)
    ensures LeastBlock(size, if x < 16 then 16 else x)
  {
    assert Pow2(4) == 16 && Pow2(3) == 8 by { Pow2Values(); }
    var r := if x < 16 then 16 else x;
    if k < 4 { Pow2Mono(k, 3); } else { Pow2Mono(4, k); }
    forall i: nat | size <= Pow2(i) && 16 <= Pow2(i)
      ensures r <= Pow2(i)
    {
      if k < 4 {
      } else if i < k {
        Pow2Mono(i, k - 1);
      } else {
        Pow2Mono(k, i);
      }
    }
  }

  lemma BlockSizeIsLeast(size: nat)
    requires size <= MAX_ALLOC
    ensures LeastBlock(size, BlockSize(size))
  {
    if size == 0 {
      NextPower2OfZero();
      assert LeastPower(0, 1, 0);
      LeastOf(0, 1, 0);
    } else {
      var k := NextPower2IsLeast(size);
      LeastOf(size, NextPower2(size), k);
    }
  }

  // Class j is the smallest one that holds size bytes.
  ghost predicate SmallestClass(size: nat, j: nat) {
    j < SLAB_SIZE && size <= ClassSize(j) && (j > 0 ==> ClassSize(j - 1) < size)
  }

  lemma SmallestIsOne(size: nat, i: nat, j: nat)
    requires SmallestClass(size, i) && SmallestClass(size, j)
    ensures i == j
  {
    if i < j { ClassGrows(i, j - 1); }
    if j < i { ClassGrows(j, i - 1); }
  }

  lemma LeastIsClass(size: nat, r: int)
    requires LeastBlock(size, r)
    ensures r <= 4096 <==> size <= 4096
    ensures forall j: nat {:trigger ClassSize(j)} :: j < SLAB_SIZE && r == ClassSize(j) ==> SmallestClass(size, j)
  {
    assert Pow2(12) == 4096 && Pow2(4) == 16 by { Pow2Values(); }
    forall j: nat | j < SLAB_SIZE && r == ClassSize(j)
      ensures SmallestClass(size, j)
    {
      if j > 0 {
        ClassIsPower(j - 1);
        Pow2Mono(4, j + 3);
        assert r == 2 * ClassSize(j - 1) && ClassSize(j - 1) == Pow2(j + 3);
      }
    }
  }

  // A request goes to the slabs exactly if it is of 4096 bytes at most, and then to that class.
  lemma RequestClass(size: nat)
    requires size <= MAX_ALLOC
    ensures BlockSize(size) <= 4096 <==> size <= 4096
    ensures forall j: nat {:trigger ClassSize(j)} ::
      j < SLAB_SIZE && BlockSize(size) == ClassSize(j) ==> SmallestClass(size, j)
  {
    BlockSizeIsLeast(size);
    LeastIsClass(size, BlockSize(size));
  }

  // n is the least power of two of pages that hold size bytes.
  ghost predicate LeastPages(size: nat, n: int) {
    && size <= n * PG && (exists k: nat {:trigger Pow2(k)} :: n == Pow2(k))
    && forall i: nat {:trigger Pow2(i)} :: size <= Pow2(i) * PG ==> n <= Pow2(i)
  }

  // A request becomes a size class ...
  lemma SmallRequest(size: nat) returns (j: nat)
    requires size <= MAX_ALLOC && BlockSize(size) <= 4096
    ensures j < SLAB_SIZE && BlockSize(size) == ClassSize(j) && size <= ClassSize(j)
  {
    if size == 0 {
      NextPower2OfZero();
      j := 0;
    } else {
      var k := NextPower2IsLeast(size);
      j := if k < 4 then 0 else k - 4;
      ClassIsPower(j);
      Pow2Mono(k, 4 + j);
      assert ClassSize(SLAB_SIZE) == 8192;
      if j >= SLAB_SIZE { ClassGrows(SLAB_SIZE, j); }
    }
  }

  // ... or a power of two of pages, at least one page even below the size of a page.
  lemma LargeRequest(size: nat) returns (k: nat)
    requires size <= MAX_ALLOC && BlockSize(size) > 4096
    ensures var n := BlockSize(size) / PG;
      && 13 <= k <= 24 && BlockSize(size) == Pow2(k) && size <= Pow2(k)
      && (n == 0 <==> k < 16) && (k >= 16 ==> n == Pow2(k - 16) && n * PG == Pow2(k))
  {
    if size == 0 { NextPower2OfZero(); }
    k := NextPower2IsLeast(size);
    PowerOfPages(k, size);
  }

  lemma PowerOfPages(k: nat, size: nat)
    requires LeastPower(size, Pow2(k), k) && 4096 < Pow2(k) && size <= MAX_ALLOC
    ensures 13 <= k <= 24 && (Pow2(k) / PG == 0 <==> k < 16)
    ensures k >= 16 ==> Pow2(k) / PG == Pow2(k - 16) && Pow2(k) / PG * PG == Pow2(k)
  {
    assert Pow2(12) == 4096 && Pow2(16) == PG && Pow2(24) == MAX_ALLOC by { Pow2Values(); Pow2Add(12, 12); }
    if k <= 12 { Pow2Mono(k, 12); }
    if k > 24 { Pow2Mono(24, k - 1); }
    if k < 16 { Pow2Mono(k + 1, 16); } else { Pow2Add(k - 16, 16); }
  }

  // The pages that a request of more than 4096 bytes asks for.
  function PagesFor(size: nat): int {
    var npage := BlockSize(size) / PG;
    if npage == 0 then 1 else npage
  }

  // The length of the block that a request gets.
  function BlockLength(size: nat): int {
    if BlockSize(size) <= 4096 then BlockSize(size) else PagesFor(size) * PG
  }

  // A page block is as long as the request, rounded up, and aligned to it.
  lemma PagesRequest(size: nat)
    requires size <= MAX_ALLOC && BlockSize(size) > 4096
    ensures var n := PagesFor(size);
      && 0 < n <= MAX_PAGES && MAX_PAGES % n == 0 && PageCount(n)
      && size <= BlockSize(size) <= n * PG && Mult(n * PG, BlockSize(size))
  {
    var k := LargeRequest(size);
    if k < 16 {
      assert Pow2(16) == PG && Pow2(0) == 1 by { Pow2Values(); }
      PowerMultiple(k, 16);
    } else {
      assert Mult(Pow2(k), Pow2(k));
      assert Pow2(8) == MAX_PAGES by { Pow2Values(); }
      Pow2Mono(k - 16, 8);
      PowerMultiple(k - 16, 8);
      MultIsMod(MAX_PAGES, Pow2(k - 16));
    }
  }

  lemma {:induction false} PowerMultiple(j: nat, k: nat)
    requires j <= k
    ensures Mult(Pow2(k), Pow2(j))
  {
    if j < k {
      PowerMultiple(j, k - 1);
      MultAdd(Pow2(k - 1), Pow2(k - 1), Pow2(j));
    } else {
      assert Mult(Pow2(k), Pow2(k));
    }
  }

  lemma LeastPagesOne(size: nat, m: int, n: int)
    requires LeastPages(size, m) && LeastPages(size, n)
    ensures m == n
  {
    var i: nat :| m == Pow2(i);
    var j: nat :| n == Pow2(j);
  }

  lemma PagesOfLeast(size: nat, r: int, k: nat)
    requires LeastBlock(size, r) && r == Pow2(k) && size > 4096
    ensures k >= 16 ==> LeastPages(size, Pow2(k - 16))
    ensures k < 16 ==> LeastPages(size, 1)
  {
    assert Pow2(16) == PG && Pow2(0) == 1 by { Pow2Values(); }
    if k >= 16 { Pow2Add(k - 16, 16); } else { Pow2Mono(k, 16); }
    forall i: nat | size <= Pow2(i) * PG
      ensures k >= 16 ==> Pow2(k - 16) <= Pow2(i)
      ensures 1 <= Pow2(i)
    {
      Pow2Add(i, 16);
      Pow2Mono(0, i);
    }
  }

  // It takes as few pages as a power of two of them can.
  lemma PagesAreLeast(size: nat)
    requires size <= MAX_ALLOC && size > 4096
    ensures LeastPages(size, PagesFor(size))
  {
    RequestClass(size);
    BlockSizeIsLeast(size);
    var k := LargeRequest(size);
    PagesOfLeast(size, BlockSize(size), k);
  }

  // Every block has room for the request and is a whole number of aligned units.
  lemma BlockFits(size: nat)
    requires size <= MAX_ALLOC
    ensures size <= BlockSize(size) <= BlockLength(size)
  {
    if BlockSize(size) <= 4096 { var j := SmallRequest(size); } else { PagesRequest(size); }
  }
}
