/** 64-bit division and bit counts built from 32-bit words
    (abstract-machine/klib/src/int64.c). Words are integers with their range; every
    wrap-around of the C code is written out. */
module Int64 {
  import opened Arith
  import opened Bits

  const TWO31 := 0x8000_0000
  const TWO32 := 0x1_0000_0000
  const TWO63 := 0x8000_0000_0000_0000
  const TWO64 := 0x1_0000_0000_0000_0000

  type u32 = x: int | 0 <= x < 0x1_0000_0000
  type u64 = x: int | 0 <= x < 0x1_0000_0000_0000_0000
  type i64 = x: int | -0x8000_0000_0000_0000 <= x < 0x8000_0000_0000_0000

  // Conversion of any integer to an unsigned or signed word of the machine.
  function U32(x: int): u32 { x % TWO32 }
  function U64(x: int): u64 { x % TWO64 }
  function I64(x: int): i64 { var u := x % TWO64; if u < TWO63 then u else u - TWO64 }

  // -------------------------------------------------------------- bit counts

  // Number of zero bits below the lowest one.
  function TrailingZeros(x: nat): nat
    requires x != 0
  {
    if x % 2 == 1 then 0 else 1 + TrailingZeros(x / 2)
  }

  lemma {:induction false} TrailingZerosIsLowest(x: nat)
    requires x != 0
    ensures Low(x, TrailingZeros(x)) == 0 && Shr(x, TrailingZeros(x)) % 2 == 1
  {
    if x % 2 == 0 { TrailingZerosIsLowest(x / 2); }
  }

  lemma {:induction false} TrailingZerosShr(x: nat, k: nat)
    requires x != 0 && Low(x, k) == 0
    ensures Shr(x, k) != 0 && TrailingZeros(x) == k + TrailingZeros(Shr(x, k))
  {
    if k > 0 { TrailingZerosShr(x / 2, k - 1); }
  }

  // One halving of the search in Clzsi2, with p = 2^h and m the mask of h ones above bit h.
  lemma ClzStep(x: nat, h: nat, p: nat, m: nat)
    requires p == Pow2(h) && m == (p - 1) * p && 0 < x < p * p
    ensures And(x, m) == 0 <==> x < p
    ensures var t := if And(x, m) == 0 then h else 0;
      0 < Shr(x, h - t) < p && BitLen(x) == h - t + BitLen(Shr(x, h - t))
  {
    var y := Shr(x, h);
    Split(x, h);
    AndField(x, m, h, h);
    if y >= p {
      MulMono(p, y, p);
      assert false;
    }
    Parts(y, h, 0, y);
    assert And(x, m) == y * p;
    if y == 0 {
      assert x == Low(x, h) < p;
    } else {
      MulMono(1, y, p);
      BitLenShr(x, h);
    }
  }

  // t = ((x & m) == 0) << log2(h); x >>= h - t; r += t
  method ClzHalve(x: nat, r: nat, h: nat, p: nat, m: nat) returns (x': nat, r': nat)
    requires p == Pow2(h) && m == (p - 1) * p && 0 < x < p * p
    ensures 0 < x' < p && BitLen(x) - r == h + BitLen(x') - r'
  {
    ClzStep(x, h, p, m);
    var t := if And(x, m) == 0 then h else 0;
    x' := Shr(x, h - t);
    r' := r + t;
  }

  // The number of leading zeros of a non-zero word.
  method Clzsi2(a: u32) returns (n: nat)
    requires a != 0
    ensures n == 32 - BitLen(a)
  {
    assert Pow2(16) == 0x1_0000 && Pow2(8) == 0x100 && Pow2(4) == 0x10 && Pow2(2) == 4 by { Pow2Values(); }
    var x: int, r: int := ClzHalve(a, 0, 16, 0x1_0000, 0xFFFF_0000);
    x, r := ClzHalve(x, r, 8, 0x100, 0xFF00);
    x, r := ClzHalve(x, r, 4, 0x10, 0xF0);
    x, r := ClzHalve(x, r, 2, 4, 0xC);
    ClzTail(x);
    n := r + And(U32(2 - x), U32(if And(x, 2) == 0 then -1 else 0));
  }

  lemma ClzTail(x: nat)
    requires 0 < x < 4
    ensures And(U32(2 - x), U32(if And(x, 2) == 0 then -1 else 0)) == 2 - BitLen(x)
  {
    assert And(1, 2) == 0 && And(2, 2) == 2 && And(3, 2) == 2;
    assert And(1, 0xFFFF_FFFF) == 1;
  }

  // One halving of the search in Ctzsi2; m is the mask of h ones.
  lemma CtzStep(x: nat, h: nat, m: nat)
    requires Low(x, h + h) != 0
    requires (h, m) in {(16, 0xFFFF), (8, 0xFF), (4, 0xF), (2, 3)}
    ensures x != 0
    ensures var t := if And(x, m) == 0 then h else 0; var y := Shr(x, t);
      y != 0 && Low(y, h) != 0 && TrailingZeros(x) == t + TrailingZeros(y)
  {
    assert m == Pow2(h) - 1 by { Pow2Values(); }
    AndLowMask(x, h);
    LowZero(h + h);
    if Low(x, h) == 0 {
      TrailingZerosShr(x, h);
      LowLow(x, h, h);
    }
  }

  lemma {:induction false} LowZero(k: nat)
    ensures Low(0, k) == 0
  {
    if k > 0 { LowZero(k - 1); }
  }

  lemma {:induction false} LowLow(x: nat, j: nat, k: nat)
    ensures Low(x, j + k) == Low(Shr(x, j), k) * Pow2(j) + Low(x, j)
  {
    if j > 0 {
      LowLow(x / 2, j - 1, k);
      MulPow2(Low(Shr(x, j), k), j - 1);
    }
  }

  // t = ((x & m) == 0) << log2(h); x >>= t; r += t
  method CtzHalve(x: nat, r: nat, h: nat, m: nat) returns (x': nat, r': nat)
    requires Low(x, h + h) != 0
    requires (h, m) in {(16, 0xFFFF), (8, 0xFF), (4, 0xF), (2, 3)}
    ensures x != 0 && x' != 0 && Low(x', h) != 0
    ensures TrailingZeros(x) + r == TrailingZeros(x') + r'
  {
    CtzStep(x, h, m);
    var t := if And(x, m) == 0 then h else 0;
    x' := Shr(x, t);
    r' := r + t;
  }

  // The number of trailing zeros of a non-zero word.
  method Ctzsi2(a: u32) returns (n: nat)
    requires a != 0
    ensures n == TrailingZeros(a)
  {
    assert Low(a, 16 + 16) == a by { Pow2Values(); Parts(a, 32, 0, a); }
    var x, r := CtzHalve(a, 0, 16, 0x0000_FFFF);
    x, r := CtzHalve(x, r, 8, 0x00FF);
    x, r := CtzHalve(x, r, 4, 0x0F);
    x, r := CtzHalve(x, r, 2, 0x3);
    CtzTail(x);
    x := And(x, 3);
    n := r + And(U32(2 - Shr(x, 1)), U32(if And(x, 1) == 0 then -1 else 0));
  }

  lemma CtzTail(x: nat)
    requires Low(x, 2) != 0
    ensures x != 0 && And(x, 3) in {1, 2, 3} && TrailingZeros(x) <= 1
    ensures var y := And(x, 3);
      And(U32(2 - Shr(y, 1)), U32(if And(y, 1) == 0 then -1 else 0)) == TrailingZeros(x)
  {
    LowZero(2);
    assert Pow2(2) == 4;
    AndLowMask(x, 2);
    assert Low(x / 2, 1) == x / 2 % 2 + 2 * Low(x / 2 / 2, 0);
    assert Low(x, 2) == x % 2 + 2 * (x / 2 % 2);
    assert TrailingZeros(x) == if x % 2 == 1 then 0 else 1;
    assert And(1, 1) == 1 && And(2, 1) == 0 && And(3, 1) == 1;
    assert And(1, 0xFFFF_FFFF) == 1;
  }

  // ------------------------------------------------------- unsigned division

  // x / y and x % y are the only quotient and remainder.
  ghost predicate IsQuotRem(a: int, b: int, q: int, r: int) {
    a == q * b + r && 0 <= r < b
  }

  lemma TopBit(n: nat, k: nat)
    ensures Shr(n, k) == 2 * Shr(n, k + 1) + Shr(n, k) % 2
    ensures Low(n, k + 1) == Shr(n, k) % 2 * Pow2(k) + Low(n, k)
  {
    ShrShr(n, k, 1);
    LowLow(n, k, 1);
    assert Shr(Shr(n, k), 1) == Shr(n, k) / 2;
    assert Low(Shr(n, k), 1) == Shr(n, k) % 2 + 2 * Low(Shr(n, k) / 2, 0);
  }

  lemma ComplementaryPowers(k: nat)
    requires k <= 32
    ensures Pow2(k) * Pow2(32 - k) == TWO32 == Pow2(32) && Pow2(64 - k) == Pow2(32 - k) * TWO32
  {
    Pow2Add(k, 32 - k);
    Pow2Add(32 - k, 32);
    Pow2Values();
  }

  // x << (32 - k) keeps the low k bits of a 32-bit word.
  lemma ShlWord(x: u32, k: nat)
    requires k <= 32
    ensures Shl(32, x, 32 - k) == Low(x, k) * Pow2(32 - k)
  {
    var h, l, p := Shr(x, k), Low(x, k), Pow2(32 - k);
    Split(x, k);
    ComplementaryPowers(k);
    ScaleSplit(x, h, l, Pow2(k), p, Pow2(32));
    MulMono(0, l, p);
    Parts(x * p, 32, h, l * p);
  }

  // Two words hi:lo, cut at bit k of each word.
  lemma TwoWords(hi: nat, lo: nat, H: nat, h: nat, L: nat, l: nat, P: nat, p: nat)
    requires hi == H * P + h && h < P && lo == L * P + l && L < p && P * p == TWO32
    ensures hi * TWO32 + lo == (H * TWO32 + (h * p + L)) * P + l
    ensures h * p + L < TWO32
  {
    ScaleSplit(hi, H, h, P, p, TWO32);
    Dist(H * TWO32, h * p + L, P);
    Dist(h * p, L, P);
    Assoc(h, p, P);
    Assoc(H, TWO32, P);
    assert h * p * P == h * TWO32;
  }

  // The pieces of a 64-bit word hi:lo cut at bit k of each half, 1 <= k <= 31.
  lemma WordsAt(hi: u32, lo: u32, k: nat, p: nat)
    requires 1 <= k <= 31 && p == Pow2(32 - k)
    ensures Shr(hi * TWO32 + lo, k) == Shr(hi, k) * TWO32 + (Low(hi, k) * p + Shr(lo, k))
    ensures Low(hi * TWO32 + lo, k) == Low(lo, k)
    ensures Low(hi, k) * p + Shr(lo, k) < TWO32 && Shr(lo, k) < p
  {
    var H, h, L, l := Shr(hi, k), Low(hi, k), Shr(lo, k), Low(lo, k);
    Split(hi, k); Split(lo, k);
    ComplementaryPowers(k);
    QuotientBound(lo, L, l, Pow2(k), p);
    TwoWords(hi, lo, H, h, L, l, Pow2(k), p);
    MulMono(0, h, p);
    Parts(hi * TWO32 + lo, k, H * TWO32 + (h * p + L), l);
  }

  // A 64-bit shift by 1 <= k <= 31, computed on the two words.
  lemma ShiftWords(hi: u32, lo: u32, k: nat)
    requires 1 <= k <= 31
    ensures Or(Shl(32, hi, 32 - k), Shr(lo, k)) == Low(hi, k) * Pow2(32 - k) + Shr(lo, k) < TWO32
    ensures Shr(hi, k) * TWO32 + Or(Shl(32, hi, 32 - k), Shr(lo, k)) == Shr(hi * TWO32 + lo, k)
    ensures Shl(32, lo, 32 - k) * TWO32 == Low(hi * TWO32 + lo, k) * Pow2(64 - k)
    ensures Low(hi * TWO32 + lo, k) == Low(lo, k)
  {
    var p := Pow2(32 - k);
    WordsAt(hi, lo, k, p);
    ShlWord(hi, k); ShlWord(lo, k);
    OrDisjoint(Low(hi, k), Shr(lo, k), 32 - k);
    ComplementaryPowers(k);
    MulSubst(Low(lo, k), p, TWO32, Pow2(64 - k));
    MulEq(Low(hi * TWO32 + lo, k), Low(lo, k), Pow2(64 - k), Pow2(64 - k));
  }

  lemma FarWords(h: nat, lo: nat, L: nat, l: nat, P: nat, p: nat)
    requires lo == L * P + l && l < P && P * p == TWO32
    ensures (h * TWO32 + lo) * p == (h * p + L) * TWO32 + l * p
  {
    ScaleSplit(lo, L, l, P, p, TWO32);
    Dist(h * TWO32, lo, p);
    Assoc(h, TWO32, p);
  }

  // A 64-bit shift by k = 32 + j, 1 <= j <= 31.
  lemma ShiftFar(hi: u32, lo: u32, j: nat)
    requires 1 <= j <= 31
    ensures Shr(hi, j) == Shr(hi * TWO32 + lo, 32 + j)
    ensures Low(hi * TWO32 + lo, 32 + j) == Low(hi, j) * TWO32 + lo
  {
    var n := hi * TWO32 + lo;
    assert Shr(n, 32) == hi && Low(n, 32) == lo && Pow2(32) == TWO32 by { Pow2Values(); Parts(n, 32, hi, lo); }
    ShrShr(n, 32, j);
    LowLow(n, 32, j);
  }

  lemma ShiftWordsFar(hi: u32, lo: u32, j: nat)
    requires 1 <= j <= 31
    ensures Or(Shl(32, hi, 32 - j), Shr(lo, j)) < TWO32
    ensures Or(Shl(32, hi, 32 - j), Shr(lo, j)) * TWO32 + Shl(32, lo, 32 - j)
         == Low(hi * TWO32 + lo, 32 + j) * Pow2(32 - j)
  {
    var p := Pow2(32 - j);
    ShiftFar(hi, lo, j);
    ShiftWords(hi, lo, j);
    ShlWord(lo, j);
    FarProduct(Low(hi, j), lo, j, p, Low(hi * TWO32 + lo, 32 + j), p,
               Or(Shl(32, hi, 32 - j), Shr(lo, j)), Shl(32, lo, 32 - j));
  }

  lemma FarProduct(h: nat, lo: nat, j: nat, p: nat, low: nat, pow: nat, q1: nat, q0: nat)
    requires 1 <= j <= 31 && p == Pow2(32 - j)
    requires low == h * TWO32 + lo && pow == p && q1 == h * p + Shr(lo, j) && q0 == Low(lo, j) * p
    ensures q1 * TWO32 + q0 == low * pow
  {
    Split(lo, j);
    ComplementaryPowers(j);
    FarWords(h, lo, Shr(lo, j), Low(lo, j), Pow2(j), p);
  }

  // The word-wise form of "shift left by one and bring in bit b".
  lemma ShiftInBit(x: u32, b: u32)
    requires b <= 1
    ensures Or(Shl(32, x, 1), b) == 2 * x % TWO32 + b
  {
    assert Pow2(1) == 2;
    ShlWord(x, 31);
    TopBitOf(x);
    OrDisjoint(Low(x, 31), b, 1);
  }

  lemma TopBitOf(x: u32)
    ensures Shr(x, 31) == if x < TWO31 then 0 else 1
    ensures Low(x, 31) == if x < TWO31 then x else x - TWO31
  {
    assert Pow2(31) == TWO31 by { Pow2Values(); }
    Parts(x, 31, if x < TWO31 then 0 else 1, if x < TWO31 then x else x - TWO31);
  }

  // Two words shifted left by one, bit c coming in.
  lemma ShiftPair(h: u32, l: u32, c: u32)
    requires c <= 1
    ensures var h', l' := Or(Shl(32, h, 1), Shr(l, 31)), Or(Shl(32, l, 1), c);
      h' < TWO32 && l' < TWO32 && h' * TWO32 + l' == (2 * (h * TWO32 + l) + c) % TWO64
  {
    TopBitOf(l);
    ShiftInBit(h, Shr(l, 31));
    ShiftInBit(l, c);
    ShiftPairArith(h, l, Shr(l, 31), c);
  }

  lemma ShiftPairArith(h: u32, l: u32, t: u32, c: u32)
    requires c <= 1 && t == if l < TWO31 then 0 else 1
    ensures 2 * h % TWO32 + t < TWO32 && 2 * l % TWO32 + c < TWO32
    ensures (2 * h % TWO32 + t) * TWO32 + (2 * l % TWO32 + c) == (2 * (h * TWO32 + l) + c) % TWO64
  {
    var b := if h < TWO31 then 0 else 1;
    assert 2 * h % TWO32 == 2 * h - b * TWO32;
    assert 2 * l % TWO32 == 2 * l - t * TWO32;
  }

  // ((r:q) << 1) | carry, as the loop does it on the four words.
  method ShiftLeftOne(rh: u32, rl: u32, qh: u32, ql: u32, carry: u32)
    returns (rh': u32, rl': u32, qh': u32, ql': u32)
    requires carry <= 1
    ensures rh' * TWO32 + rl' == U64(2 * (rh * TWO32 + rl) + (if qh * TWO32 + ql < TWO63 then 0 else 1))
    ensures qh' * TWO32 + ql' == (2 * (qh * TWO32 + ql) + carry) % TWO64
  {
    TopBitOf(qh);
    ShiftPair(rh, rl, Shr(qh, 31));
    ShiftPair(qh, ql, carry);
    rh' := Or(Shl(32, rh, 1), Shr(rl, 31));
    rl' := Or(Shl(32, rl, 1), Shr(qh, 31));
    qh' := Or(Shl(32, qh, 1), Shr(ql, 31));
    ql' := Or(Shl(32, ql, 1), carry);
  }

  // The sign of d - r - 1 decides r >= d although the subtraction may wrap:
  // -1 when r >= d, 0 otherwise.
  lemma SignDecides(d: u64, r: u64)
    requires d >= TWO63 ==> r >= TWO63
    requires r < 2 * d
    ensures I64(d - r - 1) < 0 <==> r >= d
  {}

  lemma AllOnes(d: u64)
    ensures And(d, TWO64 - 1) == d
  {
    assert Pow2(64) == TWO64 by { Pow2Values(); }
    AndLowMask(d, 64);
    Parts(d, 64, 0, d);
  }

  lemma AndFacts(d: nat, m: nat)
    ensures And(d, 0) == 0 && And(0, 1) == 0 && (m % 2 == 1 ==> And(m, 1) == 1)
  {
    AndBit(m, 1);
  }

  lemma InRange64(x: u64)
    ensures U64(x) == x && U64(-1) == TWO64 - 1
  {}

  // Spread over the word, it masks the subtrahend without a branch.
  lemma SubtractIfFits(d: u64, r: u64, s: int)
    requires d >= TWO63 ==> r >= TWO63
    requires r < 2 * d && s == if I64(d - r - 1) < 0 then -1 else 0
    ensures And(U64(s), 1) == (if r >= d then 1 else 0)
    ensures U64(r - And(d, U64(s))) == (if r >= d then r - d else r)
  {
    assert s == if r >= d then -1 else 0 by { SignDecides(d, r); }
    AllOnes(d);
    AndFacts(d, TWO64 - 1);
    InRange64(0);
    InRange64(if r >= d then r - d else r);
  }

  // The loop's view of n: quotient digits so far, remainder, digits to come.
  ghost predicate Dividing(n: u64, d: u64, q: u64, r: u64, sr: nat, carry: nat, p: nat) {
    && carry <= 1 && sr <= 63
    && r < d && Shr(n, sr) == (2 * p + carry) * d + r
    && p < Pow2(64 - sr) && q == Low(n, sr) * Pow2(64 - sr) + p
    && (sr > 0 && d >= TWO63 ==> sr == 1 && p == 0 && carry == 0 && n >= TWO63)
  }

  // One turn of the loop: the next bit of n moves from q ...
  lemma StepQuotient(n: u64, q: u64, sr: nat, carry: nat, p: nat)
    requires 0 < sr <= 63 && carry <= 1
    requires p < Pow2(64 - sr) && q == Low(n, sr) * Pow2(64 - sr) + p
    ensures Shr(n, sr - 1) == 2 * Shr(n, sr) + (if q < TWO63 then 0 else 1)
    ensures 2 * p + carry < Pow2(64 - (sr - 1))
    ensures (2 * q + carry) % TWO64 == Low(n, sr - 1) * Pow2(64 - (sr - 1)) + (2 * p + carry)
  {
    var k, w := sr - 1, Pow2(64 - sr);
    var t, m := Shr(n, k) % 2, Low(n, k);
    TopBit(n, k);
    Split(n, k);
    assert Pow2(k) * w == TWO63 by { Pow2Add(k, 64 - sr); Pow2Values(); }
    MulEq(Low(n, sr), t * Pow2(k) + m, w, w);
    NextDigit(t, m, Pow2(k), w, p, q);
    assert t == if q < TWO63 then 0 else 1;
    var y := 2 * (m * w + p) + carry;
    assert y == m * Pow2(64 - k) + (2 * p + carry) by { MulPow2(m, 64 - sr); }
    Wrap64(2 * q + carry, t, y);
  }

  lemma Wrap64(x: int, t: int, y: int)
    requires x == t * TWO64 + y && 0 <= y < TWO64
    ensures x % TWO64 == y
  {}

  // ... to r, where it does not overflow.
  lemma StepRemainder(n: u64, d: u64, q: u64, r: u64, sr: nat, carry: nat, p: nat)
    requires Dividing(n, d, q, r, sr, carry, p) && sr > 0
    ensures var t := if q < TWO63 then 0 else 1;
      && Shr(n, sr - 1) == (2 * (2 * p + carry)) * d + (2 * r + t)
      && 2 * r + t < TWO64 && (d >= TWO63 ==> 2 * r + t >= TWO63)
  {
    StepQuotient(n, q, sr, carry, p);
    var K := 2 * p + carry;
    Assoc(2, K, d);
    MulMono(0, K, d);
    MulEq(2 * K, 2 * (2 * p + carry), d, d);
    assert 2 * r + (if q < TWO63 then 0 else 1) <= Shr(n, sr - 1) <= n;
  }

  // q holds the digits to come, t first, above the digits p already found.
  lemma NextDigit(t: nat, m: nat, P: nat, w: nat, p: nat, q: nat)
    requires t <= 1 && m < P && P * w == TWO63 && p < w && q == (t * P + m) * w + p
    ensures q == t * TWO63 + (m * w + p) && 0 <= m * w + p < TWO63
  {
    MulMono(0, m, w);
    Dist(t * P, m, w);
    Assoc(t, P, w);
    MulMono(m + 1, P, w);
    Dist(m, 1, w);
  }

  // One turn on the words: shift r:q left, then take d off r if it fits.
  method Turn(rh: u32, rl: u32, qh: u32, ql: u32, carry: u32, d: u64)
    returns (rAll: u64, qAll: u64, carry': u32)
    requires carry <= 1
    requires var r := 2 * (rh * TWO32 + rl) + (if qh * TWO32 + ql < TWO63 then 0 else 1);
      r < TWO64 && r < 2 * d && (d >= TWO63 ==> r >= TWO63)
    ensures var r := 2 * (rh * TWO32 + rl) + (if qh * TWO32 + ql < TWO63 then 0 else 1);
      carry' == (if r >= d then 1 else 0) && rAll == (if r >= d then r - d else r)
    ensures qAll == (2 * (qh * TWO32 + ql) + carry) % TWO64
  {
    InRange64(2 * (rh * TWO32 + rl) + (if qh * TWO32 + ql < TWO63 then 0 else 1));
    var rh', rl', qh', ql' := ShiftLeftOne(rh, rl, qh, ql, carry);
    rAll, qAll := rh' * TWO32 + rl', qh' * TWO32 + ql';
    var s := if I64(d - rAll - 1) < 0 then -1 else 0;  // the sign bit, spread over the word
    SubtractIfFits(d, rAll, s);
    carry' := And(U64(s), 1);
    rAll := U64(rAll - And(d, U64(s)));
  }

  // After a turn, carry is the new quotient bit.
  lemma LoopStep(n: u64, d: u64, q: u64, r: u64, sr: nat, carry: nat, p: nat, q': u64, r': u64, carry': nat)
    requires Dividing(n, d, q, r, sr, carry, p) && sr > 0
    requires q' == (2 * q + carry) % TWO64
    requires var R := 2 * r + (if q < TWO63 then 0 else 1);
      carry' == (if R >= d then 1 else 0) && r' == (if R >= d then R - d else R)
    ensures Dividing(n, d, q', r', sr - 1, carry', 2 * p + carry)
  {
    StepQuotient(n, q, sr, carry, p);
    StepRemainder(n, d, q, r, sr, carry, p);
    Dist(2 * (2 * p + carry), carry', d);
    MulEq(carry', carry', d, d);
  }

  // After the last turn q holds all quotient bits but the last.
  lemma LoopEnd(n: u64, d: u64, q: u64, r: u64, carry: nat, p: nat)
    requires Dividing(n, d, q, r, 0, carry, p)
    ensures 2 * q + carry < TWO64 && IsQuotRem(n, d, 2 * q + carry, r)
  {
    assert q == p;
    if 2 * p + carry >= TWO64 { MulMono(TWO64, 2 * p + carry, d); }
  }

  // The shift-subtract loop, entered with r:q = n shifted so that r < d.
  method DivisionLoop(n: u64, d: u64, qh: u32, ql: u32, rh: u32, rl: u32, sr0: nat)
    returns (q: u64, r: u64)
    requires Dividing(n, d, qh * TWO32 + ql, rh * TWO32 + rl, sr0, 0, 0)
    ensures IsQuotRem(n, d, q, r)
  {
    var qAll: u64, rAll: u64 := qh * TWO32 + ql, rh * TWO32 + rl;
    var sr, carry: u32 := sr0, 0;
    ghost var p: nat := 0;
    while sr > 0
      invariant Dividing(n, d, qAll, rAll, sr, carry, p)
    {
      StepRemainder(n, d, qAll, rAll, sr, carry, p);
      var r', q', carry' := Turn(rAll / TWO32, rAll % TWO32, qAll / TWO32, qAll % TWO32, carry, d);
      LoopStep(n, d, qAll, rAll, sr, carry, p, q', r', carry');
      rAll, qAll, carry, p := r', q', carry', 2 * p + carry;
      sr := sr - 1;
    }
    LoopEnd(n, d, qAll, rAll, carry, p);
    ShiftOr64(qAll, carry);
    q, r := Or(Shl(64, qAll, 1), carry), rAll;
  }

  lemma ShiftOr64(q: u64, carry: u32)
    requires carry <= 1 && 2 * q + carry < TWO64
    ensures Or(Shl(64, q, 1), carry) == 2 * q + carry
  {
    assert Pow2(1) == 2 && Pow2(64) == TWO64 by { Pow2Values(); }
    Parts(2 * q, 64, 0, 2 * q);
    OrDisjoint(q, carry, 1);
  }

  lemma {:induction false} PowerOfTwoTest(x: nat)
    requires x != 0 && And(x, x - 1) == 0
    ensures x == Pow2(TrailingZeros(x))
  {
    AndBit(x, x - 1);
    if x % 2 == 1 {
      AndSelf(x / 2);
    } else {
      PowerOfTwoTest(x / 2);
    }
  }

  lemma {:induction false} AndSelf(x: nat)
    ensures And(x, x) == x
  {
    if x != 0 { AndSelf(x / 2); }
  }

  lemma BitLenWords(hi: u32, lo: u32)
    requires hi != 0
    ensures BitLen(hi * TWO32 + lo) == 32 + BitLen(hi) && 1 <= BitLen(hi) <= 32
  {
    var n := hi * TWO32 + lo;
    assert Pow2(32) == TWO32 by { Pow2Values(); }
    Parts(n, 32, hi, lo);
    BitLenShr(n, 32);
    BitLenBounds(hi);
    BitLenAtMost(hi, 32);
  }

  // Shifting n until it is one bit shorter than d makes it smaller than d ...
  lemma ShiftedBelow(n: nat, d: nat, bn: nat, bd: nat)
    requires n < Pow2(bn) && bn >= bd > 0 && Pow2(bd - 1) <= d
    ensures Shr(n, bn - bd + 1) < d
  {
    var k, j := bn - bd + 1, bd - 1;
    assert Pow2(bn) == Pow2(k) * Pow2(j) by { Pow2Add(k, j); }
    Split(n, k);
    QuotientBound(n, Shr(n, k), Low(n, k), Pow2(k), Pow2(j));
  }

  // ... and no shift is needed when n is already shorter.
  lemma ShorterBelow(n: u64, d: u64)
    requires n != 0 && d != 0 && BitLen(n) < BitLen(d)
    ensures n < d
  {
    BitLenBounds(n); BitLenBounds(d);
    Pow2Mono(BitLen(n), BitLen(d) - 1);
  }

  lemma TopBitSet(x: u64)
    requires x != 0
    ensures x >= TWO63 <==> BitLen(x) == 64
    ensures BitLen(x) <= 64
  {
    assert Pow2(63) == TWO63 && Pow2(64) == TWO64 by { Pow2Values(); }
    BitLenBounds(x);
    BitLenAtMost(x, 64);
    if x < TWO63 { BitLenAtMost(x, 63); } else { BitLenShr(x, 63); }
  }

  // The state in which the loop is entered.
  lemma LoopStart(n: u64, d: u64, q: u64, r: u64, sr: nat)
    requires n != 0 && d != 0 && BitLen(n) >= BitLen(d) && sr == BitLen(n) - BitLen(d) + 1 <= 63
    requires q == Low(n, sr) * Pow2(64 - sr) && r == Shr(n, sr)
    ensures Dividing(n, d, q, r, sr, 0, 0)
  {
    BitLenBounds(n); BitLenBounds(d);
    ShiftedBelow(n, d, BitLen(n), BitLen(d));
    TopBitSet(n); TopBitSet(d);
  }

  // The same, with the words computed as each range of shifts does it.
  lemma EnterNear(nh: u32, nl: u32, d: u64, sr: nat)
    requires nh != 0 && d != 0 && 1 <= sr <= 31 && sr == BitLen(nh * TWO32 + nl) - BitLen(d) + 1
    ensures Or(Shl(32, nh, 32 - sr), Shr(nl, sr)) < TWO32 && Shl(32, nl, 32 - sr) < TWO32
    ensures Dividing(nh * TWO32 + nl, d, Shl(32, nl, 32 - sr) * TWO32,
                     Shr(nh, sr) * TWO32 + Or(Shl(32, nh, 32 - sr), Shr(nl, sr)), sr, 0, 0)
  {
    ShiftWords(nh, nl, sr);
    ShlBelow(nl, 32 - sr);
    LoopStart(nh * TWO32 + nl, d, Shl(32, nl, 32 - sr) * TWO32,
              Shr(nh, sr) * TWO32 + Or(Shl(32, nh, 32 - sr), Shr(nl, sr)), sr);
  }

  lemma EnterWhole(nh: u32, nl: u32, d: u64)
    requires nh != 0 && d != 0 && 32 == BitLen(nh * TWO32 + nl) - BitLen(d) + 1
    ensures Dividing(nh * TWO32 + nl, d, nl * TWO32, nh, 32, 0, 0)
  {
    ShiftWhole(nh, nl);
    LoopStart(nh * TWO32 + nl, d, nl * TWO32, nh, 32);
  }

  lemma EnterFar(nh: u32, nl: u32, d: u64, sr: nat)
    requires nh != 0 && d != 0 && 33 <= sr <= 63 && sr == BitLen(nh * TWO32 + nl) - BitLen(d) + 1
    ensures Or(Shl(32, nh, 64 - sr), Shr(nl, sr - 32)) < TWO32 && Shl(32, nl, 64 - sr) < TWO32
    ensures Dividing(nh * TWO32 + nl, d, Or(Shl(32, nh, 64 - sr), Shr(nl, sr - 32)) * TWO32 + Shl(32, nl, 64 - sr),
                     Shr(nh, sr - 32), sr, 0, 0)
  {
    var j := sr - 32;
    ShiftFar(nh, nl, j);
    ShiftWordsFar(nh, nl, j);
    ShlBelow(nl, 64 - sr);
    var q: u64 := Or(Shl(32, nh, 32 - j), Shr(nl, j)) * TWO32 + Shl(32, nl, 32 - j);
    LoopStart(nh * TWO32 + nl, d, q, Shr(nh, j), sr);
  }

  lemma ShlBelow(x: u32, k: nat)
    ensures Shl(32, x, k) < TWO32
  {
    assert Pow2(32) == TWO32 by { Pow2Values(); }
    Split(x * Pow2(k), 32);
  }

  lemma NoShift(nh: u32, nl: u32, dh: u32, dl: u32)
    requires nh != 0 && dh != 0 && BitLen(nh) < BitLen(dh)
    ensures IsQuotRem(nh * TWO32 + nl, dh * TWO32 + dl, 0, nh * TWO32 + nl)
  {
    BitLenWords(nh, nl);
    BitLenWords(dh, dl);
    ShorterBelow(nh * TWO32 + nl, dh * TWO32 + dl);
  }

  lemma ShiftWhole(nh: u32, nl: u32)
    ensures Shr(nh * TWO32 + nl, 32) == nh && Low(nh * TWO32 + nl, 32) * Pow2(32) == nl * TWO32
  {
    assert Pow2(32) == TWO32 by { Pow2Values(); }
    Parts(nh * TWO32 + nl, 32, nh, nl);
  }

  // Dividing by a word that is no power of two leaves room in the quotient's first word.
  lemma NotPowerOfTwo(x: u32)
    requires x != 0 && And(x, x - 1) != 0
    ensures 2 <= BitLen(x) <= 32
  {
    assert And(1, 0) == 0 && And(2, 1) == 0;
    assert Pow2(32) == TWO32 by { Pow2Values(); }
    BitLenAtMost(x, 32);
    assert BitLen(x) == 2 + BitLen(x / 2 / 2);
  }

  lemma ScaleQuotient(n: int, d: int, q: int, r: int, l: u32)
    requires IsQuotRem(n, d, q, r)
    ensures IsQuotRem(n * TWO32 + l, d * TWO32, q, r * TWO32 + l)
  {
    Assoc(q, d, TWO32);
  }

  lemma DivMod(n: int, d: int)
    requires d > 0
    ensures IsQuotRem(n, d, n / d, n % d)
  {}

  lemma HighWords(nh: u32, dh: u32)
    requires dh != 0
    ensures IsQuotRem(nh * TWO32, dh * TWO32, nh / dh, nh % dh * TWO32) && nh % dh * TWO32 < TWO64
  {
    DivMod(nh, dh);
    ScaleQuotient(nh, dh, nh / dh, nh % dh, 0);
  }

  // A power of two in the high word of the divisor.
  lemma HighPower(nh: u32, nl: u32, dh: u32, k: nat)
    requires dh != 0 && And(dh, dh - 1) == 0 && k == TrailingZeros(dh)
    ensures And(nh, dh - 1) * TWO32 + nl < TWO64
    ensures IsQuotRem(nh * TWO32 + nl, dh * TWO32, Shr(nh, k), And(nh, dh - 1) * TWO32 + nl)
  {
    PowerOfTwoTest(dh);
    AndLowMask(nh, k);
    Split(nh, k);
    ScaleQuotient(nh, dh, Shr(nh, k), Low(nh, k), nl);
  }

  // A power of two 2^k, k >= 1, in the low word of the divisor.
  lemma LowPower(nh: u32, nl: u32, k: nat)
    requires 1 < Pow2(k) < TWO32
    ensures 1 <= k <= 31
    ensures var qh, ql := Shr(nh, k), Or(Shl(32, nh, 32 - k), Shr(nl, k));
      ql < TWO32 && IsQuotRem(nh * TWO32 + nl, Pow2(k), qh * TWO32 + ql, Low(nl, k))
  {
    assert Pow2(32) == TWO32 by { Pow2Values(); }
    if k >= 32 { Pow2Mono(32, k); }
    ShiftWords(nh, nl, k);
    Split(nh * TWO32 + nl, k);
    SameQuotient(nh * TWO32 + nl, Pow2(k), Shr(nh * TWO32 + nl, k),
                 Shr(nh, k) * TWO32 + Or(Shl(32, nh, 32 - k), Shr(nl, k)), Low(nl, k));
  }

  lemma SameQuotient(n: int, d: int, q: int, q': int, r: int)
    requires n == q * d + r && 0 <= r < d && q == q'
    ensures IsQuotRem(n, d, q', r)
  {}

  // clz(d) - clz(n) in unsigned arithmetic: large when d is the longer word.
  method LeadingZerosApart(d: u32, n: u32) returns (sr: u32)
    requires d != 0 && n != 0
    ensures BitLen(n) >= BitLen(d) ==> sr == BitLen(n) - BitLen(d) <= 31
    ensures BitLen(n) < BitLen(d) ==> sr > 31
  {
    BitLenWords(d, 0);
    BitLenWords(n, 0);
    var cd: int := Clzsi2(d);
    var cn := Clzsi2(n);
    sr := U32(cd - cn);
  }

  // K X / K 0
  method DivideByHighWord(nHigh: u32, nLow: u32, dHigh: u32) returns (quot: u64, rem: u64)
    requires nHigh != 0 && dHigh != 0
    ensures IsQuotRem(nHigh * TWO32 + nLow, dHigh * TWO32, quot, rem)
  {
    if nLow == 0 {
      HighWords(nHigh, dHigh);
      return nHigh / dHigh, nHigh % dHigh * TWO32;
    }
    if And(dHigh, dHigh - 1) == 0 {
      var k := Ctzsi2(dHigh);
      HighPower(nHigh, nLow, dHigh, k);
      return Shr(nHigh, k), And(nHigh, dHigh - 1) * TWO32 + nLow;
    }
    quot, rem := DivideByHighWordLoop(nHigh, nLow, dHigh);
  }

  method DivideByHighWordLoop(nHigh: u32, nLow: u32, dHigh: u32) returns (quot: u64, rem: u64)
    requires nHigh != 0 && dHigh != 0 && And(dHigh, dHigh - 1) != 0
    ensures IsQuotRem(nHigh * TWO32 + nLow, dHigh * TWO32, quot, rem)
  {
    NotPowerOfTwo(dHigh);
    BitLenWords(nHigh, nLow);
    BitLenWords(dHigh, 0);
    var n: u64, d: u64 := nHigh * TWO32 + nLow, dHigh * TWO32;
    var sr: int := LeadingZerosApart(dHigh, nHigh);
    if sr > 30 {
      NoShift(nHigh, nLow, dHigh, 0);
      return 0, n;
    }
    sr := sr + 1;
    EnterNear(nHigh, nLow, d, sr);
    var qHigh, qLow := Shl(32, nLow, 32 - sr), 0;
    var rHigh, rLow := Shr(nHigh, sr), Or(Shl(32, nHigh, 32 - sr), Shr(nLow, sr));
    quot, rem := DivisionLoop(n, d, qHigh, qLow, rHigh, rLow, sr);
  }

  // K X / 0 K
  method DivideByLowWord(nHigh: u32, nLow: u32, dLow: u32) returns (quot: u64, rem: u64)
    requires nHigh != 0 && dLow != 0
    ensures IsQuotRem(nHigh * TWO32 + nLow, dLow, quot, rem)
  {
    if And(dLow, dLow - 1) == 0 {
      if dLow == 1 {
        return nHigh * TWO32 + nLow, And(nLow, dLow - 1);
      }
      var k := Ctzsi2(dLow);
      PowerOfTwoTest(dLow);
      LowPower(nHigh, nLow, k);
      AndLowMask(nLow, k);
      var qHigh, qLow := Shr(nHigh, k), Or(Shl(32, nHigh, 32 - k), Shr(nLow, k));
      return qHigh * TWO32 + qLow, And(nLow, dLow - 1);
    }
    NotPowerOfTwo(dLow);
    BitLenWords(nHigh, nLow);
    var cd: int := Clzsi2(dLow);
    var cn := Clzsi2(nHigh);
    var sr := 1 + 32 + cd - cn;
    var n: u64 := nHigh * TWO32 + nLow;
    var qHigh: u32, qLow: u32, rHigh: u32, rLow: u32;
    if sr == 32 {
      EnterWhole(nHigh, nLow, dLow);
      qLow, qHigh, rHigh, rLow := 0, nLow, 0, nHigh;
    } else if sr < 32 {
      EnterNear(nHigh, nLow, dLow, sr);
      qLow, qHigh := 0, Shl(32, nLow, 32 - sr);
      rHigh, rLow := Shr(nHigh, sr), Or(Shl(32, nHigh, 32 - sr), Shr(nLow, sr));
    } else {
      EnterFar(nHigh, nLow, dLow, sr);
      qLow := Shl(32, nLow, 64 - sr);
      qHigh := Or(Shl(32, nHigh, 64 - sr), Shr(nLow, sr - 32));
      rHigh, rLow := 0, Shr(nHigh, sr - 32);
    }
    quot, rem := DivisionLoop(n, dLow, qHigh, qLow, rHigh, rLow, sr);
  }

  // K X / K K
  method DivideByTwoWords(nHigh: u32, nLow: u32, dHigh: u32, dLow: u32) returns (quot: u64, rem: u64)
    requires nHigh != 0 && dHigh != 0
    ensures IsQuotRem(nHigh * TWO32 + nLow, dHigh * TWO32 + dLow, quot, rem)
  {
    BitLenWords(nHigh, nLow);
    BitLenWords(dHigh, dLow);
    var n: u64, d: u64 := nHigh * TWO32 + nLow, dHigh * TWO32 + dLow;
    var sr: int := LeadingZerosApart(dHigh, nHigh);
    if sr > 31 {
      NoShift(nHigh, nLow, dHigh, dLow);
      return 0, n;
    }
    sr := sr + 1;
    var qLow, qHigh: u32, rHigh: u32, rLow: u32 := 0, 0, 0, 0;
    if sr == 32 {
      EnterWhole(nHigh, nLow, d);
      qHigh, rHigh, rLow := nLow, 0, nHigh;
    } else {
      EnterNear(nHigh, nLow, d, sr);
      qHigh := Shl(32, nLow, 32 - sr);
      rHigh, rLow := Shr(nHigh, sr), Or(Shl(32, nHigh, 32 - sr), Shr(nLow, sr));
    }
    quot, rem := DivisionLoop(n, d, qHigh, qLow, rHigh, rLow, sr);
  }

  // A 64-bit integer and its two words (union udwords).
  lemma Words(x: u64)
    ensures x / TWO32 < TWO32 && x % TWO32 < TWO32
    ensures (x / TWO32) * TWO32 + x % TWO32 == x
  {}

  // Neither has a high word.
  method DivideLowWords(nLow: u32, dLow: u32) returns (quot: u64, rem: u64)
    requires dLow != 0
    ensures IsQuotRem(0 * TWO32 + nLow, 0 * TWO32 + dLow, quot, rem)
  {
    DivMod(nLow, dLow);
    quot, rem := nLow / dLow, nLow % dLow;
  }

  // Quotient and remainder of a and b; b != 0, since the C code divides by zero otherwise
  // (its branch for both divisor words zero).
  method Udivmoddi4(a: u64, b: u64) returns (quot: u64, rem: u64)
    requires b != 0
    ensures IsQuotRem(a, b, quot, rem)
  {
    Words(a);
    Words(b);
    quot, rem := DivideWords(a / TWO32, a % TWO32, b / TWO32, b % TWO32);
  }

  // The choice of the branch, on the four words.
  method DivideWords(nHigh: u32, nLow: u32, dHigh: u32, dLow: u32) returns (quot: u64, rem: u64)
    requires dHigh != 0 || dLow != 0
    ensures IsQuotRem(nHigh * TWO32 + nLow, dHigh * TWO32 + dLow, quot, rem)
  {
    if nHigh == 0 {
      if dHigh == 0 {
        quot, rem := DivideLowWords(nLow, dLow);
      } else {
        quot, rem := 0, nLow;
      }
    } else if dLow == 0 {
      quot, rem := DivideByHighWord(nHigh, nLow, dHigh);
    } else if dHigh == 0 {
      quot, rem := DivideByLowWord(nHigh, nLow, dLow);
    } else {
      quot, rem := DivideByTwoWords(nHigh, nLow, dHigh, dLow);
    }
  }

  // ------------------------------------------------- counts of a double word

  // high if pick is all ones, low if it is zero.
  lemma Pick(high: u32, low: u32, pick: bool)
    ensures Or(And(high, if pick then TWO32 - 1 else 0), And(low, if pick then 0 else TWO32 - 1))
         == if pick then high else low
  {
    assert Pow2(32) == TWO32 by { Pow2Values(); }
    AndLowMask(high, 32); AndLowMask(low, 32);
    Parts(high, 32, 0, high); Parts(low, 32, 0, low);
    AndFacts(high, 0); AndFacts(low, 0);
  }

  // f and ~f, with f = -(word == 0), as masks.
  function MaskIf(c: bool): u32 { U32(if c then -1 else 0) }

  lemma MaskIfValues(c: bool)
    ensures MaskIf(c) == (if c then TWO32 - 1 else 0)
  {}

  method Ctzdi2(a: u64) returns (n: nat)
    requires a != 0
    ensures n == TrailingZeros(a)
  {
    var high: u32, low: u32 := a / TWO32, a % TWO32;
    Pick(high, low, low == 0);
    MaskIfValues(low == 0); MaskIfValues(low != 0);
    var t := Ctzsi2(Or(And(high, MaskIf(low == 0)), And(low, MaskIf(low != 0))));
    assert Pow2(32) == TWO32 by { Pow2Values(); }
    Parts(a, 32, high, low);
    if low == 0 { TrailingZerosShr(a, 32); } else { TrailingZerosLow(high, low, 32); }
    n := t + if low == 0 then 32 else 0;
  }

  lemma {:induction false} TrailingZerosLow(hi: nat, lo: nat, k: nat)
    requires 0 < lo < Pow2(k)
    ensures hi * Pow2(k) + lo != 0 && TrailingZeros(hi * Pow2(k) + lo) == TrailingZeros(lo)
  {
    MulPow2(hi, k - 1);
    MulMono(0, hi, Pow2(k));
    if lo % 2 == 0 { TrailingZerosLow(hi, lo / 2, k - 1); }
  }

  method Clzdi2(a: u64) returns (n: nat)
    requires a != 0
    ensures n == 64 - BitLen(a)
  {
    var high: u32, low: u32 := a / TWO32, a % TWO32;
    Pick(high, low, high != 0);
    MaskIfValues(high == 0); MaskIfValues(high != 0);
    var t := Clzsi2(Or(And(high, MaskIf(high != 0)), And(low, MaskIf(high == 0))));
    if high != 0 { BitLenWords(high, low); }
    n := t + if high == 0 then 32 else 0;
  }

  // --------------------------------------------------------- signed division

  const MIN64: i64 := -0x8000_0000_0000_0000

  function AbsVal(x: int): nat { if x < 0 then -x else x }

  // The quotient and remainder that section 6.5.5 of ISO C11 asks for: truncation toward
  // zero, so that the remainder has the sign of the dividend.
  ghost predicate IsTruncated(a: int, b: int, q: int, r: int) {
    && a == q * b + r
    && AbsVal(r) < AbsVal(b)
    && (r != 0 ==> (r < 0 <==> a < 0))
  }

  // The one division whose quotient has no 64-bit representation.
  predicate Unrepresentable(a: i64, b: i64) { a == MIN64 && b == -1 }

  // (x ^ s) - s, with s = x >> 63 of some word: x or -x, wrapping around.
  function NegateIf(x: int, s: int): i64
    requires s == 0 || s == -1
  {
    I64(Xor(U64(x), U64(s)) - s)
  }

  lemma NegateIfMeans(x: int, s: int)
    requires s == 0 || s == -1
    ensures NegateIf(x, s) == I64(if s == 0 then x else -x)
  {
    if s == -1 {
      assert U64(s) == TWO64 - 1;
      assert Xor(U64(x), TWO64 - 1) == TWO64 - 1 - U64(x) by {
        assert Pow2(64) == TWO64 by { Pow2Values(); }
        XorOnes(U64(x), 64);
      }
      SameWord(TWO64 - U64(x), -x);
    } else {
      SameWord(U64(x), x);
    }
  }

  lemma SameWord(x: int, y: int)
    requires x % TWO64 == y % TWO64
    ensures I64(x) == I64(y) && U64(x) == U64(y)
  {}

  // Taking the absolute value this way is right even for MIN64, read as an unsigned word.
  lemma Magnitude(x: i64)
    ensures U64(NegateIf(x, if x < 0 then -1 else 0)) == AbsVal(x)
  {
    NegateIfMeans(x, if x < 0 then -1 else 0);
    WordOfSigned(AbsVal(x));
  }

  lemma WordOfSigned(x: int)
    ensures U64(I64(x)) == U64(x)
  {}

  lemma SignsOfQuotient(a: int, b: int, q: int, r: int)
    requires b != 0 && IsQuotRem(AbsVal(a), AbsVal(b), q, r) && q >= 0
    ensures IsTruncated(a, b, if (a < 0) != (b < 0) then -q else q, if a < 0 then -r else r)
  {
    assert (-q) * b == -(q * b) && q * (-b) == -(q * b);
  }

  // Only a quotient of magnitude 2^63 is out of range.
  lemma QuotientRange(a: i64, b: i64, q: int, r: int)
    requires b != 0 && IsQuotRem(AbsVal(a), AbsVal(b), q, r) && q >= 0
    ensures q <= TWO63 && (q == TWO63 ==> AbsVal(a) == TWO63 && AbsVal(b) == 1)
    ensures Unrepresentable(a, b) ==> q == TWO63
  {
    var m := AbsVal(b);
    if m == 1 {
    } else {
      MulMono(2, m, q);
    }
  }

  lemma XorSigns(sA: int, sB: int)
    requires sA in {0, -1} && sB in {0, -1}
    ensures I64(Xor(U64(sA), U64(sB))) == if sA == sB then 0 else -1
  {
    var ones := TWO64 - 1;
    assert U64(-1) == ones && U64(0) == 0;
    assert Xor(ones, ones) == 0 by {
      assert Pow2(64) == TWO64 by { Pow2Values(); }
      XorOnes(ones, 64);
    }
  }

  method Divdi3(a: i64, b: i64) returns (q: i64)
    requires b != 0
    ensures !Unrepresentable(a, b) ==> IsTruncated(a, b, q, a - q * b)
    ensures Unrepresentable(a, b) ==> q == MIN64
  {
    var sA, sB := if a < 0 then -1 else 0, if b < 0 then -1 else 0;
    Magnitude(a); Magnitude(b);
    var uq, ur := Udivmoddi4(U64(NegateIf(a, sA)), U64(NegateIf(b, sB)));
    SignsOfQuotient(a, b, uq, ur);
    QuotientRange(a, b, uq, ur);
    XorSigns(sA, sB);
    sA := I64(Xor(U64(sA), U64(sB)));
    NegateIfMeans(uq, sA);
    q := NegateIf(uq, sA);
    SignedRange(uq, sA);
  }

  lemma SignedRange(q: u64, s: int)
    requires s in {0, -1} && q <= TWO63
    ensures q < TWO63 || s == -1 ==> I64(if s == 0 then q else 0 - q) == if s == 0 then q else 0 - q
    ensures q == TWO63 ==> I64(if s == 0 then q else 0 - q) == MIN64
  {}

  method Moddi3(a: i64, b: i64) returns (r: i64)
    requires b != 0
    ensures exists q :: IsTruncated(a, b, q, r)
  {
    var sB, sA := if b < 0 then -1 else 0, if a < 0 then -1 else 0;
    Magnitude(a); Magnitude(b);
    var uq, ur := Udivmoddi4(U64(NegateIf(a, sA)), U64(NegateIf(b, sB)));
    SignsOfQuotient(a, b, uq, ur);
    NegateIfMeans(ur, sA);
    SignedRange(ur, sA);
    r := NegateIf(ur, sA);
  }

  method Divmoddi4(a: i64, b: i64) returns (d: i64, rem: i64)
    requires b != 0
    ensures !Unrepresentable(a, b) ==> IsTruncated(a, b, d, rem)
    ensures Unrepresentable(a, b) ==> d == MIN64 && rem == 0
  {
    d := Divdi3(a, b);
    rem := I64(a - I64(d * b));
    if !Unrepresentable(a, b) { WrappedProduct(a, d * b); }
  }

  // The product may wrap, the difference comes out right all the same.
  lemma WrappedProduct(a: i64, x: int)
    requires MIN64 <= a - x < TWO63
    ensures I64(a - I64(x)) == a - x
  {
    SameWord(a - I64(x), a - x);
  }

  // Quotient and remainder are unique, so the contracts above fix the results.
  lemma TruncatedUnique(a: int, b: int, q: int, r: int, q': int, r': int)
    requires b != 0 && IsTruncated(a, b, q, r) && IsTruncated(a, b, q', r')
    ensures q == q' && r == r'
  {
    Dist(q, q', b);
    if q != q' { MagnitudeGrows(q - q', b); }
  }

  lemma MagnitudeGrows(k: int, b: int)
    requires k != 0
    ensures AbsVal(k * b) >= AbsVal(b)
  {}
}
