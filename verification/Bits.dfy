/** Facts of non-linear arithmetic, one step each. */
module Arith {

  lemma MulAtLeast(d: int, k: int)
    requires d > 0
    ensures k >= 1 ==> d * k >= d
    ensures k <= -1 ==> d * k <= -d
  {}

  lemma MulMono(a: nat, b: nat, c: nat)
    requires a <= b
    ensures a * c <= b * c
  {}

  lemma MulEq(a: int, b: int, c: int, d: int)
    requires a == b && c == d
    ensures a * c == b * d
  {}

  lemma Commute(a: int, b: int)
    ensures a * b == b * a
  {}

  lemma Assoc(a: int, b: int, c: int)
    ensures a * b * c == a * (b * c) == a * c * b
  {}

  lemma Dist(a: int, b: int, c: int)
    ensures (a + b) * c == a * c + b * c
    ensures (a - b) * c == a * c - b * c
  {}

  // A product with a factor that is itself known as a product.
  lemma MulSubst(a: int, b: int, c: int, d: int)
    requires b * c == d
    ensures a * b * c == a * d
  {
    Assoc(a, b, c);
  }

  lemma QuotientBound(x: nat, q: nat, l: nat, P: nat, p: nat)
    requires x == q * P + l && x < P * p
    ensures q < p
  {
    if q >= p { MulMono(p, q, P); }
  }

  lemma ScaleSplit(x: nat, h: nat, l: nat, P: nat, p: nat, W: nat)
    requires x == h * P + l && l < P && P * p == W
    ensures x * p == h * W + l * p && l * p + p <= W
  {
    Dist(h * P, l, p);
    Assoc(h, P, p);
    MulMono(l + 1, P, p);
    Dist(l, 1, p);
  }
}

/** Bitwise operators of unsigned machine words, on natural numbers.

    The operators are defined bit by bit, so that a C expression can be written
    down as it stands; the lemmas say what the shifts and masks that the sources
    use mean arithmetically. */
module Bits {
  import opened Arith

  function Pow2(n: nat): (p: nat)
    ensures p >= 1
  {
    if n == 0 then 1 else 2 * Pow2(n - 1)
  }

  function And(x: nat, y: nat): nat {
    if x == 0 || y == 0 then 0
    else (if x % 2 == 1 && y % 2 == 1 then 1 else 0) + 2 * And(x / 2, y / 2)
  }

  function Or(x: nat, y: nat): nat {
    if x == 0 then y else if y == 0 then x
    else (if x % 2 == 1 || y % 2 == 1 then 1 else 0) + 2 * Or(x / 2, y / 2)
  }

  function Xor(x: nat, y: nat): nat {
    if x == 0 then y else if y == 0 then x
    else (if x % 2 != y % 2 then 1 else 0) + 2 * Xor(x / 2, y / 2)
  }

  // x >> k
  function Shr(x: nat, k: nat): (y: nat)
    ensures y <= x
    decreases x, k
  {
    if k == 0 then x else Shr(x / 2, k - 1)
  }

  // The low k bits of x.
  function Low(x: nat, k: nat): nat
    decreases x, k
  {
    if k == 0 then 0 else x % 2 + 2 * Low(x / 2, k - 1)
  }

  // x << k in a word of w bits; bits shifted out are lost.
  function Shl(w: nat, x: nat, k: nat): nat {
    Low(x * Pow2(k), w)
  }

  lemma {:induction false} Pow2Add(a: nat, b: nat)
    ensures Pow2(a + b) == Pow2(a) * Pow2(b)
  {
    if a > 0 {
      Pow2Add(a - 1, b);
      assert Pow2(a) * Pow2(b) == 2 * (Pow2(a - 1) * Pow2(b));
    }
  }

  lemma {:induction false} Pow2Mono(a: nat, b: nat)
    requires a <= b
    ensures Pow2(a) <= Pow2(b)
    ensures a < b ==> 2 * Pow2(a) <= Pow2(b)
  {
    if a < b { Pow2Mono(a, b - 1); }
  }

  lemma Pow2Values()
    ensures Pow2(0) == 1 && Pow2(1) == 2 && Pow2(2) == 4 && Pow2(3) == 8 && Pow2(4) == 16
    ensures Pow2(8) == 0x100 && Pow2(9) == 0x200 && Pow2(10) == 0x400 && Pow2(12) == 0x1000
    ensures Pow2(16) == 0x1_0000 && Pow2(31) == 0x8000_0000 && Pow2(32) == 0x1_0000_0000
    ensures Pow2(63) == 0x8000_0000_0000_0000 && Pow2(64) == 0x1_0000_0000_0000_0000
  {
    assert Pow2(8) == 0x100;
    assert Pow2(16) == 0x1_0000 by { Pow2Add(8, 8); }
    assert Pow2(31) == 0x8000_0000 by { Pow2Add(16, 15); assert Pow2(15) == 0x8000; }
    assert Pow2(63) == 0x8000_0000_0000_0000 by { Pow2Add(31, 32); }
  }

  // A number is its high part, shifted, plus its low part.
  lemma {:induction false} Split(x: nat, k: nat)
    ensures x == Shr(x, k) * Pow2(k) + Low(x, k) && Low(x, k) < Pow2(k)
  {
    if k > 0 {
      var q, p := Shr(x / 2, k - 1), Pow2(k - 1);
      Split(x / 2, k - 1);
      assert Pow2(k) == 2 * p && Shr(x, k) == q;
      Commute(q, 2 * p);
      Assoc(2, p, q);
      Commute(p, q);
    }
  }

  // ... and the parts are determined by that.
  lemma {:induction false} Parts(x: nat, k: nat, hi: nat, lo: nat)
    requires x == hi * Pow2(k) + lo && lo < Pow2(k)
    ensures Shr(x, k) == hi && Low(x, k) == lo
  {
    if k > 0 {
      assert hi * Pow2(k) == 2 * (hi * Pow2(k - 1));
      Parts(x / 2, k - 1, hi, lo / 2);
    }
  }

  lemma {:induction false} ShrShr(x: nat, j: nat, k: nat)
    ensures Shr(Shr(x, j), k) == Shr(x, j + k)
  {
    if j > 0 { ShrShr(x / 2, j - 1, k); }
  }

  lemma DivUnique(x: int, d: int, q: int, r: int)
    requires d > 0 && x == d * q + r && 0 <= r < d
    ensures x / d == q && x % d == r
  {
    var q', r' := x / d, x % d;
    assert x == d * q' + r';
    assert d * (q - q') == d * q - d * q';
    MulAtLeast(d, q - q');
  }

  lemma MulPow2(h: nat, k: nat)
    ensures h * Pow2(k + 1) == 2 * (h * Pow2(k))
  {}

  // Shifting and masking are division and remainder.
  lemma ShrIsDiv(x: nat, k: nat)
    ensures Shr(x, k) == x / Pow2(k) && Low(x, k) == x % Pow2(k)
  {
    Split(x, k);
    DivUnique(x, Pow2(k), Shr(x, k), Low(x, k));
  }

  lemma AndBit(x: nat, y: nat)
    ensures And(x, y) == (if x % 2 == 1 && y % 2 == 1 then 1 else 0) + 2 * And(x / 2, y / 2)
  {}

  lemma OrBit(x: nat, y: nat)
    ensures Or(x, y) == (if x % 2 == 1 || y % 2 == 1 then 1 else 0) + 2 * Or(x / 2, y / 2)
  {}

  lemma LowHalf(x: nat, k: nat)
    requires k > 0
    ensures Low(x, k) / 2 == Low(x / 2, k - 1) && Low(x, k) % 2 == x % 2
  {}

  // And and Or work bit by bit: they split at any power of two.
  lemma {:induction false} AndSplit(x: nat, y: nat, k: nat)
    ensures And(x, y) == And(Shr(x, k), Shr(y, k)) * Pow2(k) + And(Low(x, k), Low(y, k))
  {
    if k > 0 {
      var h, l := And(Shr(x, k), Shr(y, k)), And(Low(x / 2, k - 1), Low(y / 2, k - 1));
      AndSplit(x / 2, y / 2, k - 1);
      MulPow2(h, k - 1);
      AndBit(x, y);
      assert And(Low(x, k), Low(y, k)) == (if x % 2 == 1 && y % 2 == 1 then 1 else 0) + 2 * l by {
        LowHalf(x, k); LowHalf(y, k);
        AndBit(Low(x, k), Low(y, k));
      }
    } else {
      assert Pow2(0) == 1;
    }
  }

  lemma {:induction false} OrSplit(x: nat, y: nat, k: nat)
    ensures Or(x, y) == Or(Shr(x, k), Shr(y, k)) * Pow2(k) + Or(Low(x, k), Low(y, k))
  {
    if k > 0 {
      var h, l := Or(Shr(x, k), Shr(y, k)), Or(Low(x / 2, k - 1), Low(y / 2, k - 1));
      OrSplit(x / 2, y / 2, k - 1);
      MulPow2(h, k - 1);
      OrBit(x, y);
      assert Or(Low(x, k), Low(y, k)) == (if x % 2 == 1 || y % 2 == 1 then 1 else 0) + 2 * l by {
        LowHalf(x, k); LowHalf(y, k);
        OrBit(Low(x, k), Low(y, k));
      }
    } else {
      assert Pow2(0) == 1;
    }
  }

  // Masking with 2^k - 1 keeps the low k bits.
  lemma {:induction false} AndLowMask(x: nat, k: nat)
    ensures And(x, Pow2(k) - 1) == Low(x, k)
  {
    if k > 0 {
      AndLowMask(x / 2, k - 1);
      AndBit(x, Pow2(k) - 1);
      assert (Pow2(k) - 1) / 2 == Pow2(k - 1) - 1 && (Pow2(k) - 1) % 2 == 1;
    }
  }

  lemma AndHigh(x: nat, m: nat, k: nat)
    requires Low(m, k) == 0
    ensures And(x, m) == And(Shr(x, k), Shr(m, k)) * Pow2(k)
  {
    AndSplit(x, m, k);
  }

  // A mask m of h ones starting at bit k selects those bits.
  lemma AndField(x: nat, m: nat, h: nat, k: nat)
    requires m == (Pow2(h) - 1) * Pow2(k)
    ensures And(x, m) == Low(Shr(x, k), h) * Pow2(k)
  {
    Parts(m, k, Pow2(h) - 1, 0);
    AndHigh(x, m, k);
    AndLowMask(Shr(x, k), h);
  }

  // Masking with ~(2^k - 1) in a word of w bits clears the low k bits.
  lemma AndComplement(x: nat, w: nat, k: nat)
    requires x < Pow2(w) && k <= w
    ensures Pow2(k) <= Pow2(w) && And(x, Pow2(w) - Pow2(k)) == x - Low(x, k) == Shr(x, k) * Pow2(k)
  {
    Pow2Add(w - k, k);
    ClearLow(x, k, w - k, Pow2(k), Pow2(w));
  }

  lemma ClearLow(x: nat, k: nat, h: nat, p: nat, w: nat)
    requires p == Pow2(k) && w == Pow2(h) * p && x < w
    ensures p <= w && And(x, w - p) == x - Low(x, k) == Shr(x, k) * p
  {
    var y := Shr(x, k);
    ComplementMask(Pow2(h), p, w);
    AndField(x, w - p, h, k);
    Split(x, k);
    QuotientBound(x, y, Low(x, k), p, Pow2(h));
    Parts(y, h, 0, y);
  }

  lemma ComplementMask(a: nat, p: nat, w: nat)
    requires a >= 1 && a * p == w
    ensures p <= w && w - p == (a - 1) * p && p * a == w
  {
    MulMono(1, a, p);
    Dist(a, 1, p);
  }

  // Or of words that share no bit is their sum.
  lemma OrDisjoint(x: nat, y: nat, k: nat)
    requires y < Pow2(k)
    ensures Or(x * Pow2(k), y) == x * Pow2(k) + y
  {
    OrSplit(x * Pow2(k), y, k);
    Parts(x * Pow2(k), k, x, 0);
    Parts(y, k, 0, y);
  }

  lemma {:induction false} OrBound(x: nat, y: nat, k: nat)
    requires x < Pow2(k) && y < Pow2(k)
    ensures Or(x, y) < Pow2(k) && Or(x, y) >= x
  {
    if x != 0 && y != 0 { OrBound(x / 2, y / 2, k - 1); }
  }

  // Exclusive or with a word of w ones is the complement.
  lemma {:induction false} XorOnes(x: nat, w: nat)
    requires x < Pow2(w)
    ensures Xor(x, Pow2(w) - 1) == Pow2(w) - 1 - x
  {
    if w > 0 && x != 0 {
      XorOnes(x / 2, w - 1);
      assert (Pow2(w) - 1) / 2 == Pow2(w - 1) - 1 && (Pow2(w) - 1) % 2 == 1;
    }
  }

  // Number of bits up to the highest one.
  function BitLen(x: nat): nat { if x == 0 then 0 else 1 + BitLen(x / 2) }

  lemma {:induction false} BitLenBounds(x: nat)
    requires x != 0
    ensures BitLen(x) >= 1 && Pow2(BitLen(x) - 1) <= x < Pow2(BitLen(x))
  {
    if x > 1 { BitLenBounds(x / 2); }
  }

  lemma {:induction false} BitLenAtMost(x: nat, k: nat)
    requires x < Pow2(k)
    ensures BitLen(x) <= k
  {
    if x != 0 { BitLenAtMost(x / 2, k - 1); }
  }

  lemma {:induction false} BitLenShr(x: nat, k: nat)
    requires x >= Pow2(k)
    ensures Shr(x, k) != 0 && BitLen(x) == k + BitLen(Shr(x, k))
  {
    if k > 0 { BitLenShr(x / 2, k - 1); }
  }

  // Bit i of x.
  predicate Bit(x: nat, i: nat) { Shr(x, i) % 2 == 1 }

  lemma {:induction false} OrBits(x: nat, y: nat, i: nat)
    ensures Bit(Or(x, y), i) <==> Bit(x, i) || Bit(y, i)
  {
    OrBit(x, y);
    if i > 0 { OrBits(x / 2, y / 2, i - 1); } else { assert Shr(0, 0) == 0; }
  }

  lemma {:induction false} AllBits(x: nat, k: nat)
    requires x < Pow2(k) && forall i {:trigger Bit(x, i)} :: 0 <= i < k ==> Bit(x, i)
    ensures x == Pow2(k) - 1
  {
    if k > 0 {
      assert Bit(x, 0);
      forall i | 0 <= i < k - 1
        ensures Bit(x / 2, i)
      {
        assert Bit(x, i + 1);
      }
      AllBits(x / 2, k - 1);
    }
  }
}
