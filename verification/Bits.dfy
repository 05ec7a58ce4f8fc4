/** Powers of two, and the single bits of unsigned numbers. */
module Bits {

  function Pow2(n: nat): (p: nat)
    ensures p >= 1
  {
    if n == 0 then 1 else 2 * Pow2(n - 1)
  }

  lemma Powers()
    ensures Pow2(2) == 4 && Pow2(3) == 8 && Pow2(4) == 16 && Pow2(9) == 0x200 && Pow2(12) == 0x1000
    ensures Pow2(14) == 0x4000 && Pow2(15) == 0x8000 && Pow2(22) == 0x40_0000
  {
    assert Pow2(6) == 64 && Pow2(8) == 256 && Pow2(10) == 1024;
    assert Pow2(16) == 0x1_0000 && Pow2(18) == 0x4_0000 && Pow2(20) == 0x10_0000;
  }

  /** `x >> n` on an unsigned value. */
  function Shr(x: nat, n: nat): nat { if n == 0 then x else Shr(x, n - 1) / 2 }

  lemma {:induction false} ShrBounds(x: nat, n: nat)
    ensures Shr(x, n) * Pow2(n) <= x < Shr(x, n) * Pow2(n) + Pow2(n)
  {
    if n > 0 {
      ShrBounds(x, n - 1);
      var y, p := Shr(x, n - 1), Pow2(n - 1);
      Halve(x, y, p);
    }
  }

  lemma Halve(x: nat, y: nat, p: nat)
    requires y * p <= x < y * p + p
    ensures y / 2 * (2 * p) <= x < y / 2 * (2 * p) + 2 * p
  {
    var h := y / 2;
    if y == 2 * h {
      assert y * p == h * (2 * p);
    } else {
      assert y == 2 * h + 1;
      assert y * p == h * (2 * p) + p;
    }
  }

  /** Bit `k` of `n` is set; bit 0 is the lowest. */
  predicate Bit(n: nat, k: nat)
    decreases k
  {
    if k == 0 then n % 2 == 1 else Bit(n / 2, k - 1)
  }

  lemma Lowest(n: nat)
    ensures Bit(n, 0) <==> n % 2 == 1
  {
  }

  lemma Halved(n: nat, k: nat)
    ensures Bit(n, k + 1) <==> Bit(n / 2, k)
  {
  }

  lemma Quarter(n: nat)
    ensures n / 2 / 2 == n / 4
  {
  }

  lemma Eighth(n: nat)
    ensures n / 4 / 2 == n / 8
  {
  }

  lemma SixtyFourth(n: nat)
    ensures n / 8 / 8 == n / 64
  {
  }

  lemma LowBits(n: nat)
    ensures Bit(n, 0) <==> n % 2 == 1
    ensures Bit(n, 1) <==> n / 2 % 2 == 1
    ensures Bit(n, 2) <==> n / 4 % 2 == 1
  {
    hide Bit;
    Lowest(n);
    Halved(n, 0);
    Lowest(n / 2);
    Halved(n, 1);
    Halved(n / 2, 0);
    Quarter(n);
    Lowest(n / 4);
  }

  lemma ByThree(n: nat, k: nat)
    ensures Bit(n, k + 3) <==> Bit(n / 8, k)
  {
    hide Bit;
    Halved(n, k + 2);
    Halved(n / 2, k + 1);
    Quarter(n);
    Halved(n / 4, k);
    Eighth(n);
  }

  lemma BySix(n: nat, k: nat)
    ensures Bit(n, k + 6) <==> Bit(n / 64, k)
  {
    hide Bit;
    ByThree(n, k + 3);
    ByThree(n / 8, k);
    SixtyFourth(n);
  }

  lemma {:induction false} NoBits(k: nat)
    ensures !Bit(0, k)
  {
    if k > 0 { NoBits(k - 1); }
  }

  /** A number that is not 0 has a set bit. */
  lemma {:induction false} SomeBit(n: nat) returns (k: nat)
    requires n > 0
    ensures Bit(n, k)
  {
    if n % 2 == 1 {
      k := 0;
    } else {
      var j := SomeBit(n / 2);
      k := j + 1;
    }
  }

  /** Adding the power of a clear bit sets that bit and leaves the others alone. */
  lemma {:induction false} SetBit(n: nat, j: nat, k: nat)
    requires !Bit(n, j)
    ensures Bit(n + Pow2(j), k) <==> k == j || Bit(n, k)
    decreases k
  {
    if j == 0 {
      assert Pow2(j) == 1 && (n + 1) / 2 == n / 2;
    } else {
      HalfSum(n, Pow2(j - 1));
      if k > 0 {
        SetBit(n / 2, j - 1, k - 1);
      }
    }
  }

  lemma HalfSum(n: nat, p: nat)
    ensures (n + 2 * p) / 2 == n / 2 + p && (n + 2 * p) % 2 == n % 2
  {
  }

  /** A number behind `j` lower bits. */
  lemma {:induction false} BitOfSum(q: nat, r: nat, j: nat, k: nat)
    requires r < Pow2(j)
    ensures Bit(Pow2(j) * q + r, k) <==> if k < j then Bit(r, k) else Bit(q, k - j)
    decreases k
  {
    if j == 0 {
      assert Pow2(j) * q + r == q;
    } else {
      var p := Pow2(j - 1);
      SplitHalf(q, r, p);
      if k > 0 { BitOfSum(q, r / 2, j - 1, k - 1); }
    }
  }

  lemma SplitHalf(q: nat, r: nat, p: nat)
    requires r < 2 * p
    ensures r / 2 < p && (2 * p * q + r) / 2 == p * q + r / 2 && (2 * p * q + r) % 2 == r % 2
  {
    assert 2 * p * q == 2 * (p * q);
    HalfSum(r, p * q);
  }

  lemma {:induction false} NoBitAbove(n: nat, j: nat, k: nat)
    requires n < Pow2(j) && k >= j
    ensures !Bit(n, k)
  {
    BitOfSum(0, n, j, k);
    NoBits(k - j);
  }
}
