/** Bitwise operations of fixed-width unsigned integers, on natural numbers. */
module Bits {

  const U32 := 0x1_0000_0000

  function Pow2(k: nat): (p: nat)
    ensures 0 < p
  {
    if k == 0 then 1 else 2 * Pow2(k - 1)
  }

  /** The `|` operator. */
  function Or(a: nat, b: nat): nat
    decreases a + b
  {
    if a == 0 then b
    else if b == 0 then a
    else (if a % 2 == 1 || b % 2 == 1 then 1 else 0) + 2 * Or(a / 2, b / 2)
  }

  /** The `&` operator. */
  function And(a: nat, b: nat): nat
    decreases a
  {
    if a == 0 then 0
    else (if a % 2 == 1 && b % 2 == 1 then 1 else 0) + 2 * And(a / 2, b / 2)
  }

  /** The `^` operator. */
  function Xor(a: nat, b: nat): nat
    decreases a + b
  {
    if a == 0 then b
    else if b == 0 then a
    else (if a % 2 != b % 2 then 1 else 0) + 2 * Xor(a / 2, b / 2)
  }

  function Shl(a: nat, k: nat): nat {
    a * Pow2(k)
  }

  function Shr(a: nat, k: nat): nat {
    QuotientNat(a, Pow2(k));
    a / Pow2(k)
  }

  lemma {:induction false} QuotientNat(a: nat, p: nat)
    requires 0 < p
    ensures 0 <= a / p
  {
    MultipleSize(a / p, p);
    assert a == (a / p) * p + a % p;
  }

  /** Bit `k` of `a`. */
  predicate Bit(a: nat, k: nat)
    decreases k
  {
    if k == 0 then a % 2 == 1 else Bit(a / 2, k - 1)
  }

  lemma {:induction false} DoubleProduct(x: nat, y: nat)
    ensures 2 * x * y == 2 * (x * y)
  {
  }

  lemma {:induction false} Pow2Add(j: nat, k: nat)
    ensures Pow2(j + k) == Pow2(j) * Pow2(k)
  {
    if j != 0 {
      Pow2Add(j - 1, k);
      DoubleProduct(Pow2(j - 1), Pow2(k));
    }
  }

  lemma {:induction false} Pow2Values()
    ensures Pow2(6) == 64 && Pow2(8) == 256 && Pow2(16) == 65536 && Pow2(17) == 0x2_0000 && Pow2(33) == 0x2_0000_0000
    ensures Pow2(31) == 0x8000_0000 && Pow2(32) == U32
    ensures Pow2(48) == 0x1_0000_0000_0000 && Pow2(64) == 0x1_0000_0000_0000_0000
  {
    assert Pow2(2) == 4 && Pow2(4) == 16;
    Pow2Add(2, 4);
    Pow2Add(4, 4);
    Pow2Add(8, 8);
    Pow2Add(16, 16);
    Pow2Add(16, 32);
    Pow2Add(32, 32);
  }

  lemma {:induction false} Pow2Grows(j: nat, k: nat)
    requires j < k
    ensures Pow2(j) < Pow2(k)
    decreases k
  {
    if j < k - 1 {
      Pow2Grows(j, k - 1);
    }
  }

  lemma {:induction false} QuotientBound(x: nat, m: nat, p: nat)
    requires 0 < p && x < m * p
    ensures x / p < m
  {
    var q := x / p;
    MultipleSize(q - m + 1, p);
    assert x == q * p + x % p;
    assert (q - m + 1) * p == q * p - m * p + p;
  }

  /** A j + k bit number shifted right by k has j bits. */
  lemma {:induction false} ShrBound(x: nat, j: nat, k: nat)
    requires x < Pow2(j + k)
    ensures Shr(x, k) < Pow2(j)
  {
    Pow2Add(j, k);
    QuotientBound(x, Pow2(j), Pow2(k));
  }

  /** Or-ing fields that share no bit position adds them. */
  lemma {:induction false} OrDisjoint(hi: nat, lo: nat, k: nat)
    requires lo < Pow2(k)
    ensures Or(Shl(hi, k), lo) == hi * Pow2(k) + lo
  {
    if k == 0 {
      assert lo == 0 && Shl(hi, k) == hi;
    } else {
      var h := hi * Pow2(k - 1);
      assert Shl(hi, k) == 2 * h && hi * Pow2(k) == 2 * h;
      OrDisjoint(hi, lo / 2, k - 1);
      assert Shl(hi, k - 1) == h;
      if h != 0 && lo != 0 {
        assert (2 * h) % 2 == 0 && (2 * h) / 2 == h;
      }
    }
  }

  lemma {:induction false} OrCommutes(a: nat, b: nat)
    ensures Or(a, b) == Or(b, a)
    decreases a + b
  {
    if a != 0 && b != 0 {
      OrCommutes(a / 2, b / 2);
    }
  }

  lemma {:induction false} OrAssociates(a: nat, b: nat, c: nat)
    ensures Or(Or(a, b), c) == Or(a, Or(b, c))
    decreases a + b + c
  {
    if a != 0 && b != 0 && c != 0 {
      OrAssociates(a / 2, b / 2, c / 2);
      OrHalves(a, b);
      OrHalves(b, c);
      OrHalves(Or(a, b), c);
      OrHalves(a, Or(b, c));
    }
  }

  lemma {:induction false} OrHalves(a: nat, b: nat)
    ensures Or(a, b) / 2 == Or(a / 2, b / 2)
    ensures Or(a, b) % 2 == (if a % 2 == 1 || b % 2 == 1 then 1 else 0)
  {
    if a != 0 && b != 0 {
      var c, r := if a % 2 == 1 || b % 2 == 1 then 1 else 0, Or(a / 2, b / 2);
      LowBitAndRest(c, r);
    }
  }

  /** Masking with k ones keeps the low k bits. */
  lemma {:induction false} AndMask(a: nat, k: nat)
    ensures And(a, Pow2(k) - 1) == a % Pow2(k)
  {
    if k == 0 {
      AndZero(a);
    } else {
      var p := Pow2(k - 1);
      AndMask(a / 2, k - 1);
      HalfDivMod(a, p);
      AndOdd(a, p - 1);
      assert Pow2(k) - 1 == 2 * (p - 1) + 1;
    }
  }

  lemma {:induction false} AndOdd(a: nat, b: nat)
    ensures And(a, 2 * b + 1) == a % 2 + 2 * And(a / 2, b)
  {
    var c := 2 * b + 1;
    assert c % 2 == 1 && c / 2 == b;
    if a == 0 {
      assert And(a / 2, b) == 0;
    } else {
      assert And(a, c) == (if a % 2 == 1 && c % 2 == 1 then 1 else 0) + 2 * And(a / 2, c / 2);
    }
  }

  lemma {:induction false} AndZero(a: nat)
    ensures And(a, 0) == 0
  {
    if a != 0 {
      AndZero(a / 2);
    }
  }

  /** A multiple of m is either 0 or at least m in size. */
  lemma {:induction false} MultipleSize(d: int, m: int)
    requires 0 < m
    ensures d >= 1 ==> d * m >= m
    ensures d <= -1 ==> d * m <= -m
  {
  }

  lemma {:induction false} ModUnique(a: int, m: int, q: int, r: int)
    requires 0 <= r < m && a == q * m + r
    ensures a % m == r && a / m == q
  {
    var q', r' := a / m, a % m;
    assert a == m * q' + r';
    assert (q' - q) * m == r - r';
    MultipleSize(q' - q, m);
  }

  /** Halving the number and the modulus together: a % (2p) and a / (2p) from a / 2. */
  lemma {:induction false} HalfDivMod(a: int, p: nat)
    requires 0 < p
    ensures a % (2 * p) == 2 * ((a / 2) % p) + a % 2
    ensures a / (2 * p) == (a / 2) / p
  {
    var q, r := (a / 2) / p, (a / 2) % p;
    assert a / 2 == q * p + r;
    assert a == q * (2 * p) + (2 * r + a % 2) by {
      assert q * (2 * p) == 2 * (q * p);
    }
    ModUnique(a, 2 * p, q, 2 * r + a % 2);
  }

  /** Unsigned addition and multiplication may wrap at any point. */
  lemma {:induction false} ModShift(z: int, m: int, q: int)
    requires 0 < m
    ensures (z + q * m) % m == z % m
  {
    ModUnique(z + q * m, m, z / m + q, z % m);
  }

  lemma {:induction false} ModModAlgebra(y: nat, m: nat, p: nat)
    requires 0 < m && 0 < p
    ensures (y % (m * p)) % p == y % p
  {
    var q, r := y / (m * p), y % (m * p);
    assert y == r + (q * m) * p;
    ModShift(r, p, q * m);
  }

  lemma {:induction false} ModMod(y: nat, j: nat, k: nat)
    ensures (y % Pow2(j + k)) % Pow2(k) == y % Pow2(k)
  {
    Pow2Add(j, k);
    ModModAlgebra(y, Pow2(j), Pow2(k));
  }

  /** Bits of a disjunction. */
  lemma {:induction false} OrBit(a: nat, b: nat, k: nat)
    ensures Bit(Or(a, b), k) == (Bit(a, k) || Bit(b, k))
    decreases k
  {
    ZeroBit(k);
    if a != 0 && b != 0 {
      var c := if a % 2 == 1 || b % 2 == 1 then 1 else 0;
      var r := Or(a / 2, b / 2);
      LowBitAndRest(c, r);
      if k != 0 {
        OrBit(a / 2, b / 2, k - 1);
      }
    }
  }

  lemma {:induction false} ZeroBit(k: nat)
    ensures !Bit(0, k)
  {
    if k != 0 {
      ZeroBit(k - 1);
    }
  }

  /** A power of two has exactly one bit set. */
  lemma {:induction false} Pow2Bit(j: nat, k: nat)
    ensures Bit(Pow2(j), k) == (j == k)
  {
    if j == 0 {
      if k != 0 { ZeroBit(k - 1); }
    } else if k != 0 {
      assert Pow2(j) / 2 == Pow2(j - 1);
      Pow2Bit(j - 1, k - 1);
    }
  }

  lemma {:induction false} LowBitAndRest(c: nat, r: nat)
    requires c <= 1
    ensures (c + 2 * r) % 2 == c && (c + 2 * r) / 2 == r
  {
  }

  /** Shifting right and masking with one reads a single bit. */
  lemma {:induction false} ShrBit(a: nat, k: nat)
    ensures Shr(a, k) % 2 == 1 <==> Bit(a, k)
  {
    if k == 0 {
      assert Shr(a, 0) == a;
    } else {
      ShrBit(a / 2, k - 1);
      HalfDivMod(a, Pow2(k - 1));
    }
  }

  lemma {:induction false} XorBit(a: nat, b: nat, k: nat)
    ensures Bit(Xor(a, b), k) == (Bit(a, k) != Bit(b, k))
    decreases k
  {
    ZeroBit(k);
    if a != 0 && b != 0 {
      var c, r := if a % 2 != b % 2 then 1 else 0, Xor(a / 2, b / 2);
      LowBitAndRest(c, r);
      if k != 0 {
        XorBit(a / 2, b / 2, k - 1);
      }
    }
  }

  lemma {:induction false} AndBit(a: nat, b: nat, k: nat)
    ensures Bit(And(a, b), k) == (Bit(a, k) && Bit(b, k))
    decreases k
  {
    ZeroBit(k);
    if a != 0 {
      var c, r := if a % 2 == 1 && b % 2 == 1 then 1 else 0, And(a / 2, b / 2);
      LowBitAndRest(c, r);
      if k != 0 {
        AndBit(a / 2, b / 2, k - 1);
      }
    }
  }

  lemma {:induction false} ShlBit(a: nat, j: nat, k: nat)
    ensures Bit(Shl(a, j), k) == (j <= k && Bit(a, k - j))
  {
    if j != 0 {
      assert Shl(a, j) == 2 * Shl(a, j - 1);
      if k != 0 {
        ShlBit(a, j - 1, k - 1);
      }
    }
  }

  lemma {:induction false} ShrBits(a: nat, j: nat, k: nat)
    ensures Bit(Shr(a, j), k) == Bit(a, j + k)
  {
    if j != 0 {
      HalfDivMod(a, Pow2(j - 1));
      ShrBits(a / 2, j - 1, k);
    }
  }

  lemma {:induction false} ModBit(a: nat, m: nat, k: nat)
    ensures Bit(a % Pow2(m), k) == (k < m && Bit(a, k))
    decreases m
  {
    if m == 0 {
      ZeroBit(k);
      assert a % 1 == 0;
    } else {
      assert Pow2(m) == 2 * Pow2(m - 1);
      HalfDivMod(a, Pow2(m - 1));
      if k != 0 {
        ModBit(a / 2, m - 1, k - 1);
      }
    }
  }

  lemma {:induction false} HighBit(a: nat, m: nat, k: nat)
    requires a < Pow2(m) && m <= k
    ensures !Bit(a, k)
  {
    if m != 0 {
      HighBit(a / 2, m - 1, k - 1);
    } else {
      ZeroBit(k);
    }
  }

  /** Words with the same bits are the same word. */
  lemma {:induction false} BitsEqual(a: nat, b: nat, m: nat)
    requires a < Pow2(m) && b < Pow2(m)
    requires forall k: nat :: k < m ==> Bit(a, k) == Bit(b, k)
    ensures a == b
  {
    if m != 0 {
      assert Bit(a, 0) == Bit(b, 0);
      forall k: nat | k < m - 1
        ensures Bit(a / 2, k) == Bit(b / 2, k)
      {
        assert Bit(a, k + 1) == Bit(b, k + 1);
      }
      BitsEqual(a / 2, b / 2, m - 1);
    }
  }

  lemma {:induction false} XorBound(a: nat, b: nat, m: nat)
    requires a < Pow2(m) && b < Pow2(m)
    ensures Xor(a, b) < Pow2(m)
  {
    if m != 0 {
      XorBound(a / 2, b / 2, m - 1);
    }
  }

  lemma {:induction false} AndBound(a: nat, b: nat)
    ensures And(a, b) <= a
    decreases a
  {
    if a != 0 {
      AndBound(a / 2, b / 2);
    }
  }

  // ----- Bits of constants -----

  lemma {:induction false} HalfBit(a: nat, b: nat, k: nat)
    requires a / 2 == b && 0 < k
    ensures Bit(a, k) == Bit(b, k - 1)
  {
  }

  /** A hexadecimal digit holds four bits. */
  lemma {:induction false} HexDigit(a: nat, b: nat, d: nat, k: nat)
    requires d < 16 && a == 16 * b + d
    ensures k < 4 ==> Bit(a, k) == (d / (if k == 0 then 1 else if k == 1 then 2 else if k == 2 then 4 else 8) % 2 == 1)
    ensures 4 <= k ==> Bit(a, k) == Bit(b, k - 4)
  {
    var e, f, g := 8 * b + d / 2, 4 * b + d / 4, 2 * b + d / 8;
    if 1 <= k {
      HalfBit(a, e, k);
    }
    if 2 <= k {
      HalfBit(e, f, k - 1);
    }
    if 3 <= k {
      HalfBit(f, g, k - 2);
    }
    if 4 <= k {
      HalfBit(g, b, k - 3);
    }
  }
}
