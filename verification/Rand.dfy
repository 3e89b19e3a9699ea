/** rand and srand, and the re-entrant rand_r, over the linear congruential steps of module Lcg. */
module Rand {
  import opened Bits
  import Lcg

  const MUL64: nat := 6_364_136_223_846_793_005
  const MUL32: nat := 1_103_515_245
  const ADD32: nat := 12_345

  /** wrapping_mul and wrapping_add on k-bit words. */
  function WrapMul(k: nat, a: nat, b: nat): nat {
    (a * b) % Pow2(k)
  }

  function WrapAdd(k: nat, a: nat, b: nat): nat {
    (a + b) % Pow2(k)
  }

  lemma {:induction false} StepIs(k: nat, a: nat, c: nat, x: nat)
    ensures Lcg.Step(k, a, c, x) == (a * x + c) % Pow2(k)
  {
  }

  /** Wrapping after the product and again after the sum is wrapping once. */
  lemma {:induction false} WrapOnce(k: nat, a: nat, c: nat, x: nat)
    ensures WrapAdd(k, WrapMul(k, a, x), c) == Lcg.Step(k, a, c, x)
  {
    WrapSum(a * x, c, Pow2(k));
  }

  lemma {:induction false} WrapSum(y: nat, c: nat, m: nat)
    requires 0 < m
    ensures (y % m + c) % m == (y + c) % m
  {
    var q := y / m;
    assert y + c == (y % m + c) + q * m;
    ModShift(y % m + c, m, q);
  }

  /** wrapping_sub(1) modulo m. */
  lemma {:induction false} MinusOneWraps(s: nat, m: nat)
    requires s < m
    ensures (s + m - 1) % m == if s == 0 then m - 1 else s - 1
  {
    if s != 0 {
      ModUnique(s + m - 1, m, 1, s - 1);
    }
  }

  /** The hidden 64-bit seed of rand. */
  class RandState {
    var seed: nat

    ghost predicate Valid()
      reads this
    {
      seed < Pow2(64)
    }

    constructor ()
      ensures Valid() && seed == 0
    {
      seed := 0;
    }

    method Srand(s: nat)
      requires s < U32
      modifies this
      ensures Valid()
      ensures s == 0 ==> seed == Pow2(64) - 1
      ensures s != 0 ==> seed == s - 1
    {
      Pow2Values();
      hide Pow2;
      seed := (s + Pow2(64) - 1) % Pow2(64);
      MinusOneWraps(s, Pow2(64));
    }

    method Rand() returns (r: nat)
      requires Valid()
      modifies this
      ensures Valid()
      ensures seed == Lcg.Step(64, MUL64, 1, old(seed))
      ensures seed == (6_364_136_223_846_793_005 * old(seed) + 1) % 0x1_0000_0000_0000_0000
      ensures r == Shr(seed, 33) == seed / 0x2_0000_0000 && r < Pow2(31)
    {
      hide Lcg.Step, WrapAdd, WrapMul, Pow2;
      Pow2Values();
      StepIs(64, MUL64, 1, seed);
      WrapOnce(64, MUL64, 1, seed);
      seed := WrapAdd(64, WrapMul(64, MUL64, seed), 1);
      r := Shr(seed, 33);
      ShrBound(seed, 31, 33);
    }
  }

  lemma {:induction false} Draw64(x: nat, q: nat, y: nat)
    requires 6_364_136_223_846_793_005 * x + 1 == q * 0x1_0000_0000_0000_0000 + y && y < 0x1_0000_0000_0000_0000
    ensures (6_364_136_223_846_793_005 * x + 1) % 0x1_0000_0000_0000_0000 == y
  {
    ModUnique(6_364_136_223_846_793_005 * x + 1, 0x1_0000_0000_0000_0000, q, y);
  }

  /** The first three values after srand(42). */
  method AfterSrand42(state: RandState) returns (a: nat, b: nat, c: nat)
    modifies state
    ensures a == 311_430_560 && b == 131_117_839 && c == 1_110_653_038
  {
    hide Lcg.Step, Shr, Pow2;
    state.Srand(42);
    Draw64(41, 14, 2675168145784790582);
    a := state.Rand();
    Draw64(2675168145784790582, 922934390667586869, 1126293667508148607);
    b := state.Rand();
    Draw64(1126293667508148607, 388571896451558282, 9540436951196810324);
    c := state.Rand();
  }

  /** The values rand returns started from seed x repeat after n calls exactly when 2^64 divides n. */
  lemma {:induction false} RandPeriod(x: nat, n: nat)
    requires x < Pow2(64)
    ensures Lcg.OutputsRepeat(64, MUL64, 1, 33, n, x) <==> n % Pow2(64) == 0
  {
    Lcg.OutputPeriod(64, MUL64, 1, 33, n, x);
    Lcg.DividesMod(64, n);
  }

  // ----- rand_r -----

  /** x ^= x >> j. */
  function MixRight(x: nat, j: nat): nat {
    Xor(x, Shr(x, j))
  }

  /** x ^= (x << j) & mask. */
  function MixLeft(x: nat, j: nat, mask: nat): nat {
    Xor(x, And(Shl(x, j) % Pow2(32), mask))
  }

  /** The MT19937 tempering of a 32-bit word. */
  function Temper(x: nat): nat {
    MixRight(MixLeft(MixLeft(MixRight(x, 11), 7, 0x9D2C_5680), 15, 0xEFC6_0000), 18)
  }

  lemma {:induction false} MixRightBit(x: nat, j: nat, k: nat)
    ensures Bit(MixRight(x, j), k) == (Bit(x, k) != Bit(x, j + k))
  {
    XorBit(x, Shr(x, j), k);
    ShrBits(x, j, k);
  }

  lemma {:induction false} MixLeftBit(x: nat, j: nat, mask: nat, k: nat)
    requires k < 32
    ensures Bit(MixLeft(x, j, mask), k) == (Bit(x, k) != (j <= k && Bit(x, k - j) && Bit(mask, k)))
  {
    var y := Shl(x, j) % Pow2(32);
    XorBit(x, And(y, mask), k);
    AndBit(y, mask, k);
    ModBit(Shl(x, j), 32, k);
    ShlBit(x, j, k);
  }

  // Bit k of a tempered word, after each of the four mixing steps, in terms of the bits of the word alone.

  predicate Mixed11(x: nat, k: nat) {
    Bit(x, k) != Bit(x, k + 11)
  }

  predicate Mixed7(x: nat, k: nat) {
    if k in {7, 9, 10, 12, 14, 18, 19, 21, 24, 26, 27, 28, 31} then Mixed11(x, k) != Mixed11(x, k - 7) else Mixed11(x, k)
  }

  predicate Mixed15(x: nat, k: nat) {
    if k in {17, 18, 22, 23, 24, 25, 26, 27, 29, 30, 31} then Mixed7(x, k) != Mixed7(x, k - 15) else Mixed7(x, k)
  }

  predicate Mixed18(x: nat, k: nat) {
    if k < 14 then Mixed15(x, k) != Mixed15(x, k + 18) else Mixed15(x, k)
  }

  lemma {:induction false} Mask7(k: nat)
    requires k < 32
    ensures Bit(0x9D2C_5680, k) <==> k in {7, 9, 10, 12, 14, 18, 19, 21, 24, 26, 27, 28, 31}
  {
    hide Bit;
    HexDigit(0x9D2C5680, 0x9D2C568, 0, k);
    if 4 <= k { HexDigit(0x9D2C568, 0x9D2C56, 8, k - 4); }
    if 8 <= k { HexDigit(0x9D2C56, 0x9D2C5, 6, k - 8); }
    if 12 <= k { HexDigit(0x9D2C5, 0x9D2C, 5, k - 12); }
    if 16 <= k { HexDigit(0x9D2C, 0x9D2, 12, k - 16); }
    if 20 <= k { HexDigit(0x9D2, 0x9D, 2, k - 20); }
    if 24 <= k { HexDigit(0x9D, 0x9, 13, k - 24); }
    if 28 <= k { HexDigit(0x9, 0x0, 9, k - 28); }
  }

  lemma {:induction false} Mask15(k: nat)
    requires k < 32
    ensures Bit(0xEFC6_0000, k) <==> k in {17, 18, 22, 23, 24, 25, 26, 27, 29, 30, 31}
  {
    hide Bit;
    HexDigit(0xEFC60000, 0xEFC6000, 0, k);
    if 4 <= k { HexDigit(0xEFC6000, 0xEFC600, 0, k - 4); }
    if 8 <= k { HexDigit(0xEFC600, 0xEFC60, 0, k - 8); }
    if 12 <= k { HexDigit(0xEFC60, 0xEFC6, 0, k - 12); }
    if 16 <= k { HexDigit(0xEFC6, 0xEFC, 6, k - 16); }
    if 20 <= k { HexDigit(0xEFC, 0xEF, 12, k - 20); }
    if 24 <= k { HexDigit(0xEF, 0xE, 15, k - 24); }
    if 28 <= k { HexDigit(0xE, 0x0, 14, k - 28); }
  }

  /** What a tempered word is, bit by bit. */
  lemma {:induction false} TemperBit(x: nat, k: nat)
    requires x < Pow2(32) && k < 32
    ensures Bit(Temper(x), k) <==> Mixed18(x, k)
  {
    hide Bit, MixLeft, MixRight, Pow2, Mixed15;
    var a := MixRight(x, 11);
    var b := MixLeft(a, 7, 0x9D2C_5680);
    var c := MixLeft(b, 15, 0xEFC6_0000);
    MixRightInjective(x, x, 11);
    MixLeftInjective(a, a, 7, 0x9D2C_5680);
    MixLeftInjective(b, b, 15, 0xEFC6_0000);
    MixRightBit(c, 18, k);
    Mixed15Bit(x, k);
    if k < 14 {
      Mixed15Bit(x, k + 18);
    } else {
      HighBit(c, 32, k + 18);
    }
  }

  lemma {:induction false} Mixed7Bit(x: nat, k: nat)
    requires k < 32
    ensures Bit(MixLeft(MixRight(x, 11), 7, 0x9D2C_5680), k) <==> Mixed7(x, k)
  {
    hide Bit, MixLeft, MixRight;
    MixLeftBit(MixRight(x, 11), 7, 0x9D2C_5680, k);
    Mask7(k);
    MixRightBit(x, 11, k);
    if 7 <= k {
      MixRightBit(x, 11, k - 7);
    }
  }

  lemma {:induction false} Mixed15Bit(x: nat, k: nat)
    requires k < 32
    ensures Bit(MixLeft(MixLeft(MixRight(x, 11), 7, 0x9D2C_5680), 15, 0xEFC6_0000), k) <==> Mixed15(x, k)
  {
    hide Bit, MixLeft, MixRight, Mixed7;
    MixLeftBit(MixLeft(MixRight(x, 11), 7, 0x9D2C_5680), 15, 0xEFC6_0000, k);
    Mask15(k);
    Mixed7Bit(x, k);
    if 15 <= k {
      Mixed7Bit(x, k - 15);
    }
  }

  lemma {:induction false} Bits12345(k: nat)
    ensures Bit(12345, k) <==> k in {0, 3, 4, 5, 12, 13}
  {
    hide Bit, Pow2;
    Pow2Values();
    if 16 <= k {
      HighBit(12345, 16, k);
    } else {
      LowBits12345(k);
    }
  }

  lemma {:induction false} LowBits12345(k: nat)
    requires k < 16
    ensures Bit(12345, k) <==> k in {0, 3, 4, 5, 12, 13}
  {
    hide Bit;
    HexDigit(0x3039, 0x303, 9, k);
    if 4 <= k { HexDigit(0x303, 0x30, 3, k - 4); }
    if 8 <= k { HexDigit(0x30, 0x3, 0, k - 8); }
    if 12 <= k { HexDigit(0x3, 0x0, 3, k - 12); }
  }

  lemma {:induction false} Bits55453292(k: nat)
    requires k < 32
    ensures Bit(55453292, k) <==> k in {2, 3, 5, 6, 9, 10, 13, 17, 18, 19, 22, 24, 25}
  {
    hide Bit;
    HexDigit(0x34E266C, 0x34E266, 12, k);
    if 4 <= k { HexDigit(0x34E266, 0x34E26, 6, k - 4); }
    if 8 <= k { HexDigit(0x34E26, 0x34E2, 6, k - 8); }
    if 12 <= k { HexDigit(0x34E2, 0x34E, 2, k - 12); }
    if 16 <= k { HexDigit(0x34E, 0x34, 14, k - 16); }
    if 20 <= k { HexDigit(0x34, 0x3, 4, k - 20); }
    if 24 <= k { HexDigit(0x3, 0x0, 3, k - 24); }
    if 28 <= k { ZeroBit(k - 28); }
  }

  /** One value in numbers. */
  lemma {:induction false} Temper12345()
    ensures Temper(12345) == 55453292
  {
    hide Temper, Bit, Pow2;
    Pow2Values();
    forall k: nat | k < 32
      ensures Bit(Temper(12345), k) == Bit(55453292, k)
    {
      TemperBit(12345, k);
      Mixed12345(k);
      Bits55453292(k);
    }
    TemperInjective(12345, 12345);
    BitsEqual(Temper(12345), 55453292, 32);
  }

  lemma {:induction false} Mixed12345(k: nat)
    requires k < 32
    ensures Mixed18(12345, k) <==> k in {2, 3, 5, 6, 9, 10, 13, 17, 18, 19, 22, 24, 25}
  {
    hide Bit;
    forall j: nat
      ensures Bit(12345, j) <==> j in {0, 3, 4, 5, 12, 13}
    {
      Bits12345(j);
    }
  }

  /** Equal results have equal arguments: the bits agree from the top down. */
  lemma {:induction false} MixRightBits(x: nat, y: nat, j: nat, k: nat)
    requires 0 < j && x < Pow2(32) && y < Pow2(32) && MixRight(x, j) == MixRight(y, j)
    ensures Bit(x, k) == Bit(y, k)
    decreases 32 - k
  {
    if 32 <= k {
      HighBit(x, 32, k);
      HighBit(y, 32, k);
    } else {
      MixRightBit(x, j, k);
      MixRightBit(y, j, k);
      MixRightBits(x, y, j, j + k);
    }
  }

  /** ... and from the bottom up. */
  lemma {:induction false} MixLeftBits(x: nat, y: nat, j: nat, mask: nat, k: nat)
    requires 0 < j && k < 32 && MixLeft(x, j, mask) == MixLeft(y, j, mask)
    ensures Bit(x, k) == Bit(y, k)
  {
    MixLeftBit(x, j, mask, k);
    MixLeftBit(y, j, mask, k);
    if j <= k {
      MixLeftBits(x, y, j, mask, k - j);
    }
  }

  lemma {:induction false} MixRightInjective(x: nat, y: nat, j: nat)
    requires 0 < j && x < Pow2(32) && y < Pow2(32)
    ensures MixRight(x, j) < Pow2(32)
    ensures MixRight(x, j) == MixRight(y, j) ==> x == y
  {
    DivideSmaller(x, Pow2(j));
    XorBound(x, Shr(x, j), 32);
    if MixRight(x, j) == MixRight(y, j) {
      forall k: nat | k < 32
        ensures Bit(x, k) == Bit(y, k)
      {
        MixRightBits(x, y, j, k);
      }
      BitsEqual(x, y, 32);
    }
  }

  lemma {:induction false} Grow(q: nat, p: nat)
    requires 0 < p
    ensures q <= q * p
  {
    if q != 0 {
      MultipleSize(p, q);
    }
  }

  lemma {:induction false} DivideSmaller(x: nat, p: nat)
    requires 0 < p
    ensures x / p <= x
  {
    Grow(x + 1, p);
    QuotientBound(x, x + 1, p);
  }

  lemma {:induction false} MixLeftInjective(x: nat, y: nat, j: nat, mask: nat)
    requires 0 < j && x < Pow2(32) && y < Pow2(32)
    ensures MixLeft(x, j, mask) < Pow2(32)
    ensures MixLeft(x, j, mask) == MixLeft(y, j, mask) ==> x == y
  {
    AndBound(Shl(x, j) % Pow2(32), mask);
    XorBound(x, And(Shl(x, j) % Pow2(32), mask), 32);
    if MixLeft(x, j, mask) == MixLeft(y, j, mask) {
      forall k: nat | k < 32
        ensures Bit(x, k) == Bit(y, k)
      {
        MixLeftBits(x, y, j, mask, k);
      }
      BitsEqual(x, y, 32);
    }
  }

  /** Tempering loses nothing. */
  lemma {:induction false} TemperInjective(x: nat, y: nat)
    requires x < Pow2(32) && y < Pow2(32)
    ensures Temper(x) < Pow2(32)
    ensures Temper(x) == Temper(y) ==> x == y
  {
    hide MixLeft, MixRight, Pow2;
    var a, b := MixRight(x, 11), MixRight(y, 11);
    MixRightInjective(x, y, 11);
    MixRightInjective(y, x, 11);
    var c, d := MixLeft(a, 7, 0x9D2C_5680), MixLeft(b, 7, 0x9D2C_5680);
    MixLeftInjective(a, b, 7, 0x9D2C_5680);
    MixLeftInjective(b, a, 7, 0x9D2C_5680);
    var e, f := MixLeft(c, 15, 0xEFC6_0000), MixLeft(d, 15, 0xEFC6_0000);
    MixLeftInjective(c, d, 15, 0xEFC6_0000);
    MixLeftInjective(d, c, 15, 0xEFC6_0000);
    MixRightInjective(e, f, 18);
  }

  /** Every 32-bit word is the tempering of some 32-bit word. */
  lemma {:induction false} TemperSurjective(y: nat) returns (x: nat)
    requires y < Pow2(32)
    ensures x < Pow2(32) && Temper(x) == y
  {
    hide Temper, Pow2;
    var words := seq(Pow2(32), i requires 0 <= i => Temper(i));
    forall i: nat | i < Pow2(32)
      ensures words[i] < Pow2(32)
      ensures forall j: nat :: i < j < Pow2(32) ==> words[i] != words[j]
    {
      forall j: nat | j < Pow2(32)
        ensures Temper(i) < Pow2(32)
        ensures Temper(i) == Temper(j) ==> i == j
      {
        TemperInjective(i, j);
      }
    }
    Lcg.Pigeonhole(words, y);
    x :| 0 <= x < Pow2(32) && words[x] == y;
  }

  class SeedCell {
    var value: nat
  }

  method RandR(seed: SeedCell) returns (r: nat)
    requires seed.value < U32
    modifies seed
    ensures seed.value == Lcg.Step(32, MUL32, ADD32, old(seed.value))
    ensures seed.value == (1_103_515_245 * old(seed.value) + 12_345) % 0x1_0000_0000
    ensures seed.value < U32
    ensures r == Temper(seed.value) / 2
  {
    hide Lcg.Step, WrapAdd, WrapMul, Temper, Pow2;
    Pow2Values();
    WrapOnce(32, MUL32, ADD32, seed.value);
    StepIs(32, MUL32, ADD32, seed.value);
    seed.value := WrapAdd(32, WrapMul(32, MUL32, seed.value), ADD32);
    TemperInjective(seed.value, seed.value);
    r := Temper(seed.value) / 2;
  }

  /** The first value from seed 0. */
  method AfterSeed0(seed: SeedCell) returns (r: nat)
    requires seed.value == 0
    modifies seed
    ensures seed.value == 12345 && r == 27_726_646
  {
    hide Lcg.Step, Temper;
    r := RandR(seed);
    Temper12345();
  }

  /** Over one period of 2^32 calls, whatever the start, rand_r returns every 31-bit value exactly twice. */
  lemma {:induction false} RandREquidistributed(x: nat, v: nat) returns (i: nat, j: nat)
    requires x < Pow2(32) && v < Pow2(31)
    ensures i != j && i < Pow2(32) && j < Pow2(32)
    ensures forall n: nat :: n < Pow2(32) ==>
              (Temper(Lcg.Iterate(32, MUL32, ADD32, n, x)) / 2 == v <==> n == i || n == j)
  {
    hide Lcg.Step, Temper, Lcg.FullPeriod;
    Lcg.FullPeriodIff(32, MUL32, ADD32);
    var s := TemperSurjective(2 * v);
    var t := TemperSurjective(2 * v + 1);
    i := Lcg.VisitedExactlyOnce(32, MUL32, ADD32, x, s);
    j := Lcg.VisitedExactlyOnce(32, MUL32, ADD32, x, t);
    forall n: nat | n < Pow2(32)
      ensures Temper(Lcg.Iterate(32, MUL32, ADD32, n, x)) / 2 == v <==> n == i || n == j
    {
      var y := Lcg.Iterate(32, MUL32, ADD32, n, x);
      Lcg.IterateBounded(32, MUL32, ADD32, n, x);
      TemperInjective(y, s);
      TemperInjective(y, t);
    }
  }
}
