/**
 The linear congruential step x := a * x + c (mod 2^k) behind rand, rand_r, lcg31, lcg64
 and the rand48 family, and the exact condition under which it has full period.
 */
module Lcg {
  import opened Bits

  function Step(k: nat, a: nat, c: nat, x: nat): (r: nat)
    ensures r < Pow2(k)
  {
    (a * x + c) % Pow2(k)
  }

  function Iterate(k: nat, a: nat, c: nat, n: nat, x: nat): nat {
    if n == 0 then x else Step(k, a, c, Iterate(k, a, c, n - 1, x))
  }

  /** 2^k divides z. */
  predicate Divides(k: nat, z: int) {
    k == 0 || (z % 2 == 0 && Divides(k - 1, z / 2))
  }

  /** Every k-bit state returns to itself after n steps exactly when 2^k divides n. */
  ghost predicate FullPeriod(k: nat, a: nat, c: nat) {
    forall n: nat, x: nat :: x < Pow2(k) ==> (Iterate(k, a, c, n, x) == x <==> Divides(k, n))
  }

  // ----- Divisibility by powers of two -----

  /** Divides is what its name says. */
  lemma {:induction false} DividesMod(k: nat, z: int)
    ensures Divides(k, z) <==> z % Pow2(k) == 0
  {
    if k != 0 {
      DividesMod(k - 1, z / 2);
      HalfDivMod(z, Pow2(k - 1));
    }
  }

  lemma {:induction false} DividesAdd(k: nat, y: int, z: int)
    requires Divides(k, y)
    ensures Divides(k, y + z) <==> Divides(k, z)
  {
    if k != 0 {
      DividesAdd(k - 1, y / 2, z / 2);
      assert (y + z) / 2 == y / 2 + z / 2;
    }
  }

  lemma {:induction false} DividesZero(k: nat)
    ensures Divides(k, 0)
  {
    if k != 0 {
      DividesZero(k - 1);
    }
  }

  /** A multiple of 2^k smaller than 2^(k+1) in size is 0 or 2^k or -2^k. */
  lemma {:induction false} DividesNear(k: nat, d: int)
    requires Divides(k, d) && -2 * Pow2(k) < d < 2 * Pow2(k)
    ensures d == 0 || d == Pow2(k) || -d == Pow2(k)
  {
    if k != 0 {
      DividesNear(k - 1, d / 2);
    }
  }

  lemma {:induction false} Pow2Divides(k: nat)
    ensures Divides(k, Pow2(k)) && !Divides(k + 1, Pow2(k))
  {
    if k != 0 {
      assert Pow2(k) % 2 == 0 && Pow2(k) / 2 == Pow2(k - 1);
      Pow2Divides(k - 1);
    }
  }

  lemma {:induction false} Scale(m: int, i: int, r: int, p: int)
    ensures (m * i + r) * p == m * (i * p) + r * p
  {
  }

  lemma {:induction false} DividesFactor(k: nat, z: int, h: int, t: int)
    requires Divides(k, z) && t == z * h
    ensures Divides(k, t)
  {
    if k != 0 {
      var z', t' := z / 2, (z / 2) * h;
      Scale(2, z', 0, h);
      assert t == 2 * t';
      DividesFactor(k - 1, z', h, t');
    }
  }

  lemma {:induction false} DividesEvenFactor(k: nat, z: int, e: int, t: int)
    requires Divides(k, z) && e % 2 == 0 && t == z * e
    ensures Divides(k + 1, t)
  {
    var h, t' := e / 2, z * (e / 2);
    Scale(2, h, 0, z);
    assert t == 2 * t';
    DividesFactor(k, z, h, t');
  }

  lemma {:induction false} ProductParity(a: int, p: int, t: int)
    requires t == a * p
    ensures a % 2 == 0 ==> t % 2 == 0
    ensures a % 2 == 1 ==> t % 2 == p % 2
  {
    var h, r := (a / 2) * p, a % 2;
    Scale(2, a / 2, r, p);
    assert t == 2 * h + r * p;
  }

  lemma {:induction false} ProductMod4(a: int, p: int, t: int)
    requires t == a * p && a % 4 == 1
    ensures t % 4 == p % 4
  {
    var h := (a / 4) * p;
    Scale(4, a / 4, 1, p);
    assert t == 4 * h + p;
  }

  lemma {:induction false} DividesOddFactor(k: nat, z: int, o: int, t: int)
    requires o % 2 == 1 && t == z * o
    ensures Divides(k, t) <==> Divides(k, z)
  {
    if k != 0 {
      ProductParity(o, z, t);
      if z % 2 == 0 {
        var z', t' := z / 2, (z / 2) * o;
        Scale(2, z', 0, o);
        assert t == 2 * t';
        DividesOddFactor(k - 1, z', o, t');
      }
    }
  }

  // ----- Powers and geometric sums -----

  function Pow(a: nat, n: nat): nat {
    if n == 0 then 1 else a * Pow(a, n - 1)
  }

  /** 1 + a + a^2 + ... + a^(n-1). */
  function Sum(a: nat, n: nat): nat {
    if n == 0 then 0 else 1 + a * Sum(a, n - 1)
  }

  lemma {:induction false} PowOdd(a: nat, n: nat)
    requires a % 2 == 1
    ensures Pow(a, n) % 2 == 1
    ensures a % 4 == 1 ==> Pow(a, n) % 4 == 1
  {
    if n != 0 {
      PowOdd(a, n - 1);
      ProductParity(a, Pow(a, n - 1), Pow(a, n));
      if a % 4 == 1 {
        ProductMod4(a, Pow(a, n - 1), Pow(a, n));
      }
    }
  }

  lemma {:induction false} SumParityStep(a: nat, n: nat, s: nat, t: nat)
    requires 0 < n && t == 1 + a * s
    requires a % 2 == 1 ==> s % 2 == (n - 1) % 2
    ensures a % 2 == 1 ==> t % 2 == n % 2
    ensures a % 2 == 0 ==> t % 2 == 1
  {
    ProductParity(a, s, t - 1);
  }

  lemma {:induction false} SumParity(a: nat, n: nat)
    ensures a % 2 == 1 ==> Sum(a, n) % 2 == n % 2
    ensures a % 2 == 0 && 0 < n ==> Sum(a, n) % 2 == 1
  {
    if n != 0 {
      SumParity(a, n - 1);
      SumParityStep(a, n, Sum(a, n - 1), Sum(a, n));
    }
  }

  lemma {:induction false} SplitAlgebra(a: int, s: int, p: int, t: int)
    ensures a * (s + p * t) == a * s + (a * p) * t
  {
  }

  lemma {:induction false} SumSplit(a: nat, m: nat, n: nat)
    ensures Sum(a, m + n) == Sum(a, n) + Pow(a, n) * Sum(a, m)
    decreases n
  {
    if n != 0 {
      SumSplit(a, m, n - 1);
      assert m + n - 1 == m + (n - 1);
      SplitAlgebra(a, Sum(a, n - 1), Pow(a, n - 1), Sum(a, m));
    }
  }

  predicate IsProduct(t: int, x: int, y: int) {
    t == x * y
  }

  lemma {:induction false} SumDouble(a: nat, h: nat) returns (s: nat, e: nat, t: nat)
    ensures s == Sum(a, h) && e == 1 + Pow(a, h) && t == Sum(a, 2 * h)
    ensures IsProduct(t, s, e)
  {
    s, e, t := Sum(a, h), 1 + Pow(a, h), Sum(a, 2 * h);
    SumSplit(a, h, h);
  }

  lemma {:induction false} GeometricAlgebra(a: int, s: int, p: int)
    requires (a - 1) * s == p - 1
    ensures (a - 1) * (1 + a * s) == a * p - 1
  {
    assert (a - 1) * (1 + a * s) == a - 1 + a * ((a - 1) * s);
  }

  lemma {:induction false} SumGeometric(a: nat, n: nat)
    ensures (a - 1) * Sum(a, n) == Pow(a, n) - 1
  {
    if n != 0 {
      SumGeometric(a, n - 1);
      GeometricAlgebra(a, Sum(a, n - 1), Pow(a, n - 1));
    }
  }

  /** With a = 1 (mod 4) the sum of n powers contains exactly the factors of two that n contains. */
  lemma {:induction false} SumDivides(k: nat, a: nat, n: nat)
    requires a % 4 == 1
    ensures Divides(k, Sum(a, n)) <==> Divides(k, n)
    decreases n
  {
    if n == 0 {
    } else if n % 2 == 1 || k == 0 {
      SumParity(a, n);
    } else {
      SumDivides(k - 1, a, n / 2);
      SumHalf(k, a, n / 2);
    }
  }

  lemma {:induction false} SumHalf(k: nat, a: nat, h: nat)
    requires 0 < k && a % 4 == 1
    ensures Divides(k, Sum(a, 2 * h)) <==> Divides(k - 1, Sum(a, h))
  {
    hide Pow, Sum, IsProduct;
    PowOdd(a, h);
    var s, e, t := SumDouble(a, h);
    SumDividesStep(k, s, e, t);
  }

  lemma {:induction false} SumDividesStep(k: nat, s: nat, e: nat, t: nat)
    requires 0 < k && e % 4 == 2 && IsProduct(t, s, e)
    ensures Divides(k, t) <==> Divides(k - 1, s)
  {
    var o, u := e / 2, s * (e / 2);
    Scale(2, o, 0, s);
    assert t == 2 * u;
    DividesOddFactor(k - 1, s, o, u);
  }

  lemma {:induction false} SumTwo(a: nat)
    ensures Sum(a, 2) == 1 + a
  {
    assert Sum(a, 1) == 1 + a * Sum(a, 0) == 1;
  }

  lemma {:induction false} SumDoubleDivides(k: nat, a: nat, h: nat)
    requires a % 2 == 1 && Divides(k, Sum(a, h))
    ensures Divides(k + 1, Sum(a, 2 * h))
  {
    hide Sum, Pow;
    PowOdd(a, h);
    var s, e, t := SumDouble(a, h);
    DividesEvenFactor(k, s, e, t);
  }

  /** For odd a the sum of 2^j powers has at least j factors of two, and one more when a = 3 (mod 4). */
  lemma {:induction false} SumOfPow2(a: nat, j: nat)
    requires a % 2 == 1
    ensures Divides(j, Sum(a, Pow2(j)))
    ensures a % 4 == 3 && 0 < j ==> Divides(j + 1, Sum(a, Pow2(j)))
  {
    if j != 0 {
      SumOfPow2(a, j - 1);
      SumDoubleDivides(j - 1, a, Pow2(j - 1));
      if a % 4 == 3 {
        if j == 1 {
          SumTwo(a);
          assert Divides(1, (1 + a) / 2);
        } else {
          SumDoubleDivides(j, a, Pow2(j - 1));
        }
      }
    }
  }

  // ----- The closed form of n steps -----

  lemma {:induction false} StepDivides(k: nat, a: nat, c: nat, x: nat) returns (y: nat, y': nat)
    ensures y == a * x + c && y' == Step(k, a, c, x)
    ensures Divides(k, y - y')
  {
    y, y' := a * x + c, Step(k, a, c, x);
    DividesMod(k, y - y');
    ModUnique(y - y', Pow2(k), y / Pow2(k), 0);
  }

  lemma {:induction false} ClosedStep(k: nat, a: nat, c: nat, p: nat, s: nat, x: nat, y: nat, y': nat)
    requires Divides(k, p * x + c * s - y)
    requires Divides(k, a * y + c - y')
    ensures Divides(k, (a * p) * x + c * (1 + a * s) - y')
  {
    var u, v := p * x + c * s - y, a * y + c - y';
    var w := u * a;
    DividesFactor(k, u, a, w);
    DividesAdd(k, w, v);
    assert w + v == (a * p) * x + c * (1 + a * s) - y';
  }

  lemma {:induction false} IterateClosed(k: nat, a: nat, c: nat, n: nat, x: nat)
    ensures Divides(k, Pow(a, n) * x + c * Sum(a, n) - Iterate(k, a, c, n, x))
  {
    if n == 0 {
      DividesZero(k);
    } else {
      IterateClosed(k, a, c, n - 1, x);
      var y := Iterate(k, a, c, n - 1, x);
      var u, y' := StepDivides(k, a, c, y);
      ClosedStep(k, a, c, Pow(a, n - 1), Sum(a, n - 1), x, y, y');
    }
  }

  lemma {:induction false} MoveAlgebra(a: int, c: int, p: int, s: int, x: int)
    requires (a - 1) * s == p - 1
    ensures p * x + c * s == x + s * ((a - 1) * x + c)
  {
    assert s * ((a - 1) * x + c) == ((a - 1) * s) * x + c * s;
  }

  /** n steps move the state by Sum(a, n) * ((a - 1) * x + c). */
  lemma {:induction false} IterateMove(k: nat, a: nat, c: nat, n: nat, x: nat) returns (s: nat, o: int, z: int)
    ensures s == Sum(a, n) && o == (a - 1) * x + c && z == s * o
    ensures Divides(k, x + z - Iterate(k, a, c, n, x))
  {
    s, o := Sum(a, n), (a - 1) * x + c;
    z := s * o;
    IterateClosed(k, a, c, n, x);
    SumGeometric(a, n);
    MoveAlgebra(a, c, Pow(a, n), s, x);
  }

  lemma {:induction false} SameState(k: nat, x: nat, y: nat, z: int)
    requires x < Pow2(k) && y < Pow2(k) && Divides(k, x + z - y)
    ensures y == x <==> Divides(k, z)
  {
    if Divides(k, z) {
      DividesAdd(k, z, x - y);
      DividesNear(k, x - y);
    }
  }

  lemma {:induction false} IterateBounded(k: nat, a: nat, c: nat, n: nat, x: nat)
    requires x < Pow2(k)
    ensures Iterate(k, a, c, n, x) < Pow2(k)
  {
  }

  lemma {:induction false} ReturnsIff(k: nat, a: nat, c: nat, n: nat, x: nat) returns (s: nat, o: int, z: int)
    requires x < Pow2(k)
    ensures s == Sum(a, n) && o == (a - 1) * x + c && z == s * o
    ensures Iterate(k, a, c, n, x) == x <==> Divides(k, z)
  {
    s, o, z := IterateMove(k, a, c, n, x);
    IterateBounded(k, a, c, n, x);
    SameState(k, x, Iterate(k, a, c, n, x), z);
  }

  lemma {:induction false} OddIncrement(a: nat, c: nat, x: nat, o: int)
    requires a % 2 == 1 && c % 2 == 1 && o == (a - 1) * x + c
    ensures o % 2 == 1
  {
    ProductParity(a - 1, x, (a - 1) * x);
  }

  lemma {:induction false} OddMultiple(a: nat, n: nat, s: nat, o: int, z: int)
    requires a % 4 == 1 && s == Sum(a, n) && o % 2 == 1 && z == s * o
    ensures forall j: nat :: Divides(j, z) <==> Divides(j, n)
  {
    forall j: nat
      ensures Divides(j, z) <==> Divides(j, n)
    {
      DividesOddFactor(j, s, o, z);
      SumDivides(j, a, n);
    }
  }

  /** n steps travel a distance that has exactly the factors of two of n. */
  lemma {:induction false} Travel(k: nat, a: nat, c: nat, n: nat, x: nat) returns (z: int)
    requires a % 4 == 1 && c % 2 == 1
    ensures Divides(k, x + z - Iterate(k, a, c, n, x))
    ensures forall j: nat :: Divides(j, z) <==> Divides(j, n)
  {
    var s, o;
    s, o, z := IterateMove(k, a, c, n, x);
    OddIncrement(a, c, x, o);
    OddMultiple(a, n, s, o, z);
  }

  // ----- Full period -----

  lemma {:induction false} FullPeriodSufficient(k: nat, a: nat, c: nat)
    requires a % 4 == 1 && c % 2 == 1
    ensures FullPeriod(k, a, c)
  {
    forall n: nat, x: nat | x < Pow2(k)
      ensures Iterate(k, a, c, n, x) == x <==> Divides(k, n)
    {
      var z := Travel(k, a, c, n, x);
      IterateBounded(k, a, c, n, x);
      SameState(k, x, Iterate(k, a, c, n, x), z);
    }
  }

  /** With an even multiplier some state never comes back: its increment is odd and so is every sum. */
  lemma {:induction false} EvenMultiplierNotFull(k: nat, a: nat, c: nat)
    requires 1 <= k && a % 2 == 0
    ensures !FullPeriod(k, a, c)
  {
    var x := 1 - c % 2;
    var n := Pow2(k);
    var s, o, z := ReturnsIff(k, a, c, n, x);
    OddFromZeroOrOne(a, c, x, o);
    SumParity(a, n);
    OddNotDivisible(k, s, o, z);
    Pow2Divides(k);
    PeriodRefuted(k, a, c, n, x);
  }

  lemma {:induction false} OddFromZeroOrOne(a: nat, c: nat, x: nat, o: int)
    requires a % 2 == 0 && x == 1 - c % 2 && o == (a - 1) * x + c
    ensures o % 2 == 1
  {
    if x == 0 {
      assert o == c;
    } else {
      assert o == a - 1 + c;
    }
  }

  lemma {:induction false} OddNotDivisible(k: nat, s: int, o: int, z: int)
    requires 1 <= k && s % 2 == 1 && o % 2 == 1 && z == s * o
    ensures !Divides(k, z)
  {
    ProductParity(s, o, z);
  }

  /** With a = 3 (mod 4) or an even increment, state 0 comes back after half the states. */
  lemma {:induction false} ZeroReturnsEarlyNotFull(k: nat, a: nat, c: nat)
    requires 2 <= k && a % 2 == 1 && (a % 4 == 3 || c % 2 == 0)
    ensures !FullPeriod(k, a, c)
  {
    var n := Pow2(k - 1);
    var s, o, z := ReturnsIff(k, a, c, n, 0);
    SumOfPow2(a, k - 1);
    if c % 2 == 0 {
      DividesEvenFactor(k - 1, s, c, z);
    } else {
      DividesFactor(k, s, c, z);
    }
    Pow2Divides(k - 1);
    PeriodRefuted(k, a, c, n, 0);
  }

  lemma {:induction false} PeriodRefuted(k: nat, a: nat, c: nat, n: nat, x: nat)
    requires x < Pow2(k) && (Iterate(k, a, c, n, x) == x) != Divides(k, n)
    ensures !FullPeriod(k, a, c)
  {
  }

  lemma {:induction false} FullPeriodNecessary(k: nat, a: nat, c: nat)
    requires 2 <= k && (a % 4 != 1 || c % 2 != 1)
    ensures !FullPeriod(k, a, c)
  {
    hide FullPeriod, Step;
    if a % 2 == 0 {
      EvenMultiplierNotFull(k, a, c);
    } else {
      assert a % 4 == 1 || a % 4 == 3;
      assert c % 2 == 0 || c % 2 == 1;
      ZeroReturnsEarlyNotFull(k, a, c);
    }
  }

  /** The generator has full period if and only if a = 1 (mod 4) and c is odd. */
  lemma {:induction false} FullPeriodIff(k: nat, a: nat, c: nat)
    requires 2 <= k
    ensures FullPeriod(k, a, c) == (a % 4 == 1 && c % 2 == 1)
  {
    hide FullPeriod, Step;
    if a % 4 == 1 && c % 2 == 1 {
      FullPeriodSufficient(k, a, c);
    } else {
      FullPeriodNecessary(k, a, c);
    }
  }

  // ----- Every state is visited exactly once per cycle -----

  lemma {:induction false} IterateAdd(k: nat, a: nat, c: nat, m: nat, n: nat, x: nat)
    ensures Iterate(k, a, c, m + n, x) == Iterate(k, a, c, m, Iterate(k, a, c, n, x))
  {
    if m != 0 {
      IterateAdd(k, a, c, m - 1, n, x);
    }
  }

  lemma {:induction false} NoEarlyRepeat(k: nat, a: nat, c: nat, x: nat, i: nat, j: nat)
    requires FullPeriod(k, a, c) && x < Pow2(k) && i < j < Pow2(k)
    ensures Iterate(k, a, c, i, x) != Iterate(k, a, c, j, x)
  {
    hide Step;
    IterateBounded(k, a, c, i, x);
    IterateAdd(k, a, c, j - i, i, x);
    if Divides(k, j - i) {
      DividesNear(k, j - i);
    }
  }

  ghost function Values(s: seq<nat>): set<nat> {
    set y | y in s
  }

  /** m different numbers below m are all the numbers below m. */
  lemma {:induction false} Pigeonhole(s: seq<nat>, y: nat)
    requires forall i :: 0 <= i < |s| ==> s[i] < |s|
    requires forall i, j :: 0 <= i < j < |s| ==> s[i] != s[j]
    requires y < |s|
    ensures y in s
  {
    var all := Below(|s|);
    DistinctSize(s);
    BelowSize(|s|);
    if y !in s {
      assert Values(s) <= all - {y};
      SubsetSize(Values(s), all - {y});
      assert false;
    }
  }

  lemma {:induction false} SubsetSize<T>(s: set<T>, t: set<T>)
    requires s <= t
    ensures |s| <= |t|
  {
    assert t == s + (t - s);
  }

  lemma {:induction false} DistinctSize(s: seq<nat>)
    requires forall i, j :: 0 <= i < j < |s| ==> s[i] != s[j]
    ensures |Values(s)| == |s|
  {
    if s != [] {
      var t, z := s[..|s| - 1], s[|s| - 1];
      DistinctSize(t);
      assert s == t + [z];
      assert z !in Values(t);
      assert Values(s) == Values(t) + {z};
    }
  }

  ghost function Below(m: nat): (s: set<nat>)
    ensures forall i: nat :: i in s <==> i < m
  {
    if m == 0 then {} else Below(m - 1) + {m - 1}
  }

  lemma {:induction false} BelowSize(m: nat)
    ensures |Below(m)| == m
  {
    if m != 0 {
      BelowSize(m - 1);
    }
  }

  /** From any start x, every state y is reached after exactly one n below 2^k. */
  lemma {:induction false} VisitedExactlyOnce(k: nat, a: nat, c: nat, x: nat, y: nat) returns (n: nat)
    requires FullPeriod(k, a, c) && x < Pow2(k) && y < Pow2(k)
    ensures n < Pow2(k) && Iterate(k, a, c, n, x) == y
    ensures forall i: nat :: i < Pow2(k) && Iterate(k, a, c, i, x) == y ==> i == n
  {
    hide Step;
    var m := Pow2(k);
    var orbit := seq(m, i requires 0 <= i => Iterate(k, a, c, i, x));
    forall i: nat | i < m
      ensures orbit[i] < m
      ensures forall j: nat :: i < j < m ==> orbit[i] != orbit[j]
    {
      IterateBounded(k, a, c, i, x);
      forall j: nat | i < j < m
        ensures orbit[i] != orbit[j]
      {
        NoEarlyRepeat(k, a, c, x, i, j);
      }
    }
    Pigeonhole(orbit, y);
    assert y in orbit;
    n :| n < m && orbit[n] == y;
    forall i: nat | i < m && Iterate(k, a, c, i, x) == y
      ensures i == n
    {
      if i < n {
        NoEarlyRepeat(k, a, c, x, i, n);
      } else if n < i {
        NoEarlyRepeat(k, a, c, x, n, i);
      }
    }
  }

  // ----- The truncated outputs x >> r repeat no earlier than the states -----

  /** The sequence of outputs x >> r started at x is unchanged when shifted by n. */
  ghost predicate OutputsRepeat(k: nat, a: nat, c: nat, r: nat, n: nat, x: nat) {
    forall t: nat :: Shr(Iterate(k, a, c, n + t, x), r) == Shr(Iterate(k, a, c, t, x), r)
  }

  lemma {:induction false} OutputsRepeatMultiple(k: nat, a: nat, c: nat, r: nat, n: nat, x: nat, q: nat, t: nat)
    requires OutputsRepeat(k, a, c, r, n, x) && t == q * n
    ensures OutputsRepeat(k, a, c, r, t, x)
  {
    if q != 0 {
      var t' := (q - 1) * n;
      assert t == t' + n;
      OutputsRepeatMultiple(k, a, c, r, n, x, q - 1, t');
      OutputsRepeatAdd(k, a, c, r, n, t', x);
    }
  }

  lemma {:induction false} OutputsRepeatAdd(k: nat, a: nat, c: nat, r: nat, m: nat, n: nat, x: nat)
    requires OutputsRepeat(k, a, c, r, m, x) && OutputsRepeat(k, a, c, r, n, x)
    ensures OutputsRepeat(k, a, c, r, n + m, x)
  {
    forall t: nat
      ensures Shr(Iterate(k, a, c, n + m + t, x), r) == Shr(Iterate(k, a, c, t, x), r)
    {
      assert n + m + t == n + (m + t);
      assert Shr(Iterate(k, a, c, n + (m + t), x), r) == Shr(Iterate(k, a, c, m + t, x), r);
    }
  }

  /** Some multiple of n is an odd multiple of 2^(k-1). */
  lemma {:induction false} HalfPeriodMultiple(k: nat, n: nat) returns (q: nat, t: nat)
    requires !Divides(k, n)
    ensures t == q * n && Divides(k - 1, t) && !Divides(k, t)
  {
    if n % 2 == 0 {
      var t';
      q, t' := HalfPeriodMultiple(k - 1, n / 2);
      Scale(2, n / 2, 0, q);
      t := 2 * t';
    } else {
      q := Pow2(k - 1);
      t := q * n;
      Pow2Divides(k - 1);
      DividesOddFactor(k - 1, q, n, t);
      DividesOddFactor(k, q, n, t);
    }
  }

  /** 2^(k-1) * odd steps flip the top bit and nothing else. */
  lemma {:induction false} HalfPeriodFlips(k: nat, a: nat, c: nat, n: nat, x: nat)
    requires a % 4 == 1 && c % 2 == 1 && 0 < k && x < Pow2(k)
    requires Divides(k - 1, n) && !Divides(k, n)
    ensures Iterate(k, a, c, n, x) == (if x < Pow2(k - 1) then x + Pow2(k - 1) else x - Pow2(k - 1))
  {
    var y := Iterate(k, a, c, n, x);
    var z := Travel(k, a, c, n, x);
    IterateBounded(k, a, c, n, x);
    SameState(k, x, y, z);
    DividesWeaken(k - 1, x + z - y);
    DividesAdd(k - 1, z, x - y);
    DividesNear(k - 1, x - y);
  }

  lemma {:induction false} DividesWeaken(k: nat, z: int)
    requires Divides(k + 1, z)
    ensures Divides(k, z)
  {
    if k != 0 {
      DividesWeaken(k - 1, z / 2);
    }
  }

  lemma {:induction false} ShrSeparates(x: nat, h: nat, r: nat)
    requires Pow2(r) <= h
    ensures Shr(x + h, r) != Shr(x, r)
  {
    var p := Pow2(r);
    var q, s := x / p, x % p;
    assert x == q * p + s;
    ModUnique(x + p, p, q + 1, s);
    assert (x + p) / p == q + 1;
    DivMonotone(x + p, x + h, p);
  }

  lemma {:induction false} DivMonotone(x: nat, y: nat, p: nat)
    requires 0 < p && x <= y
    ensures x / p <= y / p
  {
    MultipleSize(x / p - y / p, p);
    assert (x / p - y / p) * p == (x - x % p) - (y - y % p);
  }

  lemma {:induction false} Pow2Monotone(r: nat, k: nat)
    requires r <= k
    ensures Pow2(r) <= Pow2(k)
    decreases k
  {
    if r < k {
      Pow2Monotone(r, k - 1);
    }
  }

  /** The outputs x >> r have exactly the period of the states: the top bit already shows it. */
  lemma {:induction false} OutputPeriod(k: nat, a: nat, c: nat, r: nat, n: nat, x: nat)
    requires a % 4 == 1 && c % 2 == 1 && r < k && x < Pow2(k)
    ensures OutputsRepeat(k, a, c, r, n, x) <==> Divides(k, n)
  {
    if Divides(k, n) {
      FullPeriodSufficient(k, a, c);
      forall t: nat
        ensures Iterate(k, a, c, n + t, x) == Iterate(k, a, c, t, x)
      {
        IterateBounded(k, a, c, t, x);
        IterateAdd(k, a, c, n, t, x);
      }
    } else {
      HalfPeriodShows(k, a, c, r, n, x);
    }
  }

  lemma {:induction false} HalfPeriodShows(k: nat, a: nat, c: nat, r: nat, n: nat, x: nat)
    requires a % 4 == 1 && c % 2 == 1 && r < k && x < Pow2(k) && !Divides(k, n)
    ensures !OutputsRepeat(k, a, c, r, n, x)
  {
    var q, t := HalfPeriodMultiple(k, n);
    var h := Pow2(k - 1);
    HalfPeriodFlips(k, a, c, t, x);
    Pow2Monotone(r, k - 1);
    ShrSeparates(if x < h then x else x - h, h, r);
    assert Iterate(k, a, c, t + 0, x) != Iterate(k, a, c, 0, x);
    if OutputsRepeat(k, a, c, r, n, x) {
      OutputsRepeatMultiple(k, a, c, r, n, x, q, t);
      assert false;
    }
  }

}
