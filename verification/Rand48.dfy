/** The 48-bit family: a linear congruential step over 16-bit limbs, and the shared __seed48 array. */
module Rand48 {
  import opened Bits
  import Lcg
  import opened Rand

  predicate Limbs(s: seq<nat>) {
    forall i :: 0 <= i < |s| ==> s[i] < 0x1_0000
  }

  /** Three little-endian limbs as one 48-bit number. */
  function Value(s: seq<nat>): nat
    requires |s| == 3
  {
    s[0] + 0x1_0000 * s[1] + 0x1_0000_0000 * s[2]
  }

  lemma {:induction false} OrLimbs(s: seq<nat>)
    requires |s| == 3 && Limbs(s)
    ensures Or(Or(s[0], Shl(s[1], 16)), Shl(s[2], 32)) == Value(s)
    ensures Value(s) < Pow2(48)
  {
    Pow2Values();
    OrDisjoint(s[1], s[0], 16);
    OrCommutes(s[0], Shl(s[1], 16));
    var low := s[1] * 0x1_0000 + s[0];
    OrDisjoint(s[2], low, 32);
    OrCommutes(low, Shl(s[2], 32));
  }

  lemma {:induction false} SplitLimbs(x: nat)
    ensures x % 0x1_0000 + 0x1_0000 * ((x / 0x1_0000) % 0x1_0000) + 0x1_0000_0000 * ((x / 0x1_0000_0000) % 0x1_0000)
            == x % 0x1_0000_0000_0000
  {
    var y, z := x / 0x1_0000, x / 0x1_0000_0000;
    assert z == y / 0x1_0000;
    assert x % 0x1_0000_0000_0000 == x - 0x1_0000_0000_0000 * (z / 0x1_0000);
  }

  lemma {:induction false} ShrLimbs(x: nat)
    ensures Shr(x, 16) == x / 0x1_0000 && Shr(x, 32) == x / 0x1_0000_0000
  {
    Pow2Values();
  }

  lemma {:induction false} LimbsOf(x: nat) returns (s: seq<nat>)
    ensures s == [x % 0x1_0000, Shr(x, 16) % 0x1_0000, Shr(x, 32) % 0x1_0000]
    ensures Limbs(s) && Value(s) == x % Pow2(48)
  {
    hide Shr, Pow2;
    Pow2Values();
    ShrLimbs(x);
    SplitLimbs(x);
    s := [x % 0x1_0000, Shr(x, 16) % 0x1_0000, Shr(x, 32) % 0x1_0000];
  }

  /** Truncating a 64-bit result to 48 bits forgets that it ever wrapped at 64. */
  lemma {:induction false} Truncate(a: nat, c: nat, x: nat)
    ensures WrapAdd(64, WrapMul(64, a, x), c) % Pow2(48) == Lcg.Step(48, a, c, x)
  {
    WrapOnce(64, a, c, x);
    ModMod(a * x + c, 16, 48);
  }

  /** __rand48_step on the limbs xi[xo..xo+3], with multiplier lc[lo..lo+3] and increment lc[lo+3]. */
  method Step(xi: array<nat>, xo: nat, lc: array<nat>, lo: nat) returns (r: nat)
    requires xo + 3 <= xi.Length && lo + 4 <= lc.Length
    requires Limbs(xi[xo..xo + 3]) && Limbs(lc[lo..lo + 4])
    modifies xi
    ensures Limbs(xi[xo..xo + 3]) && Value(xi[xo..xo + 3]) == r
    ensures r == Lcg.Step(48, Value(old(lc[lo..lo + 3])), old(lc[lo + 3]), Value(old(xi[xo..xo + 3])))
    ensures r == (Value(old(lc[lo..lo + 3])) * Value(old(xi[xo..xo + 3])) + old(lc[lo + 3])) % 0x1_0000_0000_0000
    ensures xi[..xo] == old(xi[..xo]) && xi[xo + 3..] == old(xi[xo + 3..])
  {
    hide Value, Or, Shl, Shr, WrapAdd, WrapMul, Lcg.Step, Pow2, And;
    OrLimbs(xi[xo..xo + 3]);
    var x := Or(Or(xi[xo], Shl(xi[xo + 1], 16)), Shl(xi[xo + 2], 32));
    assert lc[lo..lo + 3] == lc[lo..lo + 4][..3] && lc[lo + 3] == lc[lo..lo + 4][3];
    OrLimbs(lc[lo..lo + 3]);
    var a := Or(Or(lc[lo], Shl(lc[lo + 1], 16)), Shl(lc[lo + 2], 32));
    var c := lc[lo + 3];
    Truncate(a, c, x);
    StepIs(48, a, c, x);
    x := WrapAdd(64, WrapMul(64, a, x), c);
    ghost var limbs := LimbsOf(x);
    xi[xo] := x % 0x1_0000;
    xi[xo + 1] := Shr(x, 16) % 0x1_0000;
    xi[xo + 2] := Shr(x, 32) % 0x1_0000;
    assert xi[xo..xo + 3] == limbs;
    AndMask(x, 48);
    Pow2Values();
    r := And(x, 0xffff_ffff_ffff);
  }

  /** nrand48: the upper 31 of the 48 bits. */
  method Nrand48(xi: array<nat>, xo: nat, lc: array<nat>, lo: nat) returns (r: nat)
    requires xo + 3 <= xi.Length && lo + 4 <= lc.Length
    requires Limbs(xi[xo..xo + 3]) && Limbs(lc[lo..lo + 4])
    modifies xi
    ensures Limbs(xi[xo..xo + 3])
    ensures Value(xi[xo..xo + 3]) ==
            Lcg.Step(48, Value(old(lc[lo..lo + 3])), old(lc[lo + 3]), Value(old(xi[xo..xo + 3])))
    ensures r == Shr(Value(xi[xo..xo + 3]), 17) && r < 0x8000_0000
    ensures xi[..xo] == old(xi[..xo]) && xi[xo + 3..] == old(xi[xo + 3..])
  {
    hide Lcg.Step;
    var step := Step(xi, xo, lc, lo);
    r := Shr(step, 17);
    ShrBound(step, 31, 17);
    Pow2Values();
  }

  /** A 32-bit word read as a two's complement number. */
  function Signed32(x: nat): int {
    var w := x % U32;
    if w < 0x8000_0000 then w else w - U32
  }

  lemma {:induction false} SignedBack(x: nat)
    requires x < U32
    ensures Signed32(x) % U32 == x && -0x8000_0000 <= Signed32(x) < 0x8000_0000
  {
  }

  /** jrand48: the upper 32 of the 48 bits, sign-extended. */
  method Jrand48(xi: array<nat>, xo: nat, lc: array<nat>, lo: nat) returns (r: int)
    requires xo + 3 <= xi.Length && lo + 4 <= lc.Length
    requires Limbs(xi[xo..xo + 3]) && Limbs(lc[lo..lo + 4])
    modifies xi
    ensures Limbs(xi[xo..xo + 3])
    ensures Value(xi[xo..xo + 3]) ==
            Lcg.Step(48, Value(old(lc[lo..lo + 3])), old(lc[lo + 3]), Value(old(xi[xo..xo + 3])))
    ensures r % U32 == Shr(Value(xi[xo..xo + 3]), 16) && -0x8000_0000 <= r < 0x8000_0000
    ensures xi[..xo] == old(xi[..xo]) && xi[xo + 3..] == old(xi[xo + 3..])
  {
    hide Lcg.Step, Shr, Pow2, Signed32, Value;
    var step := Step(xi, xo, lc, lo);
    ShrBound(step, 32, 16);
    Pow2Values();
    SignedBack(Shr(step, 16));
    r := Signed32(Shr(step, 16));
  }

  /** The shared array __seed48: state limbs 0..2, multiplier limbs 3..5, increment 6. */
  class Seed48 {
    const words: array<nat>
    const prev: array<nat>

    ghost predicate Valid()
      reads this, words, prev
    {
      words != prev && words.Length == 7 && prev.Length == 3 && Limbs(words[..]) && Limbs(prev[..])
    }

    ghost function State(): nat
      requires Valid()
      reads this, words, prev
    {
      Value(words[..3])
    }

    ghost function Multiplier(): nat
      requires Valid()
      reads this, words, prev
    {
      Value(words[3..6])
    }

    ghost function Increment(): nat
      requires Valid()
      reads this, words, prev
    {
      words[6]
    }

    constructor ()
      ensures Valid() && fresh(words) && fresh(prev)
      ensures State() == 0 && Multiplier() == 0x5_deec_e66d && Increment() == 0xb
    {
      words := new nat[][0, 0, 0, 0xe66d, 0xdeec, 0x5, 0xb];
      prev := new nat[][0, 0, 0];
    }

    method Lrand48() returns (r: nat)
      requires Valid()
      modifies words
      ensures Valid() && Multiplier() == old(Multiplier()) && Increment() == old(Increment())
      ensures State() == Lcg.Step(48, Multiplier(), Increment(), old(State()))
      ensures r == Shr(State(), 17) && r < 0x8000_0000
    {
      hide Lcg.Step;
      LimbsSlices(words[..]);
      ghost var was := words[..];
      r := Nrand48(words, 0, words, 3);
      assert words[3..] == was[3..];
      assert words[..] == words[0..3] + was[3..];
      assert words[3..6] == was[3..6];
    }

    method Mrand48() returns (r: int)
      requires Valid()
      modifies words
      ensures Valid() && Multiplier() == old(Multiplier()) && Increment() == old(Increment())
      ensures State() == Lcg.Step(48, Multiplier(), Increment(), old(State()))
      ensures r % U32 == Shr(State(), 16) && -0x8000_0000 <= r < 0x8000_0000
    {
      hide Lcg.Step;
      LimbsSlices(words[..]);
      ghost var was := words[..];
      r := Jrand48(words, 0, words, 3);
      assert words[3..] == was[3..];
      assert words[..] == words[0..3] + was[3..];
      assert words[3..6] == was[3..6];
    }

    /**
     seed48 installs the state s[o..o+3] and returns the one it replaces. The returned array is reused:
     when the caller hands it back, it has been overwritten before it is read and nothing changes.
     */
    method Exchange(s: array<nat>, o: nat) returns (p: array<nat>)
      requires Valid() && o + 3 <= s.Length && Limbs(s[o..o + 3])
      modifies words, prev
      ensures Valid() && words[3..] == old(words[3..])
      ensures Multiplier() == old(Multiplier()) && Increment() == old(Increment())
      ensures p == prev && Value(p[..]) == old(State())
      ensures State() == if s == prev then old(State()) else Value(old(s[o..o + 3]))
      ensures State() == Value(old(s[o..o + 3])) <==> s != prev || Value(old(prev[..])) == old(State())
    {
      hide Value;
      ghost var was, given := words[..], s[o..o + 3];
      assert s == prev ==> o == 0 && given == prev[..];
      prev[0] := words[0];
      prev[1] := words[1];
      prev[2] := words[2];
      words[0] := s[o];
      words[1] := s[o + 1];
      words[2] := s[o + 2];
      p := prev;
      assert prev[..] == was[..3];
      ghost var now := if s == prev then was[..3] else given;
      assert words[..3] == now;
      assert words[3..] == was[3..];
      assert words[3..6] == words[3..][..3] && was[3..6] == was[3..][..3];
      assert words[..] == words[..3] + words[3..] && was == was[..3] + was[3..];
    }

    /** srand48: 0x330e below the low 32 bits of the seed. */
    method Srand48(seed: int)
      requires Valid()
      modifies words, prev
      ensures Valid() && Multiplier() == old(Multiplier()) && Increment() == old(Increment())
      ensures State() == 0x330e + 0x1_0000 * (seed % U32)
    {
      var s := new nat[][0x330e, seed % 0x1_0000, (seed / 0x1_0000) % 0x1_0000];
      ghost var given := [0x330e, seed % 0x1_0000, (seed / 0x1_0000) % 0x1_0000];
      assert s[0..3] == given;
      SeedLimbs(seed);
      var p := Exchange(s, 0);
    }

    /** lcong48 replaces state, multiplier and increment alike. */
    method Lcong48(p: array<nat>)
      requires Valid() && p.Length >= 7 && Limbs(p[..7])
      modifies words
      ensures Valid() && words[..] == old(p[..7])
    {
      ghost var given := p[..7];
      for i := 0 to 7
        invariant words[..i] == given[..i]
        invariant p[i..7] == given[i..]
      {
        assert p[i..7][0] == p[i];
        words[i] := p[i];
        assert words[..i + 1] == words[..i] + [words[i]];
        assert p[i + 1..7] == p[i..7][1..];
      }
      assert words[..] == given;
    }
  }

  /** The first values after srand48(0) with the default parameters. */
  method AfterSrand48Zero(g: Seed48) returns (a: nat, b: int)
    requires g.Valid() && g.Multiplier() == 0x5_deec_e66d && g.Increment() == 0xb
    modifies g.words, g.prev
    ensures a == 366_850_414 && b == 733_700_828
  {
    hide Lcg.Step, Value, Limbs, Shr, Pow2;
    FirstStep();
    g.Srand48(0);
    a := g.Lrand48();
    g.Srand48(0);
    b := g.Mrand48();
  }

  lemma {:induction false} FirstStep()
    ensures Lcg.Step(48, 0x5_deec_e66d, 0xb, 0x330e) == 48083817484545
    ensures Shr(48083817484545, 17) == 366_850_414 && Shr(48083817484545, 16) == 733_700_828
  {
    hide Pow2;
    Pow2Values();
    ModUnique(0x5_deec_e66d * 0x330e + 0xb, 0x1_0000_0000_0000, 1, 48083817484545);
  }

  lemma {:induction false} SeedLimbs(seed: int)
    ensures seed % 0x1_0000 + 0x1_0000 * ((seed / 0x1_0000) % 0x1_0000) == seed % U32
  {
  }

  lemma {:induction false} LimbsSlices(s: seq<nat>)
    requires Limbs(s) && |s| == 7
    ensures Limbs(s[0..3]) && Limbs(s[3..7])
  {
  }

  /** The values lrand48 returns with the default constants repeat after n calls iff 2^48 divides n. */
  lemma {:induction false} Lrand48Period(x: nat, n: nat)
    requires x < Pow2(48)
    ensures Lcg.OutputsRepeat(48, 0x5_deec_e66d, 0xb, 17, n, x) <==> n % Pow2(48) == 0
  {
    hide Lcg.OutputsRepeat, Pow2;
    Lcg.OutputPeriod(48, 0x5_deec_e66d, 0xb, 17, n, x);
    Lcg.DividesMod(48, n);
  }

  lemma {:induction false} ValueParity(s: seq<nat>)
    requires |s| == 3
    ensures Value(s) % 4 == s[0] % 4
  {
    var h := 0x4000 * s[1] + 0x4000_0000 * s[2];
    assert Value(s) == s[0] + 4 * h;
  }

  /** The parameters given to lcong48 yield all 2^48 states iff their lowest limbs are 1 (mod 4) and odd. */
  lemma {:induction false} Lcong48Period(p: seq<nat>)
    requires |p| == 7 && Limbs(p)
    ensures Lcg.FullPeriod(48, Value(p[3..6]), p[6]) == (p[3] % 4 == 1 && p[6] % 2 == 1)
  {
    hide Lcg.FullPeriod, Value;
    ValueParity(p[3..6]);
    Lcg.FullPeriodIff(48, Value(p[3..6]), p[6]);
  }
}
