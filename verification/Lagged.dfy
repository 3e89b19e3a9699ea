/**
 The generators behind random: the 31-bit linear congruential one used with tiny buffers, and the
 additive lagged-Fibonacci one, whose circular buffer is shown to be a shift register.
 */
module Lagged {
  import opened Bits
  import Lcg
  import opened Rand

  /** Small is the state with RAND_N == 0; in Lagged, RAND_N == |words|. */
  datatype Gen =
    | Small(x: nat)
    | Lagged(i: nat, j: nat, words: seq<nat>)

  /** The distance RAND_I - RAND_J that srandom_locked establishes. */
  function Separation(n: nat): nat {
    if n == 31 || n == 7 then 3 else 1
  }

  /** Words are 32 bits, the length is one of the four, and i runs Separation ahead of j around the circle. */
  predicate Valid(g: Gen) {
    match g
    case Small(x) => x < U32
    case Lagged(i, j, words) =>
      && |words| in {7, 15, 31, 63}
      && i < |words| && j < |words|
      && i == Around(j + Separation(|words|), |words|)
      && AllWords(words)
  }

  predicate AllWords(words: seq<nat>) {
    forall k :: 0 <= k < |words| ==> words[k] < U32
  }

  /** Index a of a circular buffer of n words, for a < 2n. */
  function Around(a: nat, n: nat): nat
    requires a < 2 * n
  {
    if a < n then a else a - n
  }

  function Lcg31(x: nat): nat {
    And(WrapAdd(32, WrapMul(32, MUL32, x), ADD32), 0x7fff_ffff)
  }

  function Lcg64(x: nat): nat {
    WrapAdd(64, WrapMul(64, MUL64, x), 1)
  }

  /** One call of random: the new state and the value returned. */
  function Next(g: Gen): (Gen, nat)
    requires g.Lagged? ==> g.i < |g.words| && g.j < |g.words|
  {
    match g
    case Small(x) => (Small(Lcg31(x)), Lcg31(x))
    case Lagged(i, j, words) =>
      var v := (words[i] + words[j]) % U32;
      var n := |words|;
      (Lagged(if i + 1 == n then 0 else i + 1, if j + 1 == n then 0 else j + 1, words[i := v]), v / 2)
  }

  /** The n words srandom_locked writes, before the first one is made odd. */
  function SeedWords(n: nat, s: nat): (w: seq<nat>)
    ensures |w| == n
  {
    if n == 0 then [] else [Shr(Lcg64(s), 32)] + SeedWords(n - 1, Lcg64(s))
  }

  /** What srandom_locked leaves in the active buffer. */
  function Seeded(n: nat, seed: nat): Gen {
    if n == 0 then Small(seed)
    else
      var w := SeedWords(n, seed);
      Lagged(Separation(n), 0, w[0 := Or(w[0], 1)])
  }

  function Run(g: Gen, t: nat): (r: Gen)
    requires Valid(g)
    ensures Valid(r)
  {
    if t == 0 then g else
      var r := Run(g, t - 1);
      NextValid(r);
      Next(r).0
  }

  // ----- The congruential case -----

  lemma {:induction false} Lcg31Step(x: nat)
    ensures Lcg31(x) == Lcg.Step(31, MUL32, ADD32, x)
    ensures Lcg31(x) == (1_103_515_245 * x + 12_345) % 0x8000_0000
  {
    hide Lcg.Step, Pow2, And, WrapAdd, WrapMul;
    var y := WrapAdd(32, WrapMul(32, MUL32, x), ADD32);
    Pow2Values();
    AndMask(y, 31);
    WrapOnce(32, MUL32, ADD32, x);
    assert y % Pow2(31) == Lcg.Step(32, MUL32, ADD32, x) % Pow2(31);
    StepTruncate(MUL32, ADD32, x);
    StepIs(31, MUL32, ADD32, x);
  }

  lemma {:induction false} StepTruncate(a: nat, c: nat, x: nat)
    ensures Lcg.Step(32, a, c, x) % Pow2(31) == Lcg.Step(31, a, c, x)
  {
    ModMod(a * x + c, 1, 31);
  }

  lemma {:induction false} RunSmall(x: nat, t: nat)
    requires x < U32
    ensures Run(Small(x), t) == Small(Lcg.Iterate(31, MUL32, ADD32, t, x))
  {
    hide Lcg.Step, Lcg31;
    if t != 0 {
      RunSmall(x, t - 1);
      Lcg31Step(Lcg.Iterate(31, MUL32, ADD32, t - 1, x));
    }
  }

  /** With an 8 to 31 byte buffer random returns its new state, the low 31 bits of one congruential step. */
  lemma {:induction false} SmallNext(x: nat)
    ensures var y := (1_103_515_245 * x + 12_345) % 0x8000_0000; Next(Small(x)) == (Small(y), y)
  {
    hide Lcg31;
    Lcg31Step(x);
  }

  /** With an 8 to 31 byte buffer random has exactly period 2^31 on the 31-bit states. */
  lemma {:induction false} SmallPeriod(x: nat, t: nat)
    requires x < 0x8000_0000
    ensures Run(Small(x), t) == Small(x) <==> t % Pow2(31) == 0
  {
    hide Lcg.Step, Pow2, Run, Lcg.Iterate;
    Pow2Values();
    RunSmall(x, t);
    Lcg.FullPeriodIff(31, MUL32, ADD32);
    Lcg.DividesMod(31, t);
  }

  // ----- Validity -----

  lemma {:induction false} NextValid(g: Gen)
    requires Valid(g)
    ensures Valid(Next(g).0)
  {
    if g.Small? {
      hide Lcg31;
      Lcg31Step(g.x);
      Pow2Values();
    }
  }

  lemma {:induction false} UpperHalf(s: nat)
    ensures Shr(Lcg64(s), 32) < U32
  {
    hide Lcg64, Shr, Pow2;
    Lcg64Bound(s);
    ShrBound(Lcg64(s), 32, 32);
    Pow2Values();
  }

  lemma {:induction false} SeedWordsValid(n: nat, s: nat)
    ensures AllWords(SeedWords(n, s))
  {
    if n != 0 {
      hide Lcg64, Shr;
      UpperHalf(s);
      SeedWordsValid(n - 1, Lcg64(s));
    }
  }

  lemma {:induction false} Lcg64Bound(s: nat)
    ensures Lcg64(s) < Pow2(64)
    ensures Lcg64(s) == Lcg.Step(64, MUL64, 1, s)
    ensures Lcg64(s) == (6_364_136_223_846_793_005 * s + 1) % 0x1_0000_0000_0000_0000
  {
    hide WrapAdd, WrapMul, Lcg.Step, Pow2;
    Pow2Values();
    StepIs(64, MUL64, 1, s);
    WrapOnce(64, MUL64, 1, s);
  }

  lemma {:induction false} OrOne(x: nat)
    requires x < U32
    ensures Or(x, 1) % 2 == 1 && Or(x, 1) < U32
    ensures x % 2 == 1 ==> Or(x, 1) == x
    ensures x % 2 == 0 ==> Or(x, 1) == x + 1
  {
    if x != 0 {
      assert Or(x / 2, 0) == x / 2;
      assert Or(x, 1) == 1 + 2 * Or(x / 2, 1 / 2);
    }
  }

  /** Seeding yields a valid state with an odd word. */
  lemma {:induction false} SeededValid(n: nat, seed: nat)
    requires n in {0, 7, 15, 31, 63} && seed < U32
    ensures Valid(Seeded(n, seed))
    ensures n != 0 ==> Seeded(n, seed).words[0] % 2 == 1
  {
    if n != 0 {
      SeedWordsValid(n, seed);
      OrOne(SeedWords(n, seed)[0]);
    }
  }

  /** Word k written by seeding is the upper half of the (k+1)-st 64-bit congruential state. */
  lemma {:induction false} SeedWordsAt(n: nat, s: nat, k: nat)
    requires k < n
    ensures SeedWords(n, s)[k] == Shr(Lcg.Iterate(64, MUL64, 1, k + 1, s), 32)
  {
    hide Lcg64, Shr, Lcg.Step;
    Lcg64Bound(s);
    assert Lcg.Iterate(64, MUL64, 1, 1, s) == Lcg.Step(64, MUL64, 1, Lcg.Iterate(64, MUL64, 1, 0, s));
    if k != 0 {
      SeedWordsAt(n - 1, Lcg64(s), k - 1);
      Lcg.IterateAdd(64, MUL64, 1, k, 1, s);
    }
  }

  /** What seeding leaves: the indices, and the words as upper halves of congruential states, the first made odd. */
  lemma {:induction false} SeededIs(n: nat, seed: nat)
    ensures n == 0 ==> Seeded(n, seed) == Small(seed)
    ensures n != 0 ==> Seeded(n, seed).Lagged? && |Seeded(n, seed).words| == n && Seeded(n, seed).j == 0
    ensures n == 7 || n == 31 ==> Seeded(n, seed).i == 3
    ensures n == 15 || n == 63 ==> Seeded(n, seed).i == 1
    ensures forall k: nat :: k < n ==>
              var u := Lcg.Iterate(64, 6_364_136_223_846_793_005, 1, k + 1, seed) / 0x1_0000_0000;
              Seeded(n, seed).words[k] == if k == 0 && u % 2 == 0 then u + 1 else u
  {
    hide Lcg.Iterate, SeedWords, Or, Pow2;
    Pow2Values();
    forall k: nat | k < n
      ensures var u := Lcg.Iterate(64, 6_364_136_223_846_793_005, 1, k + 1, seed) / 0x1_0000_0000;
              Seeded(n, seed).words[k] == if k == 0 && u % 2 == 0 then u + 1 else u
    {
      SeedWordsAt(n, seed, k);
      SeedWordsValid(n, seed);
      OrOne(SeedWords(n, seed)[0]);
    }
  }

  // ----- The circular buffer is a shift register -----

  /** The words in the order they will be overwritten: oldest first. */
  function Window(g: Gen): (w: seq<nat>)
    requires g.Lagged? && g.i < |g.words|
    ensures |w| == |g.words|
  {
    g.words[g.i..] + g.words[..g.i]
  }

  /** One step of the shift register: drop the oldest word, append oldest + the one Separation back. */
  function Shift(w: seq<nat>): (r: seq<nat>)
    requires 3 < |w|
    ensures |r| == |w|
  {
    w[1..] + [(w[0] + w[|w| - Separation(|w|)]) % U32]
  }

  lemma {:induction false} WindowAt(g: Gen)
    requires Valid(g) && g.Lagged?
    ensures Window(g)[0] == g.words[g.i]
    ensures Window(g)[|g.words| - Separation(|g.words|)] == g.words[g.j]
  {
  }

  /** Both wrap-arounds included, one call of random shifts the window and returns its new word halved. */
  lemma {:induction false} NextShifts(g: Gen)
    requires Valid(g) && g.Lagged?
    ensures Next(g).0.Lagged? && Valid(Next(g).0) && |Next(g).0.words| == |g.words|
    ensures Window(Next(g).0) == Shift(Window(g))
    ensures Next(g).1 == Shift(Window(g))[|g.words| - 1] / 2
  {
    NextValid(g);
    WindowAt(g);
    var v, n := (g.words[g.i] + g.words[g.j]) % U32, |g.words|;
    RotateShift(g.words, g.i, v);
    assert Shift(Window(g)) == Window(g)[1..] + [v];
  }

  lemma {:induction false} RotateShift(words: seq<nat>, i: nat, v: nat)
    requires i < |words|
    ensures var i' := if i + 1 == |words| then 0 else i + 1;
            words[i := v][i'..] + words[i := v][..i'] == (words[i..] + words[..i])[1..] + [v]
  {
    var w := words[i := v];
    if i + 1 == |words| {
      assert w[0..] + w[..0] == words[..i] + [v];
    } else {
      assert w[i + 1..] == words[i + 1..] && w[..i + 1] == words[..i] + [v];
    }
  }

  /** The first n words and the t words that follow, by the recurrence v(t) = v(t-n) + v(t-sep) mod 2^32. */
  function Stream(w: seq<nat>, t: nat): (s: seq<nat>)
    requires 3 < |w|
    ensures |s| == |w| + t
  {
    if t == 0 then w else
      var s := Stream(w, t - 1);
      s + [(s[t - 1] + s[t - 1 + |w| - Separation(|w|)]) % U32]
  }

  lemma {:induction false} StreamPrefix(w: seq<nat>, t: nat, u: nat)
    requires 3 < |w| && t <= u
    ensures Stream(w, t) <= Stream(w, u)
    decreases u
  {
    if t < u {
      StreamPrefix(w, t, u - 1);
    }
  }

  /** Every word after the first n is the sum of the words n and Separation before it. */
  lemma {:induction false} Recurrence(w: seq<nat>, t: nat, k: nat)
    requires 3 < |w| && |w| <= k < |w| + t
    ensures Stream(w, t)[k] == (Stream(w, t)[k - |w|] + Stream(w, t)[k - Separation(|w|)]) % U32
    ensures |w| == 7 || |w| == 31 ==> Stream(w, t)[k] == (Stream(w, t)[k - |w|] + Stream(w, t)[k - 3]) % 0x1_0000_0000
    ensures |w| == 15 || |w| == 63 ==> Stream(w, t)[k] == (Stream(w, t)[k - |w|] + Stream(w, t)[k - 1]) % 0x1_0000_0000
  {
    var u := k - |w| + 1;
    StreamPrefix(w, u, t);
    var s := Stream(w, u - 1);
    StreamPrefix(w, u - 1, u);
    assert Stream(w, u)[k] == (s[u - 1] + s[u - 1 + |w| - Separation(|w|)]) % U32;
    assert Stream(w, t)[k] == Stream(w, u)[k];
    assert Stream(w, t)[k - |w|] == s[k - |w|];
    assert Stream(w, t)[k - Separation(|w|)] == s[k - Separation(|w|)];
  }

  lemma {:induction false} StreamShift(w: seq<nat>, t: nat)
    requires 3 < |w|
    ensures Shift(Stream(w, t)[t..]) == Stream(w, t + 1)[t + 1..]
    ensures Shift(Stream(w, t)[t..])[|w| - 1] == Stream(w, t + 1)[t + |w|]
  {
    var s, n := Stream(w, t), |w|;
    var q, v := s[t..], (s[t] + s[t + n - Separation(n)]) % U32;
    assert Stream(w, t + 1) == s + [v];
    assert q[0] == s[t] && q[n - Separation(n)] == s[t + n - Separation(n)];
    assert (s + [v])[t + 1..] == s[t + 1..] + [v];
    assert q[1..] == s[t + 1..];
  }

  /** After t calls the buffer holds words t..t+n of the stream, and call t returns word t+n halved. */
  lemma {:induction false} RunFollowsStream(g: Gen, t: nat)
    requires Valid(g) && g.Lagged?
    ensures var r := Run(g, t);
            r.Lagged? && |r.words| == |g.words| &&
            Window(r) == Stream(Window(g), t)[t..] &&
            Next(r).1 == Stream(Window(g), t + 1)[t + |g.words|] / 2
  {
    hide Shift, Window, Next, Stream;
    var w := Window(g);
    if t == 0 {
      StreamZero(w);
    } else {
      RunFollowsStream(g, t - 1);
      NextShifts(Run(g, t - 1));
      StreamShift(w, t - 1);
    }
    NextShifts(Run(g, t));
    StreamShift(w, t);
  }

  lemma {:induction false} StreamZero(w: seq<nat>)
    requires 3 < |w|
    ensures Stream(w, 0)[0..] == w
  {
  }

  // ----- Invertibility and parity -----

  /** The state one call earlier. */
  function Previous(g: Gen): Gen
    requires Valid(g) && g.Lagged?
  {
    var n := |g.words|;
    var i := if g.i == 0 then n - 1 else g.i - 1;
    var j := if g.j == 0 then n - 1 else g.j - 1;
    Lagged(i, j, g.words[i := (g.words[i] - g.words[j]) % U32])
  }

  /** A call of random on the lagged generator loses nothing. */
  lemma {:induction false} NextInvertible(g: Gen)
    requires Valid(g) && g.Lagged?
    ensures Valid(Next(g).0) && Previous(Next(g).0) == g
  {
    NextValid(g);
    var g' := Next(g).0;
    assert g.i != g.j;
    assert g'.words[g.j] == g.words[g.j];
    SubtractBack(g.words[g.i], g.words[g.j]);
    assert g'.words[g.i := g.words[g.i]] == g.words;
  }

  lemma {:induction false} SubtractBack(x: nat, y: nat)
    requires x < U32 && y < U32
    ensures ((x + y) % U32 - y) % U32 == x
  {
  }

  predicate HasOdd(g: Gen)
    requires g.Lagged?
  {
    exists k :: 0 <= k < |g.words| && g.words[k] % 2 == 1
  }

  /** The buffer has an odd word after a call exactly when it had one before. */
  lemma {:induction false} NextKeepsOdd(g: Gen)
    requires Valid(g) && g.Lagged?
    ensures HasOdd(Next(g).0) <==> HasOdd(g)
  {
    var g' := Next(g).0;
    assert g.i != g.j;
    var v := (g.words[g.i] + g.words[g.j]) % U32;
    assert v % 2 == (g.words[g.i] + g.words[g.j]) % 2;
    assert g'.words[g.i] == v && g'.words[g.j] == g.words[g.j];
    if HasOdd(g) {
      var k :| 0 <= k < |g.words| && g.words[k] % 2 == 1;
      if k == g.i && g.words[g.j] % 2 == 0 {
        assert g'.words[g.i] % 2 == 1;
      } else if k == g.i {
        assert g'.words[g.j] % 2 == 1;
      } else {
        assert g'.words[k] % 2 == 1;
      }
    }
    if HasOdd(g') {
      var k :| 0 <= k < |g.words| && g'.words[k] % 2 == 1;
      if k == g.i && g.words[g.j] % 2 == 0 {
        assert g.words[g.i] % 2 == 1;
      } else if k == g.i {
        assert g.words[g.j] % 2 == 1;
      } else {
        assert g.words[k] % 2 == 1;
      }
    }
  }

  /** However long it runs, a seeded lagged generator never has all words even. */
  lemma {:induction false} SeededStaysOdd(n: nat, seed: nat, t: nat)
    requires n in {7, 15, 31, 63} && seed < U32
    ensures Valid(Seeded(n, seed))
    ensures Run(Seeded(n, seed), t).Lagged? && HasOdd(Run(Seeded(n, seed), t))
  {
    SeededValid(n, seed);
    if t == 0 {
      assert Seeded(n, seed).words[0] % 2 == 1;
    } else {
      SeededStaysOdd(n, seed, t - 1);
      NextKeepsOdd(Run(Seeded(n, seed), t - 1));
    }
  }
}
