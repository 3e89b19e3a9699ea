/**
 random, srandom, initstate and setstate over real buffers. A state buffer is an array whose element 0 is
 the header word; the source's RAND_X, which points at element 1, is represented by the array itself.
 Each method is proved against the operation of the same name in module RandomState.
 */
module RandomFamily {
  import opened Bits
  import opened Lagged
  import opened RandomState

  class RandomFamily {
    const init: array<nat>
    var n: nat
    var i: nat
    var j: nat
    var x: array?<nat>
    var locked: int
    ghost const buffers: set<array<nat>>

    ghost predicate Valid()
      reads this`x
    {
      init in buffers && (x != null ==> x in buffers)
    }

    /** The fields and the contents of all buffers as one value. */
    ghost function Contents(): Shared<array<nat>>
      reads this`n, this`i, this`j, this`x, buffers
    {
      var p: Option<array<nat>> := if x == null then None else var q: array<nat> := x; Some(q);
      Shared<array<nat>>.Shared(init, n, i, j, p, map b | b in buffers :: b[..])
    }

    constructor (words: array<nat>, ghost others: set<array<nat>>)
      requires words.Length == 32
      ensures Valid() && locked == 0 && buffers == others + {words}
      ensures Contents() == Shared(words, 31, 3, 0, None, map b | b in buffers :: b[..])
    {
      init := words;
      n, i, j := 31, 3, 0;
      x := null;
      locked := 0;
      buffers := others + {words};
    }

    /** compare_exchange on the lock word. */
    method CompareExchange(current: int, new_: int) returns (ok: bool)
      modifies this`locked
      ensures ok <==> old(locked) == current
      ensures locked == if ok then new_ else old(locked)
    {
      ok := locked == current;
      if ok {
        locked := new_;
      }
    }

    method Lock()
      requires locked == 0
      modifies this`locked
      ensures locked == 1
    {
      var acquired := false;
      while !acquired
        invariant if acquired then locked == 1 else locked == 0
        decreases !acquired
      {
        acquired := CompareExchange(0, 1);
      }
    }

    method Unlock()
      modifies this`locked
      ensures locked == 0
    {
      locked := 0;
    }

    method XPtr() returns (p: array<nat>)
      requires Valid()
      modifies this`x
      ensures Valid() && p == x == Active(old(Contents()))
    {
      if x == null {
        x := init;
      }
      p := x;
    }

    method Savestate() returns (p: array<nat>)
      requires Valid() && 0 < |Contents().mem[Active(Contents())]|
      modifies this`x, buffers
      ensures Valid() && Contents() == SaveState(old(Contents()))
      ensures p == Active(old(Contents()))
    {
      hide Or, Shl;
      p := XPtr();
      p[0] := Or(Or(Shl(n, 16) % U32, Shl(i, 8)), j);
      assert p[..] == Store(old(p[..]), 0, p[0]);
    }

    method Loadstate(state: array<nat>)
      requires Valid() && state in buffers && 0 < state.Length
      modifies this`x, this`n, this`i, this`j
      ensures Valid() && Contents() == LoadState(old(Contents()), state)
    {
      hide And, Shr;
      x := state;
      var header := state[0];
      n := Shr(header, 16);
      i := And(Shr(header, 8), 0xff);
      j := And(header, 0xff);
    }

    /** The loop of srandom_locked. */
    method FillWords(p: array<nat>, seed: nat)
      requires n < p.Length
      modifies p
      ensures p[..] == old(p[..1]) + SeedWords(n, seed) + old(p[n + 1..])
    {
      hide Lcg64, Shr;
      var s := seed;
      for k := 0 to n
        invariant p[..1] == old(p[..1]) && p[n + 1..] == old(p[n + 1..])
        invariant SeedWords(n, seed) == p[1..k + 1] + SeedWords(n - k, s)
      {
        assert SeedWords(n - k, s) == [Shr(Lcg64(s), 32)] + SeedWords(n - k - 1, Lcg64(s));
        s := Lcg64(s);
        p[1 + k] := Shr(s, 32);
        assert p[1..k + 2] == p[1..k + 1] + [p[k + 1]];
      }
      assert p[..] == p[..1] + p[1..n + 1] + p[n + 1..];
    }

    /** The loop, and the low bit of the first word set afterwards. */
    method FillState(p: array<nat>, seed: nat)
      requires 0 < n < p.Length
      modifies p
      ensures p[..] == [old(p[0])] + Seeded(n, seed).words + old(p[n + 1..])
    {
      hide Or, SeedWords;
      ghost var was := p[..];
      FillWords(p, seed);
      p[1] := Or(p[1], 1);
      FirstOdd(was, SeedWords(n, seed));
    }

    method SrandomLock(seed: nat)
      requires Valid()
      requires 2 <= |Contents().mem[Active(Contents())]| && n < |Contents().mem[Active(Contents())]|
      modifies this`x, this`i, this`j, buffers
      ensures Valid() && Contents() == SrandomLocked(old(Contents()), seed)
    {
      hide Seeded;
      var p := XPtr();
      ghost var was := p[..];
      if n == 0 {
        p[1] := seed;
        assert p[..] == Store(was, 1, seed);
        return;
      }
      i := if n == 31 || n == 7 then 3 else 1;
      j := 0;
      FillState(p, seed);
    }

    method Srandom(seed: nat)
      requires Valid() && locked == 0 && Applicable(Contents(), Op.Srandom(seed))
      modifies this, buffers
      ensures Valid() && locked == 0
      ensures Contents() == Apply(old(Contents()), Op.Srandom(seed)).0
    {
      Lock();
      SrandomLock(seed);
      Unlock();
    }

    /** The lagged Fibonacci branch of random. */
    method Advance(p: array<nat>) returns (v: nat)
      requires i < n < p.Length && j < n
      modifies p, this`i, this`j
      ensures var word := (old(p[1 + i]) + old(p[1 + j])) % U32;
              p[..] == Store(old(p[..]), 1 + old(i), word) && v == word / 2
      ensures i == (if old(i) + 1 == n then 0 else old(i) + 1)
      ensures j == (if old(j) + 1 == n then 0 else old(j) + 1)
    {
      var word := (p[1 + i] + p[1 + j]) % U32;
      p[1 + i] := word;
      i := if i + 1 == n then 0 else i + 1;
      j := if j + 1 == n then 0 else j + 1;
      v := word / 2;
    }

    method RandomLocked() returns (v: nat)
      requires Valid() && Safe(Contents())
      modifies this`x, this`i, this`j, buffers
      ensures Valid() && Contents() == RandomOp(old(Contents())).0
      ensures v == RandomOp(old(Contents())).1
    {
      hide Lcg31;
      var p := XPtr();
      ghost var was := p[..];
      if n == 0 {
        v := Lcg31(p[1]);
        p[1] := v;
        assert p[..] == Store(was, 1, v);
      } else {
        v := Advance(p);
      }
    }

    method Random() returns (v: nat)
      requires Valid() && locked == 0 && Applicable(Contents(), Op.Random)
      modifies this, buffers
      ensures Valid() && locked == 0
      ensures Contents() == Apply(old(Contents()), Op.Random).0
      ensures Number(v) == Apply(old(Contents()), Op.Random).1
    {
      hide RandomOp, Contents;
      Lock();
      v := RandomLocked();
      Unlock();
    }

    /** initstate's choice of degree and buffer. */
    method Adopt(state: array<nat>, size: nat)
      requires Valid() && state in buffers
      modifies this`n, this`x
      ensures Valid() && Contents() == old(Contents()).(n := Degree(size), x := Some(state))
    {
      n := if size < 32 then 0 else if size < 64 then 7 else if size < 128 then 15 else if size < 256 then 31 else 63;
      x := state;
    }

    method InitstateLocked(seed: nat, state: array<nat>, size: nat) returns (p: array<nat>)
      requires Valid() && Safe(Contents()) && state in buffers && 8 <= size <= 4 * state.Length
      modifies this`x, this`n, this`i, this`j, buffers
      ensures Valid() && Contents() == InitstateOp(old(Contents()), seed, state, size)
      ensures p == Active(old(Contents()))
    {
      hide Header, SrandomLocked, Seeded, SaveState;
      SaveKeepsSizes(Contents());
      p := Savestate();
      Adopt(state, size);
      ghost var s := Contents();
      SrandomLock(seed);
      SrandomKeepsSizes(s, seed);
      var q := Savestate();
    }

    method Initstate(seed: nat, state: array<nat>, size: nat) returns (p: array?<nat>)
      requires Valid() && locked == 0 && Applicable(Contents(), Op.Initstate(seed, state, size))
      modifies this, buffers
      ensures Valid() && locked == 0
      ensures Contents() == Apply(old(Contents()), Op.Initstate(seed, state, size)).0
      ensures if size < 8 then p == null else p == Active(old(Contents()))
    {
      if size < 8 {
        return null;
      }
      hide InitstateOp;
      assert state in Contents().mem && Contents().mem[state] == state[..];
      hide Contents;
      Lock();
      p := InitstateLocked(seed, state, size);
      Unlock();
    }

    method SetstateLocked(state: array<nat>) returns (p: array<nat>)
      requires Valid() && Safe(Contents()) && state in buffers && 0 < state.Length
      modifies this`x, this`n, this`i, this`j, buffers
      ensures Valid() && Contents() == SetstateOp(old(Contents()), state)
      ensures p == Active(old(Contents()))
    {
      hide SaveState, LoadState;
      SaveKeepsSizes(Contents());
      p := Savestate();
      Loadstate(state);
    }

    method Setstate(state: array<nat>) returns (p: array<nat>)
      requires Valid() && locked == 0 && Applicable(Contents(), Op.Setstate(state))
      modifies this, buffers
      ensures Valid() && locked == 0
      ensures Contents() == Apply(old(Contents()), Op.Setstate(state)).0
      ensures Old(p) == Apply(old(Contents()), Op.Setstate(state)).1
      ensures p == Active(old(Contents())) && Active(Contents()) == state
    {
      hide SetstateOp;
      assert state in Contents().mem && Contents().mem[state] == state[..];
      OldBufferReturned(Contents(), Op.Setstate(state));
      hide Contents;
      Lock();
      p := SetstateLocked(state);
      Unlock();
    }
  }

  lemma {:induction false} FirstOdd(was: seq<nat>, w: seq<nat>)
    requires w != [] && |w| < |was|
    ensures (was[..1] + w + was[|w| + 1..])[1 := Or(w[0], 1)] == [was[0]] + w[0 := Or(w[0], 1)] + was[|w| + 1..]
  {
  }
}
