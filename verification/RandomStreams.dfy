/**
 Whole histories of random, srandom, initstate and setstate over any number of state buffers: every
 buffer yields the stream that a private generator, never disturbed by the others, would yield.
 */
module RandomStreams {
  import opened Lagged
  import opened RandomInit
  import opened RandomState

  /** The calls of a history never break a caller's obligation. */
  predicate LegalHistory<B>(m: Machine<B>, h: seq<Op<B>>)
    decreases |h|
  {
    h == [] ||
    (m.cur in m.gens && Valid(m.gens[m.cur]) && Legal(m, h[0]) && LegalHistory(Perform(m, h[0]).0, h[1..]))
  }

  /** The abstract machine after a history, and what each call returned. */
  function PerformAll<B>(m: Machine<B>, h: seq<Op<B>>): (r: (Machine<B>, seq<Result<B>>))
    requires LegalHistory(m, h)
    ensures |r.1| == |h|
    decreases |h|
  {
    if h == [] then (m, []) else
      var (m1, result) := Perform(m, h[0]);
      var (m2, results) := PerformAll(m1, h[1..]);
      (m2, [result] + results)
  }

  /** Each call finds the memory it accesses. */
  predicate ApplicableHistory<B>(s: Shared<B>, h: seq<Op<B>>)
    decreases |h|
  {
    h == [] || (Applicable(s, h[0]) && ApplicableHistory(Apply(s, h[0]).0, h[1..]))
  }

  function ApplyAll<B>(s: Shared<B>, h: seq<Op<B>>): (r: (Shared<B>, seq<Result<B>>))
    requires ApplicableHistory(s, h)
    ensures |r.1| == |h|
    decreases |h|
  {
    if h == [] then (s, []) else
      var (s1, result) := Apply(s, h[0]);
      var (s2, results) := ApplyAll(s1, h[1..]);
      (s2, [result] + results)
  }

  /** Every run: whatever the history, the shared words represent the abstract machine and return what it returns. */
  lemma {:induction false} HistoryRefines<B>(s: Shared<B>, m: Machine<B>, h: seq<Op<B>>)
    requires Represents(s, m) && LegalHistory(m, h)
    ensures ApplicableHistory(s, h)
    ensures Represents(ApplyAll(s, h).0, PerformAll(m, h).0)
    ensures ApplyAll(s, h).1 == PerformAll(m, h).1
    decreases |h|
  {
    hide Represents, Apply, Perform, Applicable, Legal;
    if h != [] {
      ApplyRefines(s, m, h[0]);
      HistoryRefines(Apply(s, h[0]).0, Perform(m, h[0]).0, h[1..]);
    }
  }

  // ----- One buffer's private view of a history -----

  /** What happens to one generator. */
  datatype Event = Draw | Reseed(seed: nat) | Fresh(n: nat, seed: nat)

  function CurrentAfter<B>(cur: B, op: Op<B>): B {
    match op
    case Initstate(_, b, size) => if size < 8 then cur else b
    case Setstate(b) => b
    case _ => cur
  }

  function EventsOf<B(==)>(cur: B, op: Op<B>, b: B): (e: seq<Event>)
    ensures |e| <= 1
  {
    match op
    case Random => if cur == b then [Draw] else []
    case Srandom(seed) => if cur == b then [Reseed(seed)] else []
    case Initstate(seed, state, size) => if 8 <= size && state == b then [Fresh(Degree(size), seed)] else []
    case Setstate(_) => []
  }

  /** The calls of a history that concern buffer b. */
  function Project<B(==)>(cur: B, h: seq<Op<B>>, b: B): seq<Event> {
    if h == [] then [] else EventsOf(cur, h[0], b) + Project(CurrentAfter(cur, h[0]), h[1..], b)
  }

  /** The numbers the history returned while b was current. */
  function Drawn<B(==)>(cur: B, h: seq<Op<B>>, results: seq<Result<B>>, b: B): seq<nat>
    requires |results| == |h|
  {
    if h == [] then [] else
      (if h[0].Random? && cur == b && results[0].Number? then [results[0].value] else [])
      + Drawn(CurrentAfter(cur, h[0]), h[1..], results[1..], b)
  }

  function GenOf<B>(m: Machine<B>, b: B): Option<Gen> {
    if b in m.gens then Some(m.gens[b]) else None
  }

  /** A private generator, touched by nothing but its own events. */
  function PrivateStep(g: Option<Gen>, e: Event): (Option<Gen>, seq<nat>) {
    match e
    case Fresh(n, seed) => (Some(Seeded(n, seed)), [])
    case Reseed(seed) => (if g.Some? then Some(Seeded(DegreeOf(g.value), seed)) else None, [])
    case Draw =>
      if g.Some? && Valid(g.value) then (Some(Next(g.value).0), [Next(g.value).1]) else (None, [])
  }

  function PrivateRun(g: Option<Gen>, events: seq<Event>): (Option<Gen>, seq<nat>)
    decreases |events|
  {
    if events == [] then (g, []) else
      var (g1, out1) := PrivateStep(g, events[0]);
      var (g2, out2) := PrivateRun(g1, events[1..]);
      (g2, out1 + out2)
  }

  lemma {:induction false} PrivateRunAppend(g: Option<Gen>, e: seq<Event>, rest: seq<Event>)
    requires |e| <= 1
    ensures PrivateRun(g, e + rest).0 == PrivateRun(PrivateRun(g, e).0, rest).0
    ensures PrivateRun(g, e + rest).1 == PrivateRun(g, e).1 + PrivateRun(PrivateRun(g, e).0, rest).1
  {
    hide PrivateStep;
    if e == [] {
      assert e + rest == rest;
    } else {
      assert (e + rest)[1..] == rest && e[1..] == [];
      assert PrivateRun(g, e).1 == PrivateStep(g, e[0]).1;
    }
  }

  lemma {:induction false} PrivateOne(g: Option<Gen>, e: Event)
    ensures PrivateRun(g, [e]) == PrivateStep(g, e)
  {
    hide PrivateStep;
    assert [e][1..] == [];
    assert PrivateStep(g, e).1 + [] == PrivateStep(g, e).1;
  }

  lemma {:induction false} PerformIsPrivate<B>(m: Machine<B>, op: Op<B>, b: B)
    requires m.cur in m.gens && Valid(m.gens[m.cur]) && Legal(m, op)
    ensures Perform(m, op).0.cur == CurrentAfter(m.cur, op)
    ensures op.Random? ==> Perform(m, op).1.Number?
    ensures PrivateRun(GenOf(m, b), EventsOf(m.cur, op, b)) ==
            (GenOf(Perform(m, op).0, b),
             if op.Random? && m.cur == b then [Perform(m, op).1.value] else [])
  {
    hide Next, Seeded, Valid;
    var events := EventsOf(m.cur, op, b);
    if events != [] {
      PrivateOne(GenOf(m, b), events[0]);
      assert events == [events[0]];
    }
  }

  /**
   For every history, every buffer ends with the generator, and yielded the numbers, of a private run
   of just its own events: switching between buffers neither loses nor leaks anything.
   */
  lemma {:induction false} StreamsIndependent<B>(s: Shared<B>, m: Machine<B>, h: seq<Op<B>>, b: B)
    requires Represents(s, m) && LegalHistory(m, h)
    ensures ApplicableHistory(s, h)
    ensures Drawn(m.cur, h, ApplyAll(s, h).1, b) == PrivateRun(GenOf(m, b), Project(m.cur, h, b)).1
    ensures GenOf(PerformAll(m, h).0, b) == PrivateRun(GenOf(m, b), Project(m.cur, h, b)).0
    decreases |h|
  {
    hide Represents, Apply, Perform, Applicable, Legal, PrivateStep, EventsOf, CurrentAfter, GenOf;
    if h != [] {
      ApplyRefines(s, m, h[0]);
      var s1, m1 := Apply(s, h[0]).0, Perform(m, h[0]).0;
      StreamsIndependent(s1, m1, h[1..], b);
      PerformIsPrivate(m, h[0], b);
      PrivateRunAppend(GenOf(m, b), EventsOf(m.cur, h[0], b), Project(m1.cur, h[1..], b));
      var results := ApplyAll(s, h).1;
      assert results[0] == Perform(m, h[0]).1;
      assert results[1..] == ApplyAll(s1, h[1..]).1;
    }
  }

  // ----- Resumption -----

  predicate OnlyDraws(events: seq<Event>) {
    forall k :: 0 <= k < |events| ==> events[k] == Draw
  }

  lemma {:induction false} DrawsCount(g: Gen, events: seq<Event>)
    requires Valid(g) && OnlyDraws(events)
    ensures |PrivateRun(Some(g), events).1| == |events|
    decreases |events|
  {
    if events != [] {
      hide Next;
      NextValid(g);
      DrawsCount(Next(g).0, events[1..]);
    }
  }

  lemma {:induction false} DrawsAreRun(g: Gen, events: seq<Event>, k: nat)
    requires Valid(g) && OnlyDraws(events) && k < |events|
    ensures |PrivateRun(Some(g), events).1| == |events|
    ensures PrivateRun(Some(g), events).1[k] == Next(Run(g, k)).1
    decreases |events|
  {
    hide Next;
    DrawsCount(g, events);
    NextValid(g);
    if k != 0 {
      DrawsAreRun(Next(g).0, events[1..], k - 1);
      RunShift(g, k - 1);
    }
  }

  lemma {:induction false} RunShift(g: Gen, k: nat)
    requires Valid(g)
    ensures Valid(Next(g).0) && Run(Next(g).0, k) == Run(g, k + 1)
  {
    hide Next, Valid;
    NextValid(g);
    if k != 0 {
      RunShift(g, k - 1);
    } else {
      assert Run(g, 0) == g;
    }
  }

  /**
   A buffer that is never reseeded resumes exactly where it was left, however often the history switches
   away and whatever it does to other buffers meanwhile: its numbers are the unbroken run of its generator.
   */
  lemma {:induction false} StreamResumes<B>(s: Shared<B>, m: Machine<B>, h: seq<Op<B>>, b: B)
    requires Represents(s, m) && LegalHistory(m, h) && b in m.gens
    requires OnlyDraws(Project(m.cur, h, b))
    ensures ApplicableHistory(s, h) && Valid(m.gens[b])
    ensures var out := Drawn(m.cur, h, ApplyAll(s, h).1, b);
            forall k :: 0 <= k < |out| ==> out[k] == Next(Run(m.gens[b], k)).1
  {
    assert Stored(s, m, b);
    StreamsIndependent(s, m, h, b);
    hide Represents, LegalHistory, PrivateRun, Run, Next, Project;
    var events := Project(m.cur, h, b);
    DrawsCount(m.gens[b], events);
    forall k | 0 <= k < |events|
      ensures PrivateRun(Some(m.gens[b]), events).1[k] == Next(Run(m.gens[b], k)).1
    {
      DrawsAreRun(m.gens[b], events, k);
    }
  }

  // ----- The initial state -----

  /**
   The statically initialised state, RAND_X still null, is a valid lagged generator with an odd word:
   the one srandom(1) leaves.
   */
  lemma {:induction false} InitialRepresents<B>(s: Shared<B>)
    requires s.n == 31 && s.i == 3 && s.j == 0 && s.x == None
    requires s.home in s.mem && s.mem[s.home] == RANDOM_INIT
    ensures var g := Lagged(3, 0, RANDOM_INIT[1..]);
            Represents(s, Machine(s.home, map[s.home := g], map b | b in s.mem :: |s.mem[b]|)) && HasOdd(g) &&
            g == Seeded(31, 1)
  {
    InitialIsSeedOne();
    hide Seeded;
    var words := RANDOM_INIT[1..];
    assert words[0] == 0x5851f42d;
    assert words[0] % 2 == 1;
    assert AllWords(words);
    var m := Machine(s.home, map[s.home := Lagged(3, 0, words)], map b | b in s.mem :: |s.mem[b]|);
    assert Stored(s, m, s.home);
  }
}
