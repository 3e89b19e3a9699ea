/**
 Any number of threads calling random, srandom, initstate and setstate, interleaved at every single read
 and write (sequential consistency), around the compare-and-swap spinlock.
 */
module RandomThreads {
  import opened RandomState
  import opened RandomSteps
  import Streams = RandomStreams

  datatype Thread<!B> =
    | Idle
    | Trying(op: Op<B>, invoked: nat)
    | Inside(l: Local<B>)

  /** One call in the order of lock acquisition, with the times of its invocation, acquisition and response. */
  datatype Call<!B> = Call(tid: nat, op: Op<B>, invoked: nat, acquired: nat, responded: Option<nat>, result: Result<B>)

  datatype System<!B> = System(shared: Shared<B>, locked: bool, threads: map<nat, Thread<B>>, log: seq<Call<B>>, clock: nat)

  /** One step of one thread. Swap is the compare-and-swap, whether it succeeds or the thread spins on. */
  datatype Action<+B> = Invoke(tid: nat, op: Op<B>) | Swap(tid: nat) | Access(tid: nat) | Unlock(tid: nat)

  /** The calls that take the lock: initstate with less than 8 bytes returns before it. */
  predicate Locking<B>(op: Op<B>) {
    op.Initstate? ==> 8 <= op.size
  }

  predicate Enabled<B>(c: System<B>, a: Action<B>) {
    && a.tid in c.threads
    && match a
      case Invoke(t, op) => c.threads[t].Idle? && Locking(op)
      case Swap(t) => c.threads[t].Trying?
      case Access(t) => c.threads[t].Inside? && c.threads[t].l.pc != Done
      case Unlock(t) => c.threads[t].Inside? && c.threads[t].l.pc == Done && c.log != []
  }

  function Step<B>(c: System<B>, a: Action<B>): System<B>
    requires Enabled(c, a)
  {
    var d := c.(clock := c.clock + 1);
    match a
    case Invoke(t, op) => d.(threads := c.threads[t := Trying(op, c.clock)])
    case Swap(t) =>
      if c.locked then d else
        var w := c.threads[t];
        d.(locked := true,
           threads := c.threads[t := Inside(Start(w.op, c.shared.home))],
           log := c.log + [Call(t, w.op, w.invoked, c.clock, None, Unit)])
    case Access(t) =>
      var (l, s) := Micro(c.threads[t].l, c.shared);
      d.(shared := s, threads := c.threads[t := Inside(l)])
    case Unlock(t) =>
      var last := |c.log| - 1;
      d.(locked := false,
         threads := c.threads[t := Idle],
         log := c.log[last := c.log[last].(responded := Some(c.clock), result := c.threads[t].l.result)])
  }

  predicate Runs<B>(c: System<B>, actions: seq<Action<B>>)
    decreases |actions|
  {
    actions == [] || (Enabled(c, actions[0]) && Runs(Step(c, actions[0]), actions[1..]))
  }

  function Execute<B>(c: System<B>, actions: seq<Action<B>>): System<B>
    requires Runs(c, actions)
    decreases |actions|
  {
    if actions == [] then c else Execute(Step(c, actions[0]), actions[1..])
  }

  predicate Initial<B>(c: System<B>) {
    !c.locked && c.log == [] && forall t :: t in c.threads ==> c.threads[t].Idle?
  }

  // ----- The sequential run in lock order -----

  function Ops<B>(log: seq<Call<B>>): (ops: seq<Op<B>>)
    ensures |ops| == |log|
    ensures forall k :: 0 <= k < |log| ==> ops[k] == log[k].op
  {
    if log == [] then [] else Ops(log[..|log| - 1]) + [log[|log| - 1].op]
  }

  /** The shared state after the logged calls, each run alone, one after the other. */
  function Replay<B>(s: Shared<B>, log: seq<Call<B>>): Shared<B> {
    if log == [] then s else Alone(log[|log| - 1].op, Replay(s, log[..|log| - 1])).0
  }

  /** Call k of the log has returned, with the result it has in the sequential run. */
  predicate Answered<B>(s: Shared<B>, log: seq<Call<B>>, k: nat)
    requires k < |log|
  {
    log[k].responded.Some? && log[k].result == Alone(log[k].op, Replay(s, log[..k])).1
  }

  // ----- The invariant -----

  predicate LogTimes<B>(c: System<B>) {
    && (forall k :: 0 <= k < |c.log| ==>
          c.log[k].invoked <= c.log[k].acquired < c.clock &&
          (c.log[k].responded.Some? ==> c.log[k].acquired <= c.log[k].responded.value))
    && (forall j, k :: 0 <= j < k < |c.log| ==> c.log[j].acquired < c.log[k].acquired)
    && (forall t :: t in c.threads && c.threads[t].Trying? ==> c.threads[t].invoked <= c.clock)
  }

  /** The thread that took the lock last is the only one inside, and exactly while the lock is taken. */
  predicate Exclusive<B>(c: System<B>) {
    && (c.locked ==> c.log != [] && c.log[|c.log| - 1].tid in c.threads && c.threads[c.log[|c.log| - 1].tid].Inside?)
    && (forall t :: t in c.threads && c.threads[t].Inside? ==> c.locked && t == c.log[|c.log| - 1].tid)
    && (forall t :: t in c.threads && c.threads[t].Trying? ==> Locking(c.threads[t].op))
    && (forall k :: 0 <= k < |c.log| ==> Locking(c.log[k].op))
  }

  /** Shared memory is that of the sequential run, but for the accesses the holder still has to make. */
  predicate Consistent<B>(s: Shared<B>, c: System<B>)
    requires Exclusive(c)
  {
    if c.locked then
      var last := |c.log| - 1;
      var l := c.threads[c.log[last].tid].l;
      && (forall k :: 0 <= k < last ==> Answered(s, c.log, k))
      && c.log[last].responded.None?
      && WellFormed(l)
      && Finish(l, c.shared).1 == Replay(s, c.log)
      && Finish(l, c.shared).0.result == Alone(c.log[last].op, Replay(s, c.log[..last])).1
    else
      && (forall k :: 0 <= k < |c.log| ==> Answered(s, c.log, k))
      && c.shared == Replay(s, c.log)
  }

  predicate Invariant<B>(s: Shared<B>, c: System<B>) {
    LogTimes(c) && Exclusive(c) && Consistent(s, c)
  }

  lemma {:induction false} StepTimes<B>(c: System<B>, a: Action<B>)
    requires Enabled(c, a) && LogTimes(c)
    requires a.Unlock? ==> c.log[|c.log| - 1].acquired < c.clock
    ensures LogTimes(Step(c, a))
  {
    hide Micro;
  }

  lemma {:induction false} StepExclusive<B>(c: System<B>, a: Action<B>)
    requires Enabled(c, a) && Exclusive(c)
    ensures Exclusive(Step(c, a))
  {
    hide Micro, Start;
  }

  lemma {:induction false} SwapConsistent<B>(s: Shared<B>, c: System<B>, t: nat)
    requires Enabled(c, Swap(t)) && Exclusive(c) && Consistent(s, c)
    ensures Exclusive(Step(c, Swap(t))) && Consistent(s, Step(c, Swap(t)))
  {
    hide Finish;
    StepExclusive(c, Swap(t));
    if !c.locked {
      var d, last := Step(c, Swap(t)), |c.log|;
      assert d.log[..last] == c.log;
      forall k | 0 <= k < last
        ensures Answered(s, d.log, k)
      {
        assert Answered(s, c.log, k);
        assert d.log[..k] == c.log[..k];
      }
    }
  }

  lemma {:induction false} AccessConsistent<B>(s: Shared<B>, c: System<B>, t: nat)
    requires Enabled(c, Access(t)) && Exclusive(c) && Consistent(s, c)
    ensures Exclusive(Step(c, Access(t))) && Consistent(s, Step(c, Access(t)))
  {
    hide Micro, Alone, Replay;
    StepExclusive(c, Access(t));
    var l', s' := Advance(c.threads[t].l, c.shared);
  }

  lemma {:induction false} UnlockConsistent<B>(s: Shared<B>, c: System<B>, t: nat)
    requires Enabled(c, Unlock(t)) && Exclusive(c) && Consistent(s, c)
    ensures Exclusive(Step(c, Unlock(t))) && Consistent(s, Step(c, Unlock(t)))
  {
    hide Finish, Alone;
    StepExclusive(c, Unlock(t));
    var d, last := Step(c, Unlock(t)), |c.log| - 1;
    FinishDone(c.threads[t].l, c.shared);
    assert d.log[..last] == c.log[..last];
    forall k | 0 <= k < |d.log|
      ensures Answered(s, d.log, k)
    {
      assert d.log[..k] == c.log[..k];
      if k < last {
        assert Answered(s, c.log, k);
      }
    }
  }

  /** Every step of every thread keeps the invariant. */
  lemma {:induction false} StepKeeps<B>(s: Shared<B>, c: System<B>, a: Action<B>)
    requires Enabled(c, a) && Invariant(s, c)
    ensures Invariant(s, Step(c, a))
  {
    StepTimes(c, a);
    match a {
      case Invoke(t, op) =>
        StepExclusive(c, a);
      case Swap(t) => SwapConsistent(s, c, t);
      case Access(t) => AccessConsistent(s, c, t);
      case Unlock(t) => UnlockConsistent(s, c, t);
    }
  }

  lemma {:induction false} ExecutionKeeps<B>(s: Shared<B>, c: System<B>, actions: seq<Action<B>>)
    requires Invariant(s, c) && Runs(c, actions)
    ensures Invariant(s, Execute(c, actions))
    decreases |actions|
  {
    hide Invariant, Step, Enabled;
    if actions != [] {
      StepKeeps(s, c, actions[0]);
      ExecutionKeeps(s, Step(c, actions[0]), actions[1..]);
    }
  }

  /** In every reachable state at most one thread is between lock and unlock. */
  lemma {:induction false} MutualExclusion<B>(c: System<B>, actions: seq<Action<B>>, t: nat, u: nat)
    requires Initial(c) && Runs(c, actions)
    requires t in Execute(c, actions).threads && Execute(c, actions).threads[t].Inside?
    requires u in Execute(c, actions).threads && Execute(c, actions).threads[u].Inside?
    ensures t == u && Execute(c, actions).locked
  {
    hide Runs, Execute, Consistent;
    assert Invariant(c.shared, c) by { InitialInvariant(c); }
    ExecutionKeeps(c.shared, c, actions);
  }

  lemma {:induction false} InitialInvariant<B>(c: System<B>)
    requires Initial(c)
    ensures Invariant(c.shared, c)
  {
  }

  /** The order of the log respects real time: a call that returned before another was made comes first. */
  lemma {:induction false} RealTimeOrder<B>(c: System<B>, actions: seq<Action<B>>, j: nat, k: nat)
    requires Initial(c) && Runs(c, actions)
    requires j < |Execute(c, actions).log| && k < |Execute(c, actions).log| && j != k
    requires var log := Execute(c, actions).log;
             log[j].responded.Some? && log[j].responded.value <= log[k].invoked
    ensures j < k
  {
    hide Runs, Execute, Consistent;
    InitialInvariant(c);
    ExecutionKeeps(c.shared, c, actions);
    var log := Execute(c, actions).log;
    assert log[j].acquired <= log[k].acquired;
  }

  // ----- Linearizability -----

  lemma {:induction false} ReplayIsApply<B>(s: Shared<B>, log: seq<Call<B>>, k: nat)
    requires k <= |log| && Streams.ApplicableHistory(s, Ops(log))
    requires forall i :: 0 <= i < |log| ==> Locking(log[i].op)
    ensures |Ops(log[..k])| == k && Ops(log[..k]) == Ops(log)[..k]
    ensures Streams.ApplicableHistory(s, Ops(log[..k]))
    ensures Replay(s, log[..k]) == Streams.ApplyAll(s, Ops(log[..k])).0
    ensures k < |log| ==> Applicable(Replay(s, log[..k]), log[k].op) &&
                          Alone(log[k].op, Replay(s, log[..k])).1 == Streams.ApplyAll(s, Ops(log)).1[k]
  {
    hide Applicable, Apply, Alone;
    OpsPrefix(log, k);
    HistoryPrefix(s, Ops(log), k);
    if k != 0 {
      ReplayIsApply(s, log, k - 1);
      assert log[..k][..k - 1] == log[..k - 1];
      AloneIsApply(log[k - 1].op, Replay(s, log[..k - 1]));
      assert Ops(log[..k]) == Ops(log[..k - 1]) + [log[k - 1].op];
      HistoryAppend(s, Ops(log[..k - 1]), log[k - 1].op);
    }
    if k < |log| {
      OpsPrefix(log, k + 1);
      HistoryPrefix(s, Ops(log), k + 1);
      assert log[..k + 1][..k] == log[..k];
      assert Ops(log[..k + 1]) == Ops(log[..k]) + [log[k].op];
      HistoryAppend(s, Ops(log[..k]), log[k].op);
      AloneIsApply(log[k].op, Replay(s, log[..k]));
    }
  }

  lemma {:induction false} OpsPrefix<B>(log: seq<Call<B>>, k: nat)
    requires k <= |log|
    ensures Ops(log[..k]) == Ops(log)[..k]
    decreases |log|
  {
    if k < |log| {
      var front := log[..|log| - 1];
      OpsPrefix(front, k);
      assert front[..k] == log[..k];
    } else {
      assert log[..k] == log;
    }
  }

  lemma {:induction false} HistoryPrefix<B>(s: Shared<B>, h: seq<Op<B>>, k: nat)
    requires k <= |h| && Streams.ApplicableHistory(s, h)
    ensures Streams.ApplicableHistory(s, h[..k])
    ensures Streams.ApplyAll(s, h[..k]).1 == Streams.ApplyAll(s, h).1[..k]
    decreases |h|
  {
    hide Applicable, Apply;
    if k != 0 {
      assert h[..k][0] == h[0] && h[..k][1..] == h[1..][..k - 1];
      HistoryPrefix(Apply(s, h[0]).0, h[1..], k - 1);
    }
  }

  lemma {:induction false} HistoryAppend<B>(s: Shared<B>, h: seq<Op<B>>, op: Op<B>)
    requires Streams.ApplicableHistory(s, h + [op])
    ensures Streams.ApplicableHistory(s, h) && Applicable(Streams.ApplyAll(s, h).0, op)
    ensures Streams.ApplyAll(s, h + [op]).0 == Apply(Streams.ApplyAll(s, h).0, op).0
    ensures Streams.ApplyAll(s, h + [op]).1 ==
            Streams.ApplyAll(s, h).1 + [Apply(Streams.ApplyAll(s, h).0, op).1]
    decreases |h|
  {
    hide Applicable, Apply;
    if h == [] {
      assert (h + [op])[1..] == [];
    } else {
      assert (h + [op])[0] == h[0] && (h + [op])[1..] == h[1..] + [op];
      HistoryAppend(Apply(s, h[0]).0, h[1..], op);
    }
  }

  /**
   Linearizability. Whatever the interleaving, every call that has returned has the result of the
   sequential run of the calls in lock order, and whenever the lock is free shared memory is the final
   state of that run.
   */
  lemma {:induction false} Linearizable<B>(c: System<B>, actions: seq<Action<B>>)
    requires Initial(c) && Runs(c, actions)
    requires Streams.ApplicableHistory(c.shared, Ops(Execute(c, actions).log))
    ensures var d := Execute(c, actions);
            var (s, results) := Streams.ApplyAll(c.shared, Ops(d.log));
            && (!d.locked ==> d.shared == s)
            && (forall k :: 0 <= k < |d.log| && d.log[k].responded.Some? ==> d.log[k].result == results[k])
            && (forall k :: 0 <= k < |d.log| - (if d.locked then 1 else 0) ==> d.log[k].responded.Some?)
  {
    hide Runs, Execute, Alone, Replay, Streams.ApplyAll, Streams.ApplicableHistory, Finish;
    InitialInvariant(c);
    ExecutionKeeps(c.shared, c, actions);
    var d := Execute(c, actions);
    assert d.log[..|d.log|] == d.log;
    ReplayIsApply(c.shared, d.log, |d.log|);
    forall k | 0 <= k < |d.log| && d.log[k].responded.Some?
      ensures d.log[k].result == Streams.ApplyAll(c.shared, Ops(d.log)).1[k]
    {
      ReplayIsApply(c.shared, d.log, k);
      assert Answered(c.shared, d.log, k);
    }
    forall k | 0 <= k < |d.log| - (if d.locked then 1 else 0)
      ensures d.log[k].responded.Some?
    {
      assert Answered(c.shared, d.log, k);
    }
  }

  /**
   Together with the refinement: whatever the interleaving, concurrent callers see the abstract generators.
   Every call that has returned has the result of the abstract run in lock order, and free-lock memory
   represents the machine at its end.
   */
  lemma {:induction false} ThreadsSeeGenerators<B>(c: System<B>, actions: seq<Action<B>>, m: Machine<B>)
    requires Initial(c) && Runs(c, actions) && Represents(c.shared, m)
    requires Streams.LegalHistory(m, Ops(Execute(c, actions).log))
    ensures var d := Execute(c, actions);
            var (m', results) := Streams.PerformAll(m, Ops(d.log));
            && (!d.locked ==> Represents(d.shared, m'))
            && (forall k :: 0 <= k < |d.log| && d.log[k].responded.Some? ==> d.log[k].result == results[k])
  {
    hide Represents, Streams.LegalHistory, Streams.PerformAll, Streams.ApplyAll, Streams.ApplicableHistory, Runs, Execute;
    Streams.HistoryRefines(c.shared, m, Ops(Execute(c, actions).log));
    Linearizable(c, actions);
  }

  // ----- Every path that locks also unlocks -----

  /** From every reachable state the thread holding the lock can, by its own steps alone, release it. */
  lemma {:induction false} HolderCanRelease<B>(s: Shared<B>, c: System<B>) returns (actions: seq<Action<B>>)
    requires Invariant(s, c) && c.locked
    ensures Runs(c, actions) && !Execute(c, actions).locked
    ensures forall a :: a in actions ==> a.tid == c.log[|c.log| - 1].tid
    decreases Rank(c.threads[c.log[|c.log| - 1].tid].l.pc, c.threads[c.log[|c.log| - 1].tid].l.reseeded),
              Remaining(c.threads[c.log[|c.log| - 1].tid].l)
  {
    hide Micro, Rank, Remaining, LogTimes;
    var t := c.log[|c.log| - 1].tid;
    var l := c.threads[t].l;
    if l.pc == Done {
      actions := [Unlock(t)];
      assert actions[1..] == [];
    } else {
      var d := Step(c, Access(t));
      StepKeeps(s, c, Access(t));
      MicroDecreases(l, c.shared);
      assert d.threads[t].l == Micro(l, c.shared).0;
      var rest := HolderCanRelease(s, d);
      actions := [Access(t)] + rest;
      assert actions[1..] == rest;
    }
  }

  /** In every reachable state in which the lock is held, its holder can. */
  lemma {:induction false} LockIsReleasable<B>(c: System<B>, actions: seq<Action<B>>) returns (more: seq<Action<B>>)
    requires Initial(c) && Runs(c, actions) && Execute(c, actions).locked
    ensures var d := Execute(c, actions);
            && d.log != [] && d.log[|d.log| - 1].tid in d.threads && d.threads[d.log[|d.log| - 1].tid].Inside?
            && Runs(d, more) && !Execute(d, more).locked
            && forall a :: a in more ==> a.tid == d.log[|d.log| - 1].tid
  {
    hide Runs, Execute, Consistent, LogTimes;
    InitialInvariant(c);
    ExecutionKeeps(c.shared, c, actions);
    more := HolderCanRelease(c.shared, Execute(c, actions));
  }

  // ----- Every access stays inside its buffer -----

  /** If the call that holds the lock was applicable when it got it, its thread has only accesses in bounds left. */
  predicate HolderFits<B>(s: Shared<B>, c: System<B>)
    requires Exclusive(c)
  {
    c.locked ==>
      var call := c.log[|c.log| - 1];
      Applicable(Replay(s, c.log[..|c.log| - 1]), call.op) ==> Fits(c.threads[call.tid].l, c.shared)
  }

  lemma {:induction false} StepKeepsFits<B>(s: Shared<B>, c: System<B>, a: Action<B>)
    requires Enabled(c, a) && Invariant(s, c) && HolderFits(s, c)
    ensures Exclusive(Step(c, a)) && HolderFits(s, Step(c, a))
  {
    hide Micro, Fits, Applicable, Replay, Finish, Alone, Start, InBounds, LogTimes;
    StepExclusive(c, a);
    var d := Step(c, a);
    match a {
      case Invoke(t, op) =>
      case Swap(t) =>
        if !c.locked {
          assert d.log[..|d.log| - 1] == c.log;
          var op := c.threads[t].op;
          if Applicable(c.shared, op) {
            StartFits(op, c.shared);
          }
        }
      case Access(t) =>
        if Fits(c.threads[t].l, c.shared) {
          MicroFits(c.threads[t].l, c.shared);
        }
      case Unlock(t) =>
    }
  }

  lemma {:induction false} ExecutionKeepsFits<B>(s: Shared<B>, c: System<B>, actions: seq<Action<B>>)
    requires Invariant(s, c) && HolderFits(s, c) && Runs(c, actions)
    ensures Invariant(s, Execute(c, actions)) && HolderFits(s, Execute(c, actions))
    decreases |actions|
  {
    hide Step, Enabled, Consistent, LogTimes, HolderFits, Exclusive;
    if actions != [] {
      StepKeeps(s, c, actions[0]);
      StepKeepsFits(s, c, actions[0]);
      ExecutionKeepsFits(s, Step(c, actions[0]), actions[1..]);
    }
  }

  /**
   Memory safety under interleaving: in every reachable state the next access of a thread that holds the
   lock falls into the buffer it is meant for, provided the calls so far, in lock order, were applicable.
   */
  lemma {:induction false} AccessesInBounds<B>(c: System<B>, actions: seq<Action<B>>, t: nat)
    requires Initial(c) && Runs(c, actions)
    requires Streams.ApplicableHistory(c.shared, Ops(Execute(c, actions).log))
    ensures var d := Execute(c, actions);
            Enabled(d, Access(t)) ==> InBounds(d.threads[t].l, d.shared)
  {
    hide Runs, Execute, Consistent, LogTimes, InBounds, Fits, Applicable, Replay, Alone, Streams.ApplicableHistory, Streams.ApplyAll;
    InitialInvariant(c);
    ExecutionKeepsFits(c.shared, c, actions);
    var d := Execute(c, actions);
    if Enabled(d, Access(t)) {
      ReplayIsApply(c.shared, d.log, |d.log| - 1);
      MicroFits(d.threads[t].l, d.shared);
    }
  }
}
