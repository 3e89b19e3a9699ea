/**
 The bodies of random, srandom, initstate and setstate between lock and unlock, one read or write of
 shared memory at a time, and the proof that a body run without interruption is the operation of
 module RandomState.
 */
module RandomSteps {
  import opened Bits
  import opened Lagged
  import opened RandomState

  /** Program points of random, srandom_locked, savestate and loadstate, and of the two stores of initstate. */
  datatype RandomPc =
    | RX | RXInit | RN | RSmallGet | RSmallPut | RI | RJ | RCount | RGetI | RGetJ | RPut | RPutI | RPutJ
  datatype SeedPc =
    | SX | SXInit | SN | SSmall | SIs31 | SIs7 | SPutI | SPutJ | SBound | SFill | SOddGet | SOddPut
  datatype SavePc = VX | VXInit | VN | VI | VJ | VPut
  datatype AdoptPc = IPutN | IPutX
  datatype LoadPc = LPutX | LHeader | LPutN | LPutI | LPutJ

  datatype Pc = R(r: RandomPc) | S(s: SeedPc) | V(v: SavePc) | I(i: AdoptPc) | L(l: LoadPc) | Done

  /** A thread's own variables. `reseeded` tells the second savestate of initstate from the first. */
  datatype Local<!B> = Local(op: Op<B>, pc: Pc, reseeded: bool, x: B, n: nat, i: nat, j: nat,
                             k: nat, v: nat, w: nat, result: Result<B>)

  function Start<B>(op: Op<B>, x: B): Local<B> {
    var pc := match op
      case Random => R(RX)
      case Srandom(_) => S(SX)
      case Initstate(_, _, _) => V(VX)
      case Setstate(_) => V(VX);
    Local(op, pc, false, x, 0, 0, 0, 0, 0, 0, Unit)
  }

  function Peek<B>(s: Shared<B>, b: B, k: nat): nat {
    if b in s.mem && k < |s.mem[b]| then s.mem[b][k] else 0
  }

  function Poke<B>(s: Shared<B>, b: B, k: nat, v: nat): Shared<B> {
    if b in s.mem && k < |s.mem[b]| then s.(mem := s.mem[b := Store(s.mem[b], k, v)]) else s
  }

  function Seed<B>(op: Op<B>): nat {
    if op.Srandom? || op.Initstate? then op.seed else 0
  }

  /** Reading RAND_X: on null, the next access initialises it. */
  function ReadX<B>(l: Local<B>, s: Shared<B>, init: Pc, next: Pc): Local<B> {
    if s.x.Some? then l.(x := s.x.value, pc := next) else l.(x := s.home, pc := init)
  }

  function AfterSave<B>(l: Local<B>): Local<B> {
    match l.op
    case Initstate(_, _, _) => if l.reseeded then l.(pc := Done) else l.(pc := I(IPutN), result := Old(l.x))
    case Setstate(_) => l.(pc := L(LPutX), result := Old(l.x))
    case _ => l.(pc := Done)
  }

  function AfterSeed<B>(l: Local<B>): Local<B> {
    if l.op.Initstate? then l.(pc := V(VX), reseeded := true) else l.(pc := Done)
  }

  /** One access of random. */
  function RandomStep<B>(l: Local<B>, s: Shared<B>, pc: RandomPc): (Local<B>, Shared<B>) {
    match pc
    case RX => (ReadX(l, s, R(RXInit), R(RN)), s)
    case RXInit => (l.(pc := R(RN)), s.(x := Some(l.x)))
    case RN => (l.(pc := if s.n == 0 then R(RSmallGet) else R(RI)), s)
    case RSmallGet => (l.(v := Lcg31(Peek(s, l.x, 1)), pc := R(RSmallPut)), s)
    case RSmallPut => (l.(result := Number(l.v), pc := Done), Poke(s, l.x, 1, l.v))
    case RI => (l.(i := s.i, pc := R(RJ)), s)
    case RJ => (l.(j := s.j, pc := R(RCount)), s)
    case RCount => (l.(n := s.n, pc := R(RGetI)), s)
    case RGetI => (l.(v := Peek(s, l.x, 1 + l.i), pc := R(RGetJ)), s)
    case RGetJ => (l.(w := (l.v + Peek(s, l.x, 1 + l.j)) % U32, pc := R(RPut)), s)
    case RPut => (l.(pc := R(RPutI)), Poke(s, l.x, 1 + l.i, l.w))
    case RPutI => (l.(pc := R(RPutJ)), s.(i := if l.i + 1 == l.n then 0 else l.i + 1))
    case RPutJ => (l.(result := Number(l.w / 2), pc := Done), s.(j := if l.j + 1 == l.n then 0 else l.j + 1))
  }

  /** One access of srandom_locked. SFill is the loop test together with one turn of the loop. */
  function SeedStep<B>(l: Local<B>, s: Shared<B>, pc: SeedPc): (Local<B>, Shared<B>) {
    match pc
    case SX => (ReadX(l, s, S(SXInit), S(SN)), s)
    case SXInit => (l.(pc := S(SN)), s.(x := Some(l.x)))
    case SN => (l.(pc := if s.n == 0 then S(SSmall) else S(SIs31)), s)
    case SSmall => (AfterSeed(l), Poke(s, l.x, 1, Seed(l.op)))
    case SIs31 => (l.(v := 3, pc := if s.n == 31 then S(SPutI) else S(SIs7)), s)
    case SIs7 => (l.(v := if s.n == 7 then 3 else 1, pc := S(SPutI)), s)
    case SPutI => (l.(pc := S(SPutJ)), s.(i := l.v))
    case SPutJ => (l.(pc := S(SBound)), s.(j := 0))
    case SBound => (l.(n := s.n, k := 0, v := Seed(l.op), pc := S(SFill)), s)
    case SFill =>
      if l.k < l.n then
        var v := Lcg64(l.v);
        (l.(k := l.k + 1, v := v), Poke(s, l.x, 1 + l.k, Shr(v, 32)))
      else (l.(pc := S(SOddGet)), s)
    case SOddGet => (l.(w := Peek(s, l.x, 1), pc := S(SOddPut)), s)
    case SOddPut => (AfterSeed(l), Poke(s, l.x, 1, Or(l.w, 1)))
  }

  /** One access of savestate. */
  function SaveStep<B>(l: Local<B>, s: Shared<B>, pc: SavePc): (Local<B>, Shared<B>) {
    match pc
    case VX => (ReadX(l, s, V(VXInit), V(VN)), s)
    case VXInit => (l.(pc := V(VN)), s.(x := Some(l.x)))
    case VN => (l.(n := s.n, pc := V(VI)), s)
    case VI => (l.(i := s.i, pc := V(VJ)), s)
    case VJ => (l.(j := s.j, pc := V(VPut)), s)
    case VPut => (AfterSave(l), Poke(s, l.x, 0, Header(l.n, l.i, l.j)))
  }

  /** One access of initstate between its first savestate and srandom_locked. */
  function AdoptStep<B>(l: Local<B>, s: Shared<B>, pc: AdoptPc): (Local<B>, Shared<B>) {
    match pc
    case IPutN => (l.(pc := I(IPutX)), s.(n := if l.op.Initstate? then Degree(l.op.size) else 0))
    case IPutX => (l.(pc := S(SX)), s.(x := Some(if l.op.Initstate? then l.op.state else l.x)))
  }

  /** One access of loadstate. */
  function LoadStep<B>(l: Local<B>, s: Shared<B>, pc: LoadPc): (Local<B>, Shared<B>) {
    match pc
    case LPutX =>
      var b := if l.op.Setstate? then l.op.state else l.x;
      (l.(x := b, pc := L(LHeader)), s.(x := Some(b)))
    case LHeader => (l.(v := Peek(s, l.x, 0), pc := L(LPutN)), s)
    case LPutN => (l.(pc := L(LPutI)), s.(n := Shr(l.v, 16)))
    case LPutI => (l.(pc := L(LPutJ)), s.(i := And(Shr(l.v, 8), 0xff)))
    case LPutJ => (l.(pc := Done), s.(j := And(l.v, 0xff)))
  }

  /** One access of shared memory, or one loop test. */
  function Micro<B>(l: Local<B>, s: Shared<B>): (Local<B>, Shared<B>) {
    match l.pc
    case R(pc) => RandomStep(l, s, pc)
    case S(pc) => SeedStep(l, s, pc)
    case V(pc) => SaveStep(l, s, pc)
    case I(pc) => AdoptStep(l, s, pc)
    case L(pc) => LoadStep(l, s, pc)
    case Done => (l, s)
  }

  /** How far a program point is from the end of its operation. */
  function Rank(pc: Pc, reseeded: bool): nat {
    match pc
    case R(r) => (match r
                  case RX => 13 case RXInit => 12 case RN => 11 case RI => 8 case RJ => 7 case RCount => 6
                  case RGetI => 5 case RGetJ => 4 case RPut => 3 case RPutI => 2 case RPutJ => 1
                  case RSmallGet => 2 case RSmallPut => 1)
    case S(s) => (match s
                  case SX => 22 case SXInit => 21 case SN => 20 case SSmall => 19 case SIs31 => 18 case SIs7 => 17
                  case SPutI => 16 case SPutJ => 15 case SBound => 14 case SFill => 13 case SOddGet => 12
                  case SOddPut => 11)
    case V(v) => (if reseeded then 0 else 40) +
                 (match v case VX => 6 case VXInit => 5 case VN => 4 case VI => 3 case VJ => 2 case VPut => 1)
    case I(i) => if i == IPutN then 31 else 30
    case L(l) => (match l case LPutX => 35 case LHeader => 34 case LPutN => 33 case LPutI => 32 case LPutJ => 31)
    case Done => 0
  }

  /** Iterations left in the loop of srandom_locked. */
  function Remaining<B>(l: Local<B>): nat {
    if l.pc == S(SFill) && l.k < l.n then l.n - l.k else 0
  }

  predicate WellFormed<B>(l: Local<B>) {
    l.op.Setstate? ==> !l.reseeded
  }

  ghost predicate Nearer<B>(l': Local<B>, l: Local<B>) {
    && l'.op == l.op && WellFormed(l')
    && (Rank(l'.pc, l'.reseeded) < Rank(l.pc, l.reseeded) ||
        (Rank(l'.pc, l'.reseeded) == Rank(l.pc, l.reseeded) && Remaining(l') < Remaining(l)))
  }

  lemma {:induction false} SeedStepDecreases<B>(l: Local<B>, s: Shared<B>)
    requires l.pc.S? && WellFormed(l)
    ensures Nearer(SeedStep(l, s, l.pc.s).0, l)
  {
    hide Lcg64, Shr, Or, Peek, Poke, Seed;
    match l.pc.s {
      case SX => case SXInit => case SN => case SSmall => case SIs31 => case SIs7 =>
      case SPutI => case SPutJ => case SBound => case SFill => case SOddGet => case SOddPut =>
    }
  }

  /** Every access brings the operation nearer to its end, so whoever locks also unlocks. */
  lemma {:induction false} MicroDecreases<B>(l: Local<B>, s: Shared<B>)
    requires l.pc != Done && WellFormed(l)
    ensures Nearer(Micro(l, s).0, l)
  {
    hide Lcg31, Shr, And, Header, Peek, Poke, Degree, SeedStep;
    match l.pc
    case R(_) =>
    case S(_) => SeedStepDecreases(l, s);
    case V(_) =>
    case I(_) =>
    case L(_) =>
  }

  /** Running a thread's remaining accesses without interruption. */
  function Finish<B>(l: Local<B>, s: Shared<B>): (Local<B>, Shared<B>)
    requires WellFormed(l)
    decreases Rank(l.pc, l.reseeded), Remaining(l)
  {
    if l.pc == Done then (l, s) else
      MicroDecreases(l, s);
      var (l', s') := Micro(l, s);
      Finish(l', s')
  }

  /** An operation run alone. */
  function Alone<B>(op: Op<B>, s: Shared<B>): (Shared<B>, Result<B>) {
    var (l, s') := Finish(Start(op, s.home), s);
    (s', l.result)
  }

  // ----- Run alone, each body is its operation -----

  lemma {:induction false} Advance<B>(l: Local<B>, s: Shared<B>) returns (l': Local<B>, s': Shared<B>)
    requires l.pc != Done && WellFormed(l)
    ensures (l', s') == Micro(l, s) && WellFormed(l')
    ensures Finish(l, s) == Finish(l', s')
  {
    MicroDecreases(l, s);
    l', s' := Micro(l, s).0, Micro(l, s).1;
  }

  /** x_ptr, at any of its three call sites. */
  lemma {:induction false} FinishX<B>(l: Local<B>, s: Shared<B>) returns (l': Local<B>, s': Shared<B>)
    requires l.pc in {R(RX), S(SX), V(VX)} && WellFormed(l)
    ensures l' == l.(x := Active(s), pc := if l.pc == R(RX) then R(RN) else if l.pc == S(SX) then S(SN) else V(VN))
    ensures s' == s.(x := Some(Active(s))) && Finish(l, s) == Finish(l', s')
  {
    hide Finish;
    l', s' := Advance(l, s);
    if s.x.None? {
      l', s' := Advance(l', s');
    }
  }

  lemma {:induction false} FinishSave<B>(l: Local<B>, s: Shared<B>) returns (l': Local<B>)
    requires l.pc == V(VX) && WellFormed(l)
    requires Active(s) in s.mem && 0 < |s.mem[Active(s)]|
    ensures l' == AfterSave(l.(x := Active(s), n := s.n, i := s.i, j := s.j))
    ensures Finish(l, s) == Finish(l', SaveState(s))
  {
    hide Finish, Header, RandomStep, SeedStep, AdoptStep, LoadStep;
    var s';
    l', s' := FinishX(l, s);
    l', s' := Advance(l', s');
    l', s' := Advance(l', s');
    l', s' := Advance(l', s');
    l', s' := Advance(l', s');
    assert s' == SaveState(s);
  }

  lemma {:induction false} FinishRandom<B>(l: Local<B>, s: Shared<B>)
    requires l.pc == R(RX) && l.op.Random? && Safe(s)
    ensures Finish(l, s).1 == RandomOp(s).0 && Finish(l, s).0.result == Number(RandomOp(s).1)
  {
    hide Finish, Lcg31, SeedStep, SaveStep, AdoptStep, LoadStep;
    var l', s' := FinishX(l, s);
    if s.n == 0 {
      l', s' := Advance(l', s');
      l', s' := Advance(l', s');
      l', s' := Advance(l', s');
      assert s' == RandomOp(s).0;
    } else {
      l', s' := FinishRandomLagged(l', s');
      assert s' == RandomOp(s).0;
    }
    FinishDone(l', s');
  }

  lemma {:induction false} FinishRandomReads<B>(l: Local<B>, s: Shared<B>) returns (l': Local<B>)
    requires l.pc == R(RN) && l.op.Random? && l.x in s.mem && 0 < s.n < |s.mem[l.x]| && s.i < s.n && s.j < s.n
    ensures l'.pc == R(RPut) && l'.op == l.op && l'.x == l.x && l'.i == s.i && l'.j == s.j && l'.n == s.n
    ensures l'.w == (s.mem[l.x][1 + s.i] + s.mem[l.x][1 + s.j]) % U32
    ensures Finish(l, s) == Finish(l', s)
  {
    hide Finish, SeedStep, SaveStep, AdoptStep, LoadStep;
    var s';
    l', s' := Advance(l, s);
    assert l'.pc == R(RI) && s' == s;
    l', s' := Advance(l', s');
    assert l'.pc == R(RJ) && s' == s;
    l', s' := Advance(l', s');
    assert l'.pc == R(RCount) && s' == s;
    l', s' := Advance(l', s');
    assert l'.pc == R(RGetI) && s' == s;
    l', s' := Advance(l', s');
    assert l'.pc == R(RGetJ) && s' == s;
    l', s' := Advance(l', s');
  }

  lemma {:induction false} FinishRandomLagged<B>(l: Local<B>, s: Shared<B>) returns (l': Local<B>, s': Shared<B>)
    requires l.pc == R(RN) && l.op.Random? && l.x in s.mem && 0 < s.n < |s.mem[l.x]| && s.i < s.n && s.j < s.n
    ensures var m := s.mem[l.x];
            var v := (m[1 + s.i] + m[1 + s.j]) % U32;
            l'.pc == Done && l'.op == l.op && l'.result == Number(v / 2) &&
            s' == s.(i := if s.i + 1 == s.n then 0 else s.i + 1,
                     j := if s.j + 1 == s.n then 0 else s.j + 1,
                     mem := s.mem[l.x := Store(m, 1 + s.i, v)])
    ensures Finish(l, s) == Finish(l', s')
  {
    hide Finish, SeedStep, SaveStep, AdoptStep, LoadStep;
    l' := FinishRandomReads(l, s);
    l', s' := Advance(l', s);
    l', s' := Advance(l', s');
    l', s' := Advance(l', s');
  }

  lemma {:induction false} FinishDone<B>(l: Local<B>, s: Shared<B>)
    requires l.pc == Done && WellFormed(l)
    ensures Finish(l, s) == (l, s)
  {
  }

  /** The loop of srandom_locked, k words done. */
  lemma {:induction false} FinishFill<B>(l: Local<B>, s: Shared<B>) returns (l': Local<B>, s': Shared<B>)
    requires l.pc == S(SFill) && WellFormed(l) && l.k <= l.n && l.x in s.mem && l.n < |s.mem[l.x]|
    ensures l'.pc == S(SOddGet) && l'.op == l.op && l'.x == l.x && l'.reseeded == l.reseeded && l'.result == l.result
    ensures WellFormed(l')
    ensures var m := s.mem[l.x];
            s' == s.(mem := s.mem[l.x := m[..l.k + 1] + SeedWords(l.n - l.k, l.v) + m[l.n + 1..]])
    ensures Finish(l, s) == Finish(l', s')
    decreases l.n - l.k
  {
    hide Finish, Lcg64, Shr, RandomStep, SaveStep, AdoptStep, LoadStep;
    var m := s.mem[l.x];
    if l.k < l.n {
      l', s' := Advance(l, s);
      var m' := s'.mem[l.x];
      l', s' := FinishFill(l', s');
      assert m'[..l.k + 2] == m[..l.k + 1] + [Shr(Lcg64(l.v), 32)];
      assert m'[l.n + 1..] == m[l.n + 1..];
      assert m'[..l.k + 2] + SeedWords(l.n - l.k - 1, Lcg64(l.v)) == m[..l.k + 1] + SeedWords(l.n - l.k, l.v);
    } else {
      l', s' := Advance(l, s);
      assert m == m[..l.k + 1] + [] + m[l.n + 1..];
      assert s == s.(mem := s.mem[l.x := m]);
    }
  }

  lemma {:induction false} FinishSeedHead<B>(l: Local<B>, s: Shared<B>) returns (l': Local<B>, s': Shared<B>)
    requires l.pc == S(SN) && WellFormed(l) && s.n != 0
    ensures l'.pc == S(SFill) && l'.op == l.op && l'.x == l.x && l'.reseeded == l.reseeded && l'.result == l.result
    ensures l'.k == 0 && l'.n == s.n && l'.v == Seed(l.op)
    ensures s' == s.(i := Separation(s.n), j := 0)
    ensures Finish(l, s) == Finish(l', s')
  {
    hide Finish, RandomStep, SaveStep, AdoptStep, LoadStep;
    l', s' := Advance(l, s);
    l', s' := Advance(l', s');
    if s.n != 31 {
      l', s' := Advance(l', s');
    }
    l', s' := Advance(l', s');
    l', s' := Advance(l', s');
    l', s' := Advance(l', s');
  }

  lemma {:induction false} FinishSeed<B>(l: Local<B>, s: Shared<B>) returns (l': Local<B>)
    requires l.pc == S(SX) && (l.op.Srandom? || l.op.Initstate?)
    requires Active(s) in s.mem && 2 <= |s.mem[Active(s)]| && s.n < |s.mem[Active(s)]|
    ensures l'.op == l.op && l'.result == l.result
    ensures if l.op.Initstate? then l'.pc == V(VX) && l'.reseeded else l'.pc == Done
    ensures Finish(l, s) == Finish(l', SrandomLocked(s, Seed(l.op)))
  {
    hide Finish, Or, SeedWords, RandomStep, SaveStep, AdoptStep, LoadStep;
    var s';
    l', s' := FinishX(l, s);
    if s.n == 0 {
      l', s' := Advance(l', s');
      l', s' := Advance(l', s');
      assert s' == SrandomLocked(s, Seed(l.op));
    } else {
      var m, w := s.mem[Active(s)], SeedWords(s.n, Seed(l.op));
      l', s' := FinishSeedHead(l', s');
      l', s' := FinishFill(l', s');
      assert s'.mem[l'.x] == m[..1] + w + m[s.n + 1..];
      l', s' := Advance(l', s');
      l', s' := Advance(l', s');
      assert (m[..1] + w + m[s.n + 1..])[1 := Or(w[0], 1)] == [m[0]] + w[0 := Or(w[0], 1)] + m[s.n + 1..];
      assert s' == SrandomLocked(s, Seed(l.op));
    }
  }

  lemma {:induction false} FinishLoad<B>(l: Local<B>, s: Shared<B>)
    requires l.pc == L(LPutX) && l.op.Setstate? && !l.reseeded && l.op.state in s.mem && 0 < |s.mem[l.op.state]|
    ensures Finish(l, s).1 == LoadState(s, l.op.state) && Finish(l, s).0.result == l.result
  {
    hide Finish, And, Shr, RandomStep, SeedStep, SaveStep, AdoptStep;
    var l', s' := Advance(l, s);
    l', s' := Advance(l', s');
    l', s' := Advance(l', s');
    l', s' := Advance(l', s');
    l', s' := Advance(l', s');
    FinishDone(l', s');
  }

  lemma {:induction false} FinishInit<B>(l: Local<B>, s: Shared<B>)
    requires l.pc == I(IPutN) && l.op.Initstate? && !l.reseeded
    requires l.op.state in s.mem && 8 <= l.op.size <= 4 * |s.mem[l.op.state]|
    ensures Active(s.(n := Degree(l.op.size), x := Some(l.op.state))) in s.mem
    ensures Finish(l, s).0.result == l.result
    ensures var r := SrandomLocked(s.(n := Degree(l.op.size), x := Some(l.op.state)), l.op.seed);
            Active(r) in r.mem && 0 < |r.mem[Active(r)]| && Finish(l, s).1 == SaveState(r)
  {
    hide Finish, SrandomLocked, Header, SaveState, RandomStep, SeedStep, SaveStep, LoadStep;
    var l', s' := Advance(l, s);
    l', s' := Advance(l', s');
    SrandomKeepsSizes(s', l.op.seed);
    var l2 := FinishSeed(l', s');
    var r := SrandomLocked(s', l.op.seed);
    var l3 := FinishSave(l2, r);
    FinishDone(l3, SaveState(r));
  }

  /** An operation run alone does exactly what module RandomState says, access by access. */
  lemma {:induction false} AloneIsApply<B>(op: Op<B>, s: Shared<B>)
    requires Applicable(s, op) && (op.Initstate? ==> 8 <= op.size)
    ensures Alone(op, s) == Apply(s, op)
  {
    hide Finish, SrandomLocked, Header, RandomOp;
    var l := Start(op, s.home);
    match op
    case Random => FinishRandom(l, s);
    case Srandom(seed) =>
      var l' := FinishSeed(l, s);
      FinishDone(l', SrandomLocked(s, seed));
    case Initstate(_, _, _) =>
      var l' := FinishSave(l, s);
      FinishInit(l', SaveState(s));
    case Setstate(_) =>
      var l' := FinishSave(l, s);
      FinishLoad(l', SaveState(s));
  }

  // ----- The accesses stay inside the buffers -----

  /** The word of buffer l.x that the next access reads or writes, if it is one of a buffer. */
  function Touched<B>(l: Local<B>): Option<nat> {
    match l.pc
    case R(pc) =>
      (match pc
       case RSmallGet => Some(1) case RSmallPut => Some(1)
       case RGetI => Some(1 + l.i) case RGetJ => Some(1 + l.j) case RPut => Some(1 + l.i)
       case _ => None)
    case S(pc) =>
      (match pc
       case SSmall => Some(1) case SOddGet => Some(1) case SOddPut => Some(1)
       case SFill => if l.k < l.n then Some(1 + l.k) else None
       case _ => None)
    case V(pc) => if pc == VPut then Some(0) else None
    case L(pc) => if pc == LHeader then Some(0) else None
    case _ => None
  }

  predicate WithinBuffer<B>(s: Shared<B>, b: B, k: nat) {
    b in s.mem && k < |s.mem[b]|
  }

  /** The next access falls into its buffer. */
  predicate InBounds<B>(l: Local<B>, s: Shared<B>) {
    Touched(l).Some? ==> WithinBuffer(s, l.x, Touched(l).value)
  }

  /** Touched leaves nothing out: what an access does to its thread depends on no other word of any buffer, ... */
  lemma {:induction false} ReadsOnlyTouched<B>(l: Local<B>, s: Shared<B>, mem: map<B, seq<nat>>)
    requires Touched(l).Some? ==> Peek(s.(mem := mem), l.x, Touched(l).value) == Peek(s, l.x, Touched(l).value)
    ensures Micro(l, s.(mem := mem)).0 == Micro(l, s).0
  {
    hide Lcg31, Lcg64, Or, And, Shr, Header, Degree, Seed, Peek, Poke;
  }

  /** ... and what it does to memory changes no other. */
  lemma {:induction false} WritesOnlyTouched<B>(l: Local<B>, s: Shared<B>) returns (v: nat)
    ensures var mem := Micro(l, s).1.mem;
            mem == s.mem || (Touched(l).Some? && mem == Poke(s, l.x, Touched(l).value, v).mem)
  {
    hide Lcg31, Lcg64, Or, And, Shr, Header, Degree, Seed, Peek, Poke;
    v := match l.pc
      case R(pc) => if pc == RSmallPut then l.v else l.w
      case S(pc) => if pc == SSmall then Seed(l.op) else if pc == SFill then Shr(Lcg64(l.v), 32) else Or(l.w, 1)
      case _ => Header(l.n, l.i, l.j);
  }

  /** What an operation asks of the buffer it names. */
  predicate Named<B>(op: Op<B>, s: Shared<B>) {
    match op
    case Initstate(_, b, size) => b in s.mem && 8 <= size <= 4 * |s.mem[b]|
    case Setstate(b) => b in s.mem && 0 < |s.mem[b]|
    case _ => true
  }

  /** Buffer b holds the header and n words, and at least one. */
  predicate Room<B>(s: Shared<B>, b: B, n: nat) {
    b in s.mem && 2 <= |s.mem[b]| && n < |s.mem[b]|
  }

  /** The registers and variables of random, from one access to the next. */
  predicate RandomFits<B>(l: Local<B>, s: Shared<B>, pc: RandomPc) {
    match pc
    case RX => Safe(s)
    case RXInit => Safe(s) && Active(s) == l.x
    case RN => Safe(s) && Active(s) == l.x
    case RSmallGet => Room(s, l.x, 0)
    case RSmallPut => Room(s, l.x, 0)
    case RI => Room(s, l.x, s.n) && s.i < s.n && s.j < s.n
    case RJ => Room(s, l.x, s.n) && l.i < s.n && s.j < s.n
    case RCount => Room(s, l.x, s.n) && l.i < s.n && l.j < s.n
    case RGetI => Room(s, l.x, l.i + 1) && Room(s, l.x, l.j + 1)
    case RGetJ => Room(s, l.x, l.i + 1) && Room(s, l.x, l.j + 1)
    case RPut => Room(s, l.x, l.i + 1)
    case _ => true
  }

  /** The same for srandom_locked. */
  predicate SeedFits<B>(l: Local<B>, s: Shared<B>, pc: SeedPc) {
    && (pc != SX ==> Active(s) == l.x)
    && (pc != SX && pc != SXInit ==> s.x.Some?)
    && Room(s, Active(s), if pc == SFill then l.n else if pc in {SSmall, SOddGet, SOddPut} then 0 else s.n)
  }

  /** The invariant of a thread between lock and unlock: nothing it still has to access lies outside a buffer. */
  predicate Fits<B>(l: Local<B>, s: Shared<B>) {
    && Named(l.op, s)
    && match l.pc
      case R(pc) => RandomFits(l, s, pc)
      case S(pc) => SeedFits(l, s, pc)
      case V(pc) => Room(s, Active(s), 0) && (pc != VX ==> Active(s) == l.x)
      case I(pc) => l.op.Initstate? && (pc == IPutX ==> s.n == Degree(l.op.size))
      case L(pc) => l.op.Setstate? && (pc == LHeader ==> l.x == l.op.state)
      case Done => true
  }

  lemma {:induction false} StartFits<B>(op: Op<B>, s: Shared<B>)
    requires Applicable(s, op) && (op.Initstate? ==> 8 <= op.size)
    ensures Fits(Start(op, s.home), s)
  {
  }

  lemma {:induction false} RandomStepFits<B>(l: Local<B>, s: Shared<B>)
    requires l.pc.R? && Fits(l, s)
    ensures InBounds(l, s) && Fits(Micro(l, s).0, Micro(l, s).1)
  {
    hide Lcg31, SeedStep, SaveStep, AdoptStep, LoadStep, SeedFits;
    match l.pc.r {
      case RX => case RXInit => case RN => case RSmallGet => case RSmallPut => case RI => case RJ => case RCount =>
      case RGetI => case RGetJ => case RPut => case RPutI => case RPutJ =>
    }
  }

  lemma {:induction false} SeedStepFits<B>(l: Local<B>, s: Shared<B>)
    requires l.pc.S? && Fits(l, s)
    ensures InBounds(l, s) && Fits(Micro(l, s).0, Micro(l, s).1)
  {
    hide Lcg64, Or, Shr, Seed, RandomStep, SaveStep, AdoptStep, LoadStep, RandomFits;
    match l.pc.s {
      case SX => case SXInit => case SN => case SSmall => case SIs31 => case SIs7 =>
      case SPutI => case SPutJ => case SBound => case SFill => case SOddGet => case SOddPut =>
    }
  }

  lemma {:induction false} OtherStepFits<B>(l: Local<B>, s: Shared<B>)
    requires (l.pc.V? || l.pc.I? || l.pc.L?) && Fits(l, s)
    ensures InBounds(l, s) && Fits(Micro(l, s).0, Micro(l, s).1)
  {
    hide Header, And, Shr, RandomStep, SeedStep, RandomFits;
    match l.pc
    case V(_) =>
    case I(_) =>
    case L(_) =>
  }

  /** Every access falls into its buffer and leaves the thread fit for the next one. */
  lemma {:induction false} MicroFits<B>(l: Local<B>, s: Shared<B>)
    requires l.pc != Done && Fits(l, s)
    ensures InBounds(l, s) && Fits(Micro(l, s).0, Micro(l, s).1)
  {
    hide Micro, InBounds, Fits;
    match l.pc
    case R(_) => RandomStepFits(l, s);
    case S(_) => SeedStepFits(l, s);
    case V(_) => OtherStepFits(l, s);
    case I(_) => OtherStepFits(l, s);
    case L(_) => OtherStepFits(l, s);
  }
}
