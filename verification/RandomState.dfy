/**
 The shared state of random, srandom, initstate and setstate as one value, the four operations on it,
 and the abstract machine they implement: a map from buffers to generators, one of them current.
 B is the type of state buffers (their addresses).
 */
module RandomState {
  import opened Bits
  import opened Lagged

  datatype Option<+T> = None | Some(value: T)

  /** RANDOM_INIT, RAND_N, RAND_I, RAND_J, RAND_X (None while null) and the contents of all buffers. */
  datatype Shared<!B> = Shared(home: B, n: nat, i: nat, j: nat, x: Option<B>, mem: map<B, seq<nat>>)

  datatype Op<+B> = Random | Srandom(seed: nat) | Initstate(seed: nat, state: B, size: nat) | Setstate(state: B)

  datatype Result<+B> = Unit | Number(value: nat) | Null | Old(state: B)

  // ----- The operations -----

  /** The buffer x_ptr finds. */
  function Active<B>(s: Shared<B>): B {
    if s.x.Some? then s.x.value else s.home
  }

  /** The accesses the operations make stay inside the active buffer. */
  predicate Safe<B>(s: Shared<B>) {
    && Active(s) in s.mem
    && var size := |s.mem[Active(s)]|;
      2 <= size && s.n < size && (s.n != 0 ==> s.i < s.n && s.j < s.n)
  }

  function Header(n: nat, i: nat, j: nat): nat {
    Or(Or(Shl(n, 16) % U32, Shl(i, 8)), j)
  }

  function Store(m: seq<nat>, k: nat, v: nat): seq<nat>
    requires k < |m|
  {
    m[k := v]
  }

  function SaveState<B>(s: Shared<B>): Shared<B>
    requires Active(s) in s.mem && 0 < |s.mem[Active(s)]|
  {
    var b := Active(s);
    s.(x := Some(b), mem := s.mem[b := Store(s.mem[b], 0, Header(s.n, s.i, s.j))])
  }

  function LoadState<B>(s: Shared<B>, b: B): Shared<B>
    requires b in s.mem && 0 < |s.mem[b]|
  {
    var header := s.mem[b][0];
    s.(x := Some(b), n := Shr(header, 16), i := And(Shr(header, 8), 0xff), j := And(header, 0xff))
  }

  function SrandomLocked<B>(s: Shared<B>, seed: nat): Shared<B>
    requires Active(s) in s.mem && 2 <= |s.mem[Active(s)]| && s.n < |s.mem[Active(s)]|
  {
    var b := Active(s);
    if s.n == 0 then
      s.(x := Some(b), mem := s.mem[b := Store(s.mem[b], 1, seed)])
    else
      s.(x := Some(b), i := Separation(s.n), j := 0,
         mem := s.mem[b := [s.mem[b][0]] + Seeded(s.n, seed).words + s.mem[b][s.n + 1..]])
  }

  const DEGREES: set<nat> := {0, 7, 15, 31, 63}

  /** The degree initstate picks for a buffer of `size` bytes: the largest whose words and header fit. */
  function Degree(size: nat): (n: nat)
    ensures n in DEGREES
    ensures 8 <= size ==> 4 * (n + 1) <= size
    ensures forall k :: k in DEGREES && 4 * (k + 1) <= size ==> k <= n
  {
    if size < 32 then 0 else if size < 64 then 7 else if size < 128 then 15 else if size < 256 then 31 else 63
  }

  function RandomOp<B>(s: Shared<B>): (Shared<B>, nat)
    requires Safe(s)
  {
    var b := Active(s);
    var m := s.mem[b];
    if s.n == 0 then
      (s.(x := Some(b), mem := s.mem[b := Store(m, 1, Lcg31(m[1]))]), Lcg31(m[1]))
    else
      var v := (m[1 + s.i] + m[1 + s.j]) % U32;
      (s.(x := Some(b),
          i := if s.i + 1 == s.n then 0 else s.i + 1,
          j := if s.j + 1 == s.n then 0 else s.j + 1,
          mem := s.mem[b := Store(m, 1 + s.i, v)]),
       v / 2)
  }

  function InitstateOp<B>(s: Shared<B>, seed: nat, b: B, size: nat): Shared<B>
    requires Safe(s) && b in s.mem && 8 <= size <= 4 * |s.mem[b]|
  {
    var s1 := SaveState(s);
    SaveState(SrandomLocked(s1.(n := Degree(size), x := Some(b)), seed))
  }

  function SetstateOp<B>(s: Shared<B>, b: B): Shared<B>
    requires Safe(s) && b in s.mem && 0 < |s.mem[b]|
  {
    LoadState(SaveState(s), b)
  }

  /** What the memory safety of an operation asks for. */
  predicate Applicable<B>(s: Shared<B>, op: Op<B>) {
    && Safe(s)
    && match op
      case Initstate(_, b, size) => size < 8 || (b in s.mem && size <= 4 * |s.mem[b]|)
      case Setstate(b) => b in s.mem && 0 < |s.mem[b]|
      case _ => true
  }

  function Apply<B>(s: Shared<B>, op: Op<B>): (Shared<B>, Result<B>)
    requires Applicable(s, op)
  {
    match op
    case Random => (RandomOp(s).0, Number(RandomOp(s).1))
    case Srandom(seed) => (SrandomLocked(s, seed), Unit)
    case Initstate(seed, b, size) => if size < 8 then (s, Null) else (InitstateOp(s, seed, b, size), Old(Active(s)))
    case Setstate(b) => (SetstateOp(s, b), Old(Active(s)))
  }

  // ----- The packed header word -----

  lemma {:induction false} HeaderValue(n: nat, i: nat, j: nat)
    requires n < 0x1_0000 && i < 0x100 && j < 0x100
    ensures Header(n, i, j) == n * 0x1_0000 + i * 0x100 + j
  {
    hide Or, Pow2;
    Pow2Values();
    OrDisjoint(i, j, 8);
    OrDisjoint(n, i * 0x100 + j, 16);
    OrAssociates(Shl(n, 16), Shl(i, 8), j);
  }

  lemma {:induction false} Fields(h: nat, n: nat, i: nat, j: nat)
    requires i < 0x100 && j < 0x100 && h == n * 0x1_0000 + i * 0x100 + j
    ensures h / 0x1_0000 == n && (h / 0x100) % 0x100 == i && h % 0x100 == j
  {
  }

  lemma {:induction false} ShrBytes(h: nat)
    ensures Shr(h, 16) == h / 0x1_0000 && Shr(h, 8) == h / 0x100
  {
    Pow2Values();
  }

  /** (n << 16) | (i << 8) | j comes apart again. */
  lemma {:induction false} HeaderRoundTrip(n: nat, i: nat, j: nat)
    requires n < 0x1_0000 && i < 0x100 && j < 0x100
    ensures Shr(Header(n, i, j), 16) == n
    ensures And(Shr(Header(n, i, j), 8), 0xff) == i
    ensures And(Header(n, i, j), 0xff) == j
  {
    hide Header, And, Pow2, Shr;
    HeaderValue(n, i, j);
    var h := Header(n, i, j);
    Fields(h, n, i, j);
    ShrBytes(h);
    Pow2Values();
    AndMask(h / 0x100, 8);
    AndMask(h, 8);
  }

  // ----- The abstract machine -----

  /** The generator behind each initialised buffer, the current buffer, and the length of each buffer in words. */
  datatype Machine<!B> = Machine(cur: B, gens: map<B, Gen>, lengths: map<B, nat>)

  predicate Holds(g: Gen, m: seq<nat>) {
    match g
    case Small(x) => 2 <= |m| && m[1] == x
    case Lagged(_, _, words) => |words| < |m| && m[1..|words| + 1] == words
  }

  /** The saved header of a generator that is not current. */
  predicate Saved(g: Gen, header: nat) {
    match g
    case Small(_) => Shr(header, 16) == 0
    case Lagged(i, j, words) =>
      Shr(header, 16) == |words| && And(Shr(header, 8), 0xff) == i && And(header, 0xff) == j
  }

  /** The registers of the current generator; a small one leaves i and j over from its predecessor. */
  predicate Loaded<B>(g: Gen, s: Shared<B>) {
    match g
    case Small(_) => s.n == 0 && s.i < 0x100 && s.j < 0x100
    case Lagged(i, j, words) => s.n == |words| && s.i == i && s.j == j
  }

  predicate Stored<B>(s: Shared<B>, m: Machine<B>, b: B)
    requires b in m.gens
  {
    && b in s.mem
    && Valid(m.gens[b])
    && Holds(m.gens[b], s.mem[b])
    && (b != m.cur ==> Saved(m.gens[b], s.mem[b][0]))
  }

  ghost predicate Represents<B>(s: Shared<B>, m: Machine<B>) {
    && Active(s) == m.cur
    && m.cur in m.gens
    && Loaded(m.gens[m.cur], s)
    && s.mem.Keys == m.lengths.Keys
    && (forall b :: b in s.mem ==> |s.mem[b]| == m.lengths[b])
    && (forall b :: b in m.gens ==> Stored(s, m, b))
  }

  /** What the callers owe: 32-bit seeds, buffers as long as they claim, and setstate only after initstate. */
  predicate Legal<B>(m: Machine<B>, op: Op<B>) {
    match op
    case Random => true
    case Srandom(seed) => seed < U32
    case Initstate(seed, b, size) => seed < U32 && (size < 8 || (b in m.lengths && size <= 4 * m.lengths[b]))
    case Setstate(b) => b in m.gens
  }

  function DegreeOf(g: Gen): nat {
    match g
    case Small(_) => 0
    case Lagged(_, _, words) => |words|
  }

  function Perform<B>(m: Machine<B>, op: Op<B>): (Machine<B>, Result<B>)
    requires m.cur in m.gens && Valid(m.gens[m.cur]) && Legal(m, op)
  {
    match op
    case Random =>
      var (g, v) := Next(m.gens[m.cur]);
      (m.(gens := m.gens[m.cur := g]), Number(v))
    case Srandom(seed) =>
      (m.(gens := m.gens[m.cur := Seeded(DegreeOf(m.gens[m.cur]), seed)]), Unit)
    case Initstate(seed, b, size) =>
      if size < 8 then (m, Null)
      else (m.(cur := b, gens := m.gens[b := Seeded(Degree(size), seed)]), Old(m.cur))
    case Setstate(b) => (m.(cur := b), Old(m.cur))
  }

  // ----- Each operation implements its abstract counterpart -----

  lemma {:induction false} RepresentsSafe<B>(s: Shared<B>, m: Machine<B>)
    requires Represents(s, m)
    ensures Safe(s)
  {
    assert Stored(s, m, m.cur);
  }

  lemma {:induction false} LegalApplicable<B>(s: Shared<B>, m: Machine<B>, op: Op<B>)
    requires Represents(s, m) && Legal(m, op)
    ensures Applicable(s, op) && m.cur in m.gens && Valid(m.gens[m.cur]) && Active(s) == m.cur
  {
    assert Stored(s, m, m.cur);
    if op.Setstate? {
      assert Stored(s, m, op.state);
    }
  }

  /** Changing the current buffer and the registers changes only the current generator. */
  lemma {:induction false} ReplaceCurrent<B>(s: Shared<B>, s': Shared<B>, m: Machine<B>, g: Gen)
    requires Represents(s, m) && Active(s') == m.cur
    requires s'.mem.Keys == s.mem.Keys && |s'.mem[m.cur]| == |s.mem[m.cur]|
    requires forall b :: b in s.mem && b != m.cur ==> s'.mem[b] == s.mem[b]
    requires Valid(g) && Loaded(g, s') && Holds(g, s'.mem[m.cur])
    ensures Represents(s', m.(gens := m.gens[m.cur := g]))
  {
    hide Holds, Saved, Loaded, Valid;
    var m' := m.(gens := m.gens[m.cur := g]);
    forall b | b in m'.gens
      ensures Stored(s', m', b)
    {
      assert Stored(s, m, b);
    }
  }

  lemma {:induction false} RandomRefines<B>(s: Shared<B>, m: Machine<B>)
    requires Represents(s, m) && Safe(s)
    ensures m.cur in m.gens && Valid(m.gens[m.cur])
    ensures Represents(RandomOp(s).0, Perform(m, Random).0)
    ensures Number(RandomOp(s).1) == Perform(m, Random).1
  {
    hide Header, Or, And, Shr, Lcg31;
    assert Stored(s, m, m.cur);
    var g := m.gens[m.cur];
    NextValid(g);
    if g.Lagged? {
      assert s.mem[m.cur][1 + g.i] == g.words[g.i] && s.mem[m.cur][1 + g.j] == g.words[g.j];
    }
    ReplaceCurrent(s, RandomOp(s).0, m, Next(g).0);
  }

  lemma {:induction false} SrandomRefines<B>(s: Shared<B>, m: Machine<B>, seed: nat)
    requires Represents(s, m) && Safe(s) && seed < U32
    ensures m.cur in m.gens && Valid(m.gens[m.cur])
    ensures Represents(SrandomLocked(s, seed), Perform(m, Srandom(seed)).0)
  {
    hide Seeded;
    assert Stored(s, m, m.cur);
    var n := DegreeOf(m.gens[m.cur]);
    SeededValid(n, seed);
    SeededDegree(n, seed);
    ReplaceCurrent(s, SrandomLocked(s, seed), m, Seeded(n, seed));
  }

  lemma {:induction false} SaveKeepsSizes<B>(s: Shared<B>)
    requires Active(s) in s.mem && 0 < |s.mem[Active(s)]|
    ensures SaveState(s).mem.Keys == s.mem.Keys
    ensures forall b :: b in s.mem ==> |SaveState(s).mem[b]| == |s.mem[b]|
  {
  }

  lemma {:induction false} SrandomKeepsSizes<B>(s: Shared<B>, seed: nat)
    requires Active(s) in s.mem && 2 <= |s.mem[Active(s)]| && s.n < |s.mem[Active(s)]|
    ensures var r := SrandomLocked(s, seed);
            Active(r) == Active(s) && Active(r) in r.mem && |r.mem[Active(r)]| == |s.mem[Active(s)]|
  {
    if s.n != 0 {
      SeededDegree(s.n, seed);
    }
  }

  /** After savestate the current buffer, too, carries a header. */
  lemma {:induction false} SaveStateSaves<B>(s: Shared<B>, m: Machine<B>)
    requires Represents(s, m) && Safe(s)
    ensures Represents(SaveState(s), m) && Safe(SaveState(s))
    ensures forall b :: b in m.gens ==> 0 < |SaveState(s).mem[b]| && Saved(m.gens[b], SaveState(s).mem[b][0])
  {
    hide Header, Or, And, Shr;
    var s' := SaveState(s);
    forall b | b in m.gens
      ensures Stored(s', m, b) && Saved(m.gens[b], s'.mem[b][0])
    {
      assert Stored(s, m, b);
      if b == m.cur {
        HeaderRoundTrip(s.n, s.i, s.j);
      }
    }
  }

  lemma {:induction false} SetstateRefines<B>(s: Shared<B>, m: Machine<B>, b: B)
    requires Represents(s, m) && Safe(s) && b in m.gens
    ensures b in s.mem && 0 < |s.mem[b]|
    ensures Represents(SetstateOp(s, b), Perform(m, Setstate(b)).0)
  {
    hide Header, Or, Shr, And;
    assert Stored(s, m, b) && Stored(s, m, m.cur);
    SaveStateSaves(s, m);
    var s1 := SaveState(s);
    var s', m' := LoadState(s1, b), m.(cur := b);
    AndByte(Shr(s1.mem[b][0], 8));
    AndByte(s1.mem[b][0]);
    forall c | c in m'.gens
      ensures Stored(s', m', c)
    {
      assert Stored(s1, m, c);
    }
  }

  lemma {:induction false} AndByte(x: nat)
    ensures And(x, 0xff) < 0x100
  {
    Pow2Values();
    AndMask(x, 8);
  }

  /** The middle of initstate: a new degree and buffer, seeded, with every other generator saved. */
  lemma {:induction false} AdoptRefines<B>(s: Shared<B>, m: Machine<B>, seed: nat, b: B, n: nat)
    requires Represents(s, m) && Safe(s) && seed < U32 && n in {0, 7, 15, 31, 63}
    requires b in s.mem && 2 <= |s.mem[b]| && n < |s.mem[b]|
    requires forall c :: c in m.gens ==> 0 < |s.mem[c]| && Saved(m.gens[c], s.mem[c][0])
    ensures Represents(SrandomLocked(s.(n := n, x := Some(b)), seed), m.(cur := b, gens := m.gens[b := Seeded(n, seed)]))
  {
    hide Shr, And, Seeded;
    SeededValid(n, seed);
    SeededDegree(n, seed);
    var s', m' := SrandomLocked(s.(n := n, x := Some(b)), seed), m.(cur := b, gens := m.gens[b := Seeded(n, seed)]);
    forall c | c in m'.gens
      ensures Stored(s', m', c)
    {
      if c != b {
        assert Stored(s, m, c);
      }
    }
    assert Stored(s, m, m.cur);
  }

  lemma {:induction false} InitstateRefines<B>(s: Shared<B>, m: Machine<B>, seed: nat, b: B, size: nat)
    requires Represents(s, m) && Safe(s) && seed < U32 && b in s.mem && 8 <= size <= 4 * |s.mem[b]|
    ensures m.cur in m.gens && Valid(m.gens[m.cur])
    ensures Represents(InitstateOp(s, seed, b, size), Perform(m, Initstate(seed, b, size)).0)
  {
    hide Header, Or, Shr, And, Seeded, Represents, Saved, SrandomLocked;
    LegalApplicable(s, m, Random);
    SaveStateSaves(s, m);
    var s1 := SaveState(s);
    AdoptRefines(s1, m, seed, b, Degree(size));
    var s2 := SrandomLocked(s1.(n := Degree(size), x := Some(b)), seed);
    var m' := m.(cur := b, gens := m.gens[b := Seeded(Degree(size), seed)]);
    RepresentsSafe(s2, m');
    SaveStateSaves(s2, m');
  }

  lemma {:induction false} SeededDegree(n: nat, seed: nat)
    ensures DegreeOf(Seeded(n, seed)) == n
    ensures n == 0 ==> Seeded(n, seed) == Small(seed)
    ensures n != 0 ==> Seeded(n, seed) == Lagged(Separation(n), 0, Seeded(n, seed).words)
  {
  }

  /** Every legal operation does to the shared words exactly what the abstract machine says. */
  lemma {:induction false} ApplyRefines<B>(s: Shared<B>, m: Machine<B>, op: Op<B>)
    requires Represents(s, m) && Legal(m, op)
    ensures Applicable(s, op) && m.cur in m.gens && Valid(m.gens[m.cur])
    ensures Represents(Apply(s, op).0, Perform(m, op).0)
    ensures Apply(s, op).1 == Perform(m, op).1
  {
    hide Represents, RandomOp, SrandomLocked, InitstateOp, SetstateOp;
    LegalApplicable(s, m, op);
    match op
    case Random => RandomRefines(s, m);
    case Srandom(seed) => SrandomRefines(s, m, seed);
    case Initstate(seed, b, size) =>
      if 8 <= size {
        InitstateRefines(s, m, seed, b, size);
      }
    case Setstate(b) => SetstateRefines(s, m, b);
  }

  // ----- Laws of the operations themselves -----

  /** initstate and setstate hand back the buffer that was current and make the given one current. */
  lemma {:induction false} OldBufferReturned<B>(s: Shared<B>, op: Op<B>)
    requires Applicable(s, op)
    ensures op.Initstate? && op.size < 8 ==> Apply(s, op) == (s, Null)
    ensures op.Initstate? && 8 <= op.size ==>
              Apply(s, op).1 == Old(Active(s)) && Active(Apply(s, op).0) == op.state && Apply(s, op).0.n == Degree(op.size)
    ensures op.Setstate? ==> Apply(s, op).1 == Old(Active(s)) && Active(Apply(s, op).0) == op.state
  {
    hide Header;
    if op.Initstate? && 8 <= op.size {
      SrandomKeepsSizes(SaveState(s).(n := Degree(op.size), x := Some(op.state)), op.seed);
    }
  }

  /** What srandom and initstate write: the seeded words of the right degree behind the header of the right buffer. */
  lemma {:induction false} SeedingWrites<B>(s: Shared<B>, op: Op<B>)
    requires Applicable(s, op) && (op.Srandom? || (op.Initstate? && 8 <= op.size))
    ensures var s' := Apply(s, op).0;
            var b := if op.Srandom? then Active(s) else op.state;
            var n := if op.Srandom? then s.n else Degree(op.size);
            && Active(s') == b && s'.n == n && b in s'.mem && n + 1 <= |s'.mem[b]| && 2 <= |s'.mem[b]|
            && (n == 0 ==> s'.mem[b][1] == op.seed)
            && (n != 0 ==> Lagged(s'.i, s'.j, s'.mem[b][1..n + 1]) == Seeded(n, op.seed))
  {
    hide Header, Seeded;
    var s1 := if op.Srandom? then s else SaveState(s).(n := Degree(op.size), x := Some(op.state));
    SrandomKeepsSizes(s1, op.seed);
    SeededDegree(s1.n, op.seed);
  }

  /** initstate and setstate leave a header in the buffer they abandon, and initstate one in the new buffer. */
  lemma {:induction false} HeadersWritten<B>(s: Shared<B>, op: Op<B>)
    requires Applicable(s, op) && (op.Setstate? || (op.Initstate? && 8 <= op.size))
    ensures var (s', b) := (Apply(s, op).0, Active(s));
            && (op.Setstate? || op.state != b ==> b in s'.mem && |s'.mem[b]| != 0 && s'.mem[b][0] == Header(s.n, s.i, s.j))
            && (op.Initstate? ==>
                  op.state in s'.mem && |s'.mem[op.state]| != 0 && s'.mem[op.state][0] == Header(s'.n, s'.i, s'.j))
  {
    hide Header, Seeded;
    if op.Initstate? {
      var s1 := SaveState(s).(n := Degree(op.size), x := Some(op.state));
      SrandomKeepsSizes(s1, op.seed);
      SeededDegree(s1.n, op.seed);
    }
  }

  /** The words of buffer x that an operation may change. */
  predicate MayChange<B>(s: Shared<B>, op: Op<B>, x: B, k: nat) {
    match op
    case Initstate(_, b, size) =>
      8 <= size && ((x == Active(s) && k == 0) || (x == b && (k <= 1 || k <= Degree(size))))
    case Setstate(_) => x == Active(s) && k == 0
    case _ => x == Active(s) && 1 <= k && (k == 1 || k <= s.n)
  }

  /** No operation changes any other word of any buffer, initialised or not. */
  lemma {:induction false} OthersUnchanged<B>(s: Shared<B>, op: Op<B>, x: B, k: nat)
    requires Applicable(s, op) && x in s.mem && k < |s.mem[x]|
    ensures var s' := Apply(s, op).0;
            x in s'.mem && |s'.mem[x]| == |s.mem[x]| && (MayChange(s, op, x, k) || s'.mem[x][k] == s.mem[x][k])
  {
    hide Header, Seeded, Lcg31;
    match op
    case Random =>
    case Srandom(seed) => SeededDegree(s.n, seed);
    case Initstate(seed, b, size) =>
      if 8 <= size {
        SeededDegree(Degree(size), seed);
      }
    case Setstate(_) =>
  }

  /** Going to a buffer by setstate and back by what setstate returned restores the registers and every word. */
  lemma {:induction false} SetstateBack<B>(s: Shared<B>, m: Machine<B>, b: B)
    requires Represents(s, m) && b in m.gens
    ensures Applicable(s, Setstate(b))
    ensures var (s1, r1) := Apply(s, Setstate(b));
            r1 == Old(Active(s)) && Applicable(s1, Setstate(Active(s))) &&
            var (s2, r2) := Apply(s1, Setstate(Active(s)));
            && r2 == Old(b)
            && Active(s2) == Active(s) && s2.n == s.n && s2.i == s.i && s2.j == s.j
            && s2.mem.Keys == s.mem.Keys
            && forall x :: x in s.mem ==> |s2.mem[x]| == |s.mem[x]| && forall k :: 1 <= k < |s.mem[x]| ==> s2.mem[x][k] == s.mem[x][k]
  {
    hide Header, And, Shr, Represents, Loaded, Holds, Saved, Valid;
    CurrentSmall(s, m);
    LegalApplicable(s, m, Setstate(b));
    ApplyRefines(s, m, Setstate(b));
    var s1, m1 := Apply(s, Setstate(b)).0, Perform(m, Setstate(b)).0;
    assert m1 == m.(cur := b);
    LegalApplicable(s1, m1, Setstate(Active(s)));
    HeaderRoundTrip(s.n, s.i, s.j);
  }

  lemma {:induction false} CurrentSmall<B>(s: Shared<B>, m: Machine<B>)
    requires Represents(s, m)
    ensures s.n < 0x1_0000 && s.i < 0x100 && s.j < 0x100
  {
    assert Stored(s, m, m.cur);
  }
}
