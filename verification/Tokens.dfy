/** strsep, strtok_r and strtok: one call each, and whole runs of calls until they return NULL. */
module Tokens {
  import opened Memory
  import opened CString

  // ----- Splitting, joining -----

  /** w cut at every byte of c: k such bytes give k + 1 parts. */
  function Split(w: seq<Byte>, c: seq<Byte>): (parts: seq<seq<Byte>>)
    ensures parts != []
    decreases |w|
  {
    var k := CSpan(w, c);
    if k == |w| then [w] else [w[..k]] + Split(w[k + 1..], c)
  }

  /** The bytes of w that are in c. */
  function Cuts(w: seq<Byte>, c: seq<Byte>): seq<Byte>
    decreases |w|
  {
    var k := CSpan(w, c);
    if k == |w| then [] else [w[k]] + Cuts(w[k + 1..], c)
  }

  /** The parts with the cut bytes put back between them. */
  function Join(parts: seq<seq<Byte>>, cuts: seq<Byte>): seq<Byte>
    requires |parts| == |cuts| + 1
  {
    if cuts == [] then parts[0] else parts[0] + [cuts[0]] + Join(parts[1..], cuts[1..])
  }

  /** parts, none with a byte of c, separated by bytes of c. */
  ghost predicate IsSplit(parts: seq<seq<Byte>>, cuts: seq<Byte>, c: seq<Byte>) {
    && |parts| == |cuts| + 1
    && (forall i, k :: 0 <= i < |parts| && 0 <= k < |parts[i]| ==> parts[i][k] !in c)
    && (forall i :: 0 <= i < |cuts| ==> cuts[i] in c)
  }

  /** Splitting loses nothing. */
  lemma {:induction false} SplitJoin(w: seq<Byte>, c: seq<Byte>)
    ensures IsSplit(Split(w, c), Cuts(w, c), c)
    ensures Join(Split(w, c), Cuts(w, c)) == w
    decreases |w|
  {
    var k := CSpan(w, c);
    CSpanStops(w, c);
    if k < |w| {
      SplitJoin(w[k + 1..], c);
      var parts, cuts := Split(w[k + 1..], c), Cuts(w[k + 1..], c);
      assert Split(w, c)[1..] == parts && Cuts(w, c)[1..] == cuts;
      forall i, j | 0 <= i < |Split(w, c)| && 0 <= j < |Split(w, c)[i]|
        ensures Split(w, c)[i][j] !in c
      {
        if i != 0 {
          assert Split(w, c)[i] == parts[i - 1];
        }
      }
      assert w == w[..k] + [w[k]] + w[k + 1..];
    }
  }

  /** And there is only one way to split. */
  lemma {:induction false} SplitUnique(parts: seq<seq<Byte>>, cuts: seq<Byte>, c: seq<Byte>)
    requires IsSplit(parts, cuts, c)
    ensures Split(Join(parts, cuts), c) == parts && Cuts(Join(parts, cuts), c) == cuts
    decreases |cuts|
  {
    var w := Join(parts, cuts);
    if cuts == [] {
      CSpanAll(w, c);
    } else {
      var rest := Join(parts[1..], cuts[1..]);
      assert forall i :: 0 <= i < |parts[1..]| ==> parts[1..][i] == parts[i + 1];
      SplitUnique(parts[1..], cuts[1..], c);
      CSpanIs(w, c, |parts[0]|);
      assert w[..|parts[0]|] == parts[0] && w[|parts[0]| + 1..] == rest;
    }
  }

  lemma {:induction false} CSpanIs(w: seq<Byte>, c: seq<Byte>, k: nat)
    requires k < |w| && w[k] in c && forall i :: 0 <= i < k ==> w[i] !in c
    ensures CSpan(w, c) == k
  {
    if k != 0 {
      CSpanIs(w[1..], c, k - 1);
    }
  }

  lemma {:induction false} CSpanAll(w: seq<Byte>, c: seq<Byte>)
    requires forall i :: 0 <= i < |w| ==> w[i] !in c
    ensures CSpan(w, c) == |w|
  {
    if w != [] {
      CSpanAll(w[1..], c);
    }
  }

  /** The parts that are not empty. */
  function NonEmpty(parts: seq<seq<Byte>>): seq<seq<Byte>> {
    if parts == [] then [] else (if parts[0] == [] then [] else [parts[0]]) + NonEmpty(parts[1..])
  }

  /** Leading separators only make empty parts. */
  lemma {:induction false} SkipLeading(w: seq<Byte>, c: seq<Byte>)
    ensures NonEmpty(Split(w, c)) == NonEmpty(Split(w[Span(w, c)..], c))
    decreases |w|
  {
    if w != [] && w[0] in c {
      assert Split(w, c) == [w[..0]] + Split(w[1..], c);
      assert Split(w, c)[1..] == Split(w[1..], c);
      SkipLeading(w[1..], c);
      assert w[1..][Span(w[1..], c)..] == w[Span(w, c)..];
    } else {
      assert w[0..] == w;
    }
  }

  // ----- One call -----

  /** The end of the token at s becomes NUL, and the pointer moves behind it; at the end of the string it becomes NULL. */
  function CutStep(m: seq<Byte>, s: nat, c: seq<Byte>): (seq<Byte>, Ptr)
    requires Terminated(m, s)
  {
    StrBytes(m, s);
    var end := s + CSpan(Str(m, s), c);
    if m[end] != 0 then (Put(m, end), At(end + 1)) else (m, Null)
  }

  /** strsep on memory m, the caller's pointer p and separators c: new memory, new pointer, value returned. */
  function StrsepStep(m: seq<Byte>, p: Ptr, c: seq<Byte>): (seq<Byte>, Ptr, Ptr)
    requires p.At? ==> Terminated(m, p.p)
  {
    if p.Null? then (m, Null, Null)
    else
      var (m', p') := CutStep(m, p.p, c);
      (m', p', p)
  }

  function Put(m: seq<Byte>, end: nat): (r: seq<Byte>)
    requires end < |m|
    ensures |r| == |m|
  {
    m[end := 0]
  }

  /** strtok_r with argument s and save pointer p. */
  function StrtokStep(m: seq<Byte>, s: Ptr, p: Ptr, c: seq<Byte>): (seq<Byte>, Ptr, Ptr)
    requires s.At? ==> Terminated(m, s.p)
    requires s.Null? && p.At? ==> Terminated(m, p.p)
  {
    var from := if s.Null? then p else s;
    if from.Null? then (m, p, Null)
    else
      StrBytes(m, from.p);
      var start := from.p + Span(Str(m, from.p), c);
      StrFrom(m, from.p, start - from.p);
      if m[start] == 0 then (m, Null, Null)
      else
        var (m', p') := CutStep(m, start, c);
        (m', p', At(start))
  }

  /** A variable of type char *. */
  class Slot {
    var ptr: Ptr

    constructor (p: Ptr)
      ensures ptr == p
    {
      ptr := p;
    }
  }

  method Cut(a: array<Byte>, s: nat, b: array<Byte>, c: nat, slot: Slot)
    requires Terminated(a[..], s) && Terminated(b[..], c)
    modifies a, slot
    ensures a[..] == CutStep(old(a[..]), s, Str(old(b[..]), c)).0
    ensures slot.ptr == CutStep(old(a[..]), s, Str(old(b[..]), c)).1
  {
    StrBytes(a[..], s);
    var n := Strcspn(a, s, b, c);
    var end := s + n;
    if a[end] != 0 {
      a[end] := 0;
      slot.ptr := At(end + 1);
    } else {
      slot.ptr := Null;
    }
  }

  method Strsep(a: array<Byte>, str_: Slot, b: array<Byte>, c: nat) returns (r: Ptr)
    requires (str_.ptr.At? ==> Terminated(a[..], str_.ptr.p)) && Terminated(b[..], c)
    modifies a, str_
    ensures a[..] == StrsepStep(old(a[..]), old(str_.ptr), Str(old(b[..]), c)).0
    ensures str_.ptr == StrsepStep(old(a[..]), old(str_.ptr), Str(old(b[..]), c)).1
    ensures r == StrsepStep(old(a[..]), old(str_.ptr), Str(old(b[..]), c)).2
    ensures old(str_.ptr) == Null ==> r == Null && str_.ptr == Null && a[..] == old(a[..])
  {
    hide CutStep, Str, Terminated;
    r := str_.ptr;
    if r.At? {
      Cut(a, r.p, b, c, str_);
    }
  }

  method StrtokR(a: array<Byte>, s: Ptr, b: array<Byte>, c: nat, p: Slot) returns (r: Ptr)
    requires (s.At? ==> Terminated(a[..], s.p)) && (s.Null? && p.ptr.At? ==> Terminated(a[..], p.ptr.p))
    requires Terminated(b[..], c)
    modifies a, p
    ensures a[..] == StrtokStep(old(a[..]), s, old(p.ptr), Str(old(b[..]), c)).0
    ensures p.ptr == StrtokStep(old(a[..]), s, old(p.ptr), Str(old(b[..]), c)).1
    ensures r == StrtokStep(old(a[..]), s, old(p.ptr), Str(old(b[..]), c)).2
    ensures s == Null && old(p.ptr) == Null ==> r == Null && p.ptr == Null && a[..] == old(a[..])
  {
    hide CutStep, Str, Terminated, Span;
    var from := s;
    if from.Null? {
      from := p.ptr;
      if from.Null? {
        return Null;
      }
    }
    StrBytes(a[..], from.p);
    var n := Strspn(a, from.p, b, c);
    var start := from.p + n;
    StrFrom(a[..], from.p, n);
    if a[start] == 0 {
      p.ptr := Null;
      return Null;
    }
    Cut(a, start, b, c, p);
    r := At(start);
  }

  /** strtok and the static slot it keeps between calls. */
  class StrtokState {
    var state: Ptr

    constructor ()
      ensures state == Null
    {
      state := Null;
    }

    method Strtok(a: array<Byte>, s: Ptr, b: array<Byte>, c: nat) returns (r: Ptr)
      requires (s.At? ==> Terminated(a[..], s.p)) && (s.Null? && state.At? ==> Terminated(a[..], state.p))
      requires Terminated(b[..], c)
      modifies a, this
      ensures a[..] == StrtokStep(old(a[..]), s, old(state), Str(old(b[..]), c)).0
      ensures state == StrtokStep(old(a[..]), s, old(state), Str(old(b[..]), c)).1
      ensures r == StrtokStep(old(a[..]), s, old(state), Str(old(b[..]), c)).2
      ensures s == Null && old(state) == Null ==> r == Null && state == Null && a[..] == old(a[..])
    {
      var local := new Slot(state);
      r := StrtokR(a, s, b, c, local);
      state := local.ptr;
    }
  }

  // ----- Runs until NULL -----

  /** What is left to scan. */
  function Left(m: seq<Byte>, p: Ptr): nat
    requires p.At? ==> Terminated(m, p.p)
  {
    if p.Null? then 0 else 1 + |Str(m, p.p)|
  }

  /** Behind the NUL just written the rest of the string is as before, and the string before it ends there. */
  lemma {:induction false} CutString(m: seq<Byte>, p: nat, k: nat)
    requires Terminated(m, p) && k < |Str(m, p)|
    ensures p + k < |m|
    ensures Terminated(Put(m, p + k), p + k + 1)
    ensures Str(Put(m, p + k), p + k + 1) == Str(m, p)[k + 1..]
  {
    StrBytes(m, p);
    StrFrom(m, p, k + 1);
    SameStr(m, Put(m, p + k), p + k + 1);
  }

  /** A string depends on its own bytes only. */
  lemma {:induction false} SameStr(m: seq<Byte>, m': seq<Byte>, p: nat)
    requires Terminated(m, p) && |m'| == |m|
    requires forall i :: p <= i <= p + |Str(m, p)| && i < |m| ==> m'[i] == m[i]
    ensures Terminated(m', p) && Str(m', p) == Str(m, p)
  {
    StrBytes(m, p);
    StrIs(m', p, |Str(m, p)|);
  }

  lemma {:induction false} StrsepProgress(m: seq<Byte>, p: Ptr, c: seq<Byte>)
    requires p.At? && Terminated(m, p.p)
    ensures var (m', p', r) := StrsepStep(m, p, c);
            r == p && (p'.At? ==> Terminated(m', p'.p)) && Left(m', p') < Left(m, p)
  {
    StrBytes(m, p.p);
    var k := CSpan(Str(m, p.p), c);
    if m[p.p + k] != 0 {
      CutString(m, p.p, k);
    }
  }

  /** All tokens of a run of strsep, and the memory it leaves. */
  function StrsepRun(m: seq<Byte>, p: Ptr, c: seq<Byte>): (seq<Byte>, seq<nat>)
    requires p.At? ==> Terminated(m, p.p)
    decreases Left(m, p)
  {
    if p.Null? then (m, []) else
      StrsepProgress(m, p, c);
      var (m1, p1, r) := StrsepStep(m, p, c);
      var (m2, tokens) := StrsepRun(m1, p1, c);
      (m2, [r.p] + tokens)
  }

  /** Memory m' is m with every separator among the bytes w at s replaced by NUL, and nothing else. */
  ghost predicate Blanked(m': seq<Byte>, m: seq<Byte>, s: nat, w: seq<Byte>, c: seq<Byte>) {
    |m'| == |m| && s + |w| <= |m| &&
    forall i {:trigger m'[i]} :: 0 <= i < |m| ==>
      m'[i] == if s <= i < s + |w| && w[i - s] in c then 0 else m[i]
  }

  /** The strings at the tokens are the given parts. */
  ghost predicate TokensAre(m: seq<Byte>, tokens: seq<nat>, parts: seq<seq<Byte>>) {
    |tokens| == |parts| &&
    forall i :: 0 <= i < |parts| ==> Terminated(m, tokens[i]) && Str(m, tokens[i]) == parts[i]
  }

  lemma {:induction false} StrsepLast(m: seq<Byte>, s: nat, c: seq<Byte>)
    requires Terminated(m, s) && CSpan(Str(m, s), c) == |Str(m, s)|
    ensures StrsepRun(m, At(s), c) == (m, [s])
  {
    StrBytes(m, s);
    assert StrsepRun(m, Null, c) == (m, []);
    assert [s] + [] == [s];
  }

  lemma {:induction false} StrsepNext(m: seq<Byte>, s: nat, c: seq<Byte>, k: nat)
    requires Terminated(m, s) && CSpan(Str(m, s), c) == k < |Str(m, s)|
    ensures s + k < |m| && Terminated(Put(m, s + k), s + k + 1)
    ensures Str(Put(m, s + k), s + k + 1) == Str(m, s)[k + 1..]
    ensures var (m', tokens) := StrsepRun(Put(m, s + k), At(s + k + 1), c);
            StrsepRun(m, At(s), c) == (m', [s] + tokens)
  {
    StrBytes(m, s);
    CutString(m, s, k);
    StrsepProgress(m, At(s), c);
    assert StrsepStep(m, At(s), c) == (Put(m, s + k), At(s + k + 1), At(s));
  }

  /** In memory that holds w at s, with NUL behind its first k bytes, the first token reads as those bytes. */
  lemma {:induction false} TokenReads(m: seq<Byte>, m': seq<Byte>, s: nat, k: nat)
    requires Terminated(m, s) && k <= |Str(m, s)| && |m'| == |m| && s + k < |m| && m'[s + k] == 0
    requires forall i {:trigger m'[i]} :: s <= i < s + k ==> m'[i] == m[i]
    ensures Terminated(m', s) && Str(m', s) == Str(m, s)[..k]
  {
    StrBytes(m, s);
    StrIs(m', s, k);
    assert m'[s..s + k] == m[s..s + |Str(m, s)|][..k];
  }

  /**
   A run of strsep yields the whole split of the string, in order, and overwrites exactly its separators.
   */
  lemma {:induction false} StrsepSplits(m: seq<Byte>, s: nat, c: seq<Byte>)
    requires Terminated(m, s)
    ensures var (m', tokens) := StrsepRun(m, At(s), c);
            TokensAre(m', tokens, Split(Str(m, s), c)) && Blanked(m', m, s, Str(m, s), c)
    decreases |Str(m, s)|
  {
    hide StrsepRun, Terminated, Str, Blanked, TokensAre, CSpan;
    var w := Str(m, s);
    var k := CSpan(w, c);
    StrBytes(m, s);
    CSpanStops(w, c);
    if k == |w| {
      StrsepLast(m, s, c);
      NothingBlanked(m, s, w, c);
      OneToken(m, s);
    } else {
      var m1 := Put(m, s + k);
      StrsepNext(m, s, c, k);
      StrsepSplits(m1, s + k + 1, c);
      var (m', tokens) := StrsepRun(m1, At(s + k + 1), c);
      BlankedStep(m, m1, m', s, w, c, k);
      TokenReads(m, m', s, k);
      FirstToken(m', s, w[..k], tokens, Split(w[k + 1..], c));
    }
  }

  lemma {:induction false} NothingBlanked(m: seq<Byte>, s: nat, w: seq<Byte>, c: seq<Byte>)
    requires s + |w| <= |m| && forall i :: 0 <= i < |w| ==> w[i] !in c
    ensures Blanked(m, m, s, w, c)
  {
  }

  lemma {:induction false} OneToken(m: seq<Byte>, s: nat)
    requires Terminated(m, s)
    ensures TokensAre(m, [s], [Str(m, s)])
  {
  }

  lemma {:induction false} FirstToken(m: seq<Byte>, s: nat, part: seq<Byte>, tokens: seq<nat>, parts: seq<seq<Byte>>)
    requires TokensAre(m, tokens, parts) && Terminated(m, s) && Str(m, s) == part
    ensures TokensAre(m, [s] + tokens, [part] + parts)
  {
  }

  lemma {:induction false} BlankedStep(m: seq<Byte>, m1: seq<Byte>, m': seq<Byte>, s: nat, w: seq<Byte>, c: seq<Byte>, k: nat)
    requires k < |w| && s + |w| <= |m| && m1 == m[s + k := 0] && w[k] in c
    requires forall i :: 0 <= i < k ==> w[i] !in c
    requires Blanked(m', m1, s + k + 1, w[k + 1..], c)
    ensures Blanked(m', m, s, w, c) && |m'| == |m|
    ensures m'[s + k] == 0 && forall i {:trigger m'[i]} :: s <= i < s + k ==> m'[i] == m[i]
  {
    forall i | 0 <= i < |m|
      ensures m'[i] == if s <= i < s + |w| && w[i - s] in c then 0 else m[i]
    {
      if s + k + 1 <= i < s + |w| {
        assert w[k + 1..][i - (s + k + 1)] == w[i - s];
      }
    }
  }

  /** The number of tokens is one more than the number of separators, and the original can be put back together. */
  lemma {:induction false} StrsepRoundTrip(m: seq<Byte>, s: nat, c: seq<Byte>)
    requires Terminated(m, s)
    ensures var (m', tokens) := StrsepRun(m, At(s), c);
            var cuts := Cuts(Str(m, s), c);
            && |tokens| == |cuts| + 1
            && (forall i :: 0 <= i < |tokens| ==> Terminated(m', tokens[i]))
            && Join(seq(|tokens|, i requires 0 <= i < |tokens| && Terminated(m', tokens[i]) => Str(m', tokens[i])), cuts)
               == Str(m, s)
  {
    StrsepSplits(m, s, c);
    SplitJoin(Str(m, s), c);
    var (m', tokens) := StrsepRun(m, At(s), c);
    assert seq(|tokens|, i requires 0 <= i < |tokens| && Terminated(m', tokens[i]) => Str(m', tokens[i]))
        == Split(Str(m, s), c);
  }

  // ----- Runs of strtok_r -----

  lemma {:induction false} StrtokProgress(m: seq<Byte>, p: Ptr, c: seq<Byte>)
    requires p.At? ==> Terminated(m, p.p)
    ensures var (m', p', r) := StrtokStep(m, Null, p, c);
            (p'.At? ==> Terminated(m', p'.p)) && (r.At? ==> Left(m', p') < Left(m, p)) &&
            (r.Null? ==> p'.Null? && m' == m)
  {
    hide Terminated, Str, Span, CSpan, StrtokStep;
    if p.At? {
      var j, k := StrtokCall(m, p.p, c);
      if j + k < |Str(m, p.p)| {
        CutString(m, p.p, j + k);
      }
    } else {
      NullStep(m, c);
    }
  }

  /** All tokens of a run of strtok_r with save pointer p, and the memory it leaves. */
  function StrtokRun(m: seq<Byte>, p: Ptr, c: seq<Byte>): (seq<Byte>, seq<nat>)
    requires p.At? ==> Terminated(m, p.p)
    decreases Left(m, p)
  {
    StrtokProgress(m, p, c);
    var (m1, p1, r) := StrtokStep(m, Null, p, c);
    if r.Null? then (m1, []) else
      var (m2, tokens) := StrtokRun(m1, p1, c);
      (m2, [r.p] + tokens)
  }

  /** The first call, which passes the string, is like a later one with the string as save pointer. */
  lemma {:induction false} FirstCall(m: seq<Byte>, s: nat, p: Ptr, c: seq<Byte>)
    requires Terminated(m, s)
    ensures StrtokStep(m, At(s), p, c) == StrtokStep(m, Null, At(s), c)
  {
  }

  /** Memory m' is m but for some separators among the bytes w at s, now NUL. */
  ghost predicate PartlyBlanked(m': seq<Byte>, m: seq<Byte>, s: nat, w: seq<Byte>, c: seq<Byte>) {
    |m'| == |m| && s + |w| <= |m| &&
    forall i {:trigger m'[i]} :: 0 <= i < |m| ==>
      m'[i] == m[i] || (s <= i < s + |w| && w[i - s] in c && m'[i] == 0)
  }

  /** Where a call of strtok_r finds its token: after j separators, k bytes long. */
  lemma {:induction false} StrtokCall(m: seq<Byte>, s: nat, c: seq<Byte>) returns (j: nat, k: nat)
    requires Terminated(m, s)
    ensures var w := Str(m, s);
            j == Span(w, c) && j <= |w| && k == CSpan(w[j..], c) && (j < |w| ==> 0 < k <= |w| - j)
    ensures s + |Str(m, s)| < |m|
    ensures j == |Str(m, s)| ==> StrtokStep(m, Null, At(s), c) == (m, Null, Null)
    ensures j < |Str(m, s)| == j + k ==> StrtokStep(m, Null, At(s), c) == (m, Null, At(s + j))
    ensures j + k < |Str(m, s)| && 0 < k ==>
              StrtokStep(m, Null, At(s), c) == (Put(m, s + j + k), At(s + j + k + 1), At(s + j))
  {
    hide Terminated, Str, Span, CSpan;
    var w := Str(m, s);
    j := Span(w, c);
    k := CSpan(w[j..], c);
    StrBytes(m, s);
    SpanStops(w, c);
    StrFrom(m, s, j);
    StrBytes(m, s + j);
    if j < |w| {
      assert w[j..][0] == w[j];
      CSpanPositive(w[j..], c);
    }
  }

  lemma {:induction false} CSpanPositive(v: seq<Byte>, c: seq<Byte>)
    requires v != [] && v[0] !in c
    ensures 0 < CSpan(v, c)
  {
  }

  lemma {:induction false} StrtokUnfold(m: seq<Byte>, p: Ptr, c: seq<Byte>)
    requires p.At? ==> Terminated(m, p.p)
    ensures var (m1, p1, r) := StrtokStep(m, Null, p, c);
            (p1.At? ==> Terminated(m1, p1.p)) &&
            StrtokRun(m, p, c) == if r.Null? then (m1, []) else (StrtokRun(m1, p1, c).0, [r.p] + StrtokRun(m1, p1, c).1)
  {
    hide StrtokStep, Terminated;
    StrtokProgress(m, p, c);
  }

  /** The run from s: nothing, one last token, or a token and the run from behind it. */
  lemma {:induction false} StrtokNext(m: seq<Byte>, s: nat, c: seq<Byte>) returns (j: nat, k: nat)
    requires Terminated(m, s)
    ensures var w := Str(m, s);
            j == Span(w, c) && j <= |w| && k == CSpan(w[j..], c) && (j < |w| ==> 0 < k <= |w| - j)
    ensures s + |Str(m, s)| < |m|
    ensures j == |Str(m, s)| ==> StrtokRun(m, At(s), c) == (m, [])
    ensures j < |Str(m, s)| == j + k ==> StrtokRun(m, At(s), c) == (m, [s + j])
    ensures j + k < |Str(m, s)| && 0 < k ==>
              var m1, p := Put(m, s + j + k), s + j + k + 1;
              Terminated(m1, p) && Str(m1, p) == Str(m, s)[j + k + 1..] &&
              StrtokRun(m, At(s), c) == (StrtokRun(m1, At(p), c).0, [s + j] + StrtokRun(m1, At(p), c).1)
  {
    hide Terminated, Str, Span, CSpan, StrtokRun, StrtokStep;
    j, k := StrtokCall(m, s, c);
    StrtokUnfold(m, At(s), c);
    if j < |Str(m, s)| {
      if j + k < |Str(m, s)| {
        CutString(m, s, j + k);
      } else {
        NullStep(m, c);
        StrtokUnfold(m, Null, c);
        assert [s + j] + [] == [s + j];
      }
    }
  }

  lemma {:induction false} NullStep(m: seq<Byte>, c: seq<Byte>)
    ensures StrtokStep(m, Null, Null, c) == (m, Null, Null)
  {
  }

  lemma {:induction false} NonEmptyHead(v: seq<Byte>, c: seq<Byte>)
    requires v != [] && v[0] !in c
    ensures var k := CSpan(v, c);
            NonEmpty(Split(v, c)) == [v[..k]] + (if k == |v| then [] else NonEmpty(Split(v[k + 1..], c)))
  {
    var k := CSpan(v, c);
    assert 0 < k;
    if k == |v| {
      assert v[..k] == v;
    } else {
      assert Split(v, c)[1..] == Split(v[k + 1..], c);
    }
  }

  /**
   A run of strtok_r yields, in order, the parts of the split that are not empty: what a run of strsep
   yields without its empty tokens. It changes nothing but separators into NUL.
   */
  lemma {:induction false} StrtokSplits(m: seq<Byte>, s: nat, c: seq<Byte>)
    requires Terminated(m, s)
    ensures var (m', tokens) := StrtokRun(m, At(s), c);
            TokensAre(m', tokens, NonEmpty(Split(Str(m, s), c))) && PartlyBlanked(m', m, s, Str(m, s), c)
    decreases |Str(m, s)|
  {
    hide StrtokRun, Terminated, Str, PartlyBlanked, TokensAre, CSpan, Span, Split, NonEmpty;
    var w := Str(m, s);
    var j, k := StrtokNext(m, s, c);
    SkipLeading(w, c);
    SpanStops(w, c);
    NothingPartlyBlanked(m, s, w, c);
    if j == |w| {
      NoTokens(m, c);
      assert w[j..] == [];
    } else {
      var v := w[j..];
      assert v[0] == w[j];
      NonEmptyHead(v, c);
      StrFrom(m, s, j);
      StrBytes(m, s + j);
      if j + k == |w| {
        assert v[..k] == v;
        assert [v] + [] == [v];
        OneToken(m, s + j);
      } else {
        CSpanStops(v, c);
        var m1, p := Put(m, s + j + k), s + j + k + 1;
        StrtokSplits(m1, p, c);
        var (m', tokens) := StrtokRun(m1, At(p), c);
        assert v[k + 1..] == w[j + k + 1..];
        assert v[k] == w[j + k];
        PartlyBlankedStep(m, m1, m', s, w, c, j + k);
        TokenReads(m, m', s + j, k);
        FirstToken(m', s + j, v[..k], tokens, NonEmpty(Split(w[j + k + 1..], c)));
      }
    }
  }

  lemma {:induction false} NothingPartlyBlanked(m: seq<Byte>, s: nat, w: seq<Byte>, c: seq<Byte>)
    requires s + |w| <= |m|
    ensures PartlyBlanked(m, m, s, w, c)
  {
  }

  lemma {:induction false} NoTokens(m: seq<Byte>, c: seq<Byte>)
    ensures NonEmpty(Split([], c)) == [] && TokensAre(m, [], [])
  {
    assert Split([], c) == [[]];
    assert NonEmpty([[]]) == [] + NonEmpty([]);
  }

  lemma {:induction false} PartlyBlankedStep(m: seq<Byte>, m1: seq<Byte>, m': seq<Byte>, s: nat, w: seq<Byte>, c: seq<Byte>, k: nat)
    requires k < |w| && s + |w| <= |m| && m1 == m[s + k := 0] && w[k] in c
    requires PartlyBlanked(m', m1, s + k + 1, w[k + 1..], c)
    ensures PartlyBlanked(m', m, s, w, c) && |m'| == |m|
    ensures m'[s + k] == 0 && forall i {:trigger m'[i]} :: s <= i < s + k ==> m'[i] == m[i]
  {
    forall i | 0 <= i < |m|
      ensures m'[i] == m[i] || (s <= i < s + |w| && w[i - s] in c && m'[i] == 0)
    {
      if s + k + 1 <= i < s + |w| {
        assert w[k + 1..][i - (s + k + 1)] == w[i - s];
      }
    }
  }

  // ----- The tokens of strtok_r by position -----

  /** The k bytes of w at t are free of separators, and cannot be extended on either side. */
  ghost predicate MaximalRun(w: seq<Byte>, c: seq<Byte>, t: int, k: nat) {
    && 0 <= t && 0 < k && t + k <= |w|
    && (forall q :: t <= q < t + k ==> w[q] !in c)
    && (t == 0 || w[t - 1] in c)
    && (t + k == |w| || w[t + k] in c)
  }

  /** The tokens lie in the string w at s, in order; each is a maximal run and no such run is missing. */
  ghost predicate TokensAreRuns(m: seq<Byte>, tokens: seq<nat>, s: nat, w: seq<Byte>, c: seq<Byte>) {
    && (forall i :: 0 <= i < |tokens| ==>
          Terminated(m, tokens[i]) && MaximalRun(w, c, tokens[i] - s, |Str(m, tokens[i])|))
    && (forall i, j :: 0 <= i < j < |tokens| ==> tokens[i] < tokens[j])
    && (forall t, k: nat :: MaximalRun(w, c, t, k) ==> s + t in tokens)
  }

  lemma {:induction false} MaximalRunFurther(w: seq<Byte>, c: seq<Byte>, e: nat, t: int, k: nat)
    requires 0 < e <= |w| && w[e - 1] in c
    ensures e <= t ==> (MaximalRun(w, c, t, k) <==> MaximalRun(w[e..], c, t - e, k))
  {
    if e <= t && t + k <= |w| {
      assert forall q :: t <= q < t + k ==> w[q] == w[e..][q - e];
      assert forall q :: t - e <= q < t + k - e ==> w[e..][q] == w[q + e];
    }
  }

  /** Only one maximal run starts before position e, when w is j separators, k other bytes and a separator. */
  lemma {:induction false} FirstRun(w: seq<Byte>, c: seq<Byte>, j: nat, k: nat, t: int, l: nat)
    requires 0 < k && j + k <= |w| && (j + k == |w| || w[j + k] in c)
    requires forall q :: 0 <= q < j ==> w[q] in c
    requires forall q :: j <= q < j + k ==> w[q] !in c
    ensures MaximalRun(w, c, j, k)
    ensures t <= j + k && MaximalRun(w, c, t, l) ==> t == j
  {
    if MaximalRun(w, c, t, l) && t <= j + k {
      assert w[t] !in c;
      if j < t {
        assert false;
      }
    }
  }

  /** A first token, and the tokens behind the separator at e - 1. */
  lemma {:induction false} RunsStep(m: seq<Byte>, tokens: seq<nat>, s: nat, w: seq<Byte>, c: seq<Byte>, j: nat, k: nat)
    requires 0 < k && j + k < |w| && w[j + k] in c
    requires forall q :: 0 <= q < j ==> w[q] in c
    requires forall q :: j <= q < j + k ==> w[q] !in c
    requires Terminated(m, s + j) && |Str(m, s + j)| == k
    requires TokensAreRuns(m, tokens, s + j + k + 1, w[j + k + 1..], c)
    ensures TokensAreRuns(m, [s + j] + tokens, s, w, c)
  {
    hide MaximalRun, Terminated, Str;
    var e := j + k + 1;
    var all := [s + j] + tokens;
    FirstRun(w, c, j, k, j, k);
    forall i | 0 <= i < |tokens|
      ensures s + j + k < tokens[i] && Terminated(m, tokens[i]) && MaximalRun(w, c, tokens[i] - s, |Str(m, tokens[i])|)
    {
      var l := |Str(m, tokens[i])|;
      assert MaximalRun(w[e..], c, tokens[i] - (s + e), l);
      RunStart(w[e..], c, tokens[i] - (s + e), l);
      MaximalRunFurther(w, c, e, tokens[i] - s, l);
    }
    forall t, l: nat | MaximalRun(w, c, t, l)
      ensures s + t in all
    {
      FirstRun(w, c, j, k, t, l);
      if t == j {
        assert all[0] == s + t;
      } else {
        MaximalRunFurther(w, c, e, t, l);
        assert s + e + (t - e) in tokens;
      }
    }
  }

  lemma {:induction false} RunStart(w: seq<Byte>, c: seq<Byte>, t: int, k: nat)
    requires MaximalRun(w, c, t, k)
    ensures 0 <= t < |w| && w[t] !in c
  {
  }

  lemma {:induction false} OneRun(m: seq<Byte>, s: nat, w: seq<Byte>, c: seq<Byte>, j: nat)
    requires j < |w| && Terminated(m, s + j) && |Str(m, s + j)| == |w| - j
    requires forall q :: 0 <= q < j ==> w[q] in c
    requires forall q :: j <= q < |w| ==> w[q] !in c
    ensures TokensAreRuns(m, [s + j], s, w, c)
  {
    var all := [s + j];
    FirstRun(w, c, j, |w| - j, j, |w| - j);
    forall t, l: nat | MaximalRun(w, c, t, l)
      ensures s + t in all
    {
      FirstRun(w, c, j, |w| - j, t, l);
      assert all[0] == s + t;
    }
  }

  lemma {:induction false} NoRuns(m: seq<Byte>, s: nat, w: seq<Byte>, c: seq<Byte>)
    requires forall q :: 0 <= q < |w| ==> w[q] in c
    ensures TokensAreRuns(m, [], s, w, c)
  {
    forall t, l: nat | MaximalRun(w, c, t, l)
      ensures false
    {
      RunStart(w, c, t, l);
    }
  }

  /** A run of strtok_r finds the maximal runs of bytes that are no separators: all of them, in order. */
  lemma {:induction false} StrtokFindsRuns(m: seq<Byte>, s: nat, c: seq<Byte>)
    requires Terminated(m, s)
    ensures var (m', tokens) := StrtokRun(m, At(s), c);
            TokensAreRuns(m', tokens, s, Str(m, s), c)
    decreases |Str(m, s)|
  {
    hide StrtokRun, Terminated, Str, PartlyBlanked, TokensAre, TokensAreRuns, CSpan, Span;
    var w := Str(m, s);
    var j, k := StrtokNext(m, s, c);
    SpanStops(w, c);
    if j == |w| {
      NoRuns(m, s, w, c);
    } else {
      var v := w[j..];
      CSpanStops(v, c);
      Shifted(w, v, c, j, k);
      StrFrom(m, s, j);
      if j + k == |w| {
        OneRun(m, s, w, c, j);
      } else {
        var m1, p := Put(m, s + j + k), s + j + k + 1;
        StrtokFindsRuns(m1, p, c);
        var (m', tokens) := StrtokRun(m1, At(p), c);
        StrtokSplits(m1, p, c);
        StrBytes(m, s);
        PartlyBlankedStep(m, m1, m', s, w, c, j + k);
        TokenReads(m, m', s + j, k);
        RunsStep(m', tokens, s, w, c, j, k);
      }
    }
  }

  lemma {:induction false} Shifted(w: seq<Byte>, v: seq<Byte>, c: seq<Byte>, j: nat, k: nat)
    requires j <= |w| && v == w[j..] && k <= |v|
    requires forall q :: 0 <= q < k ==> v[q] !in c
    requires k < |v| ==> v[k] in c
    ensures forall q :: j <= q < j + k ==> w[q] !in c
    ensures j + k < |w| ==> w[j + k] in c
  {
    assert forall q :: j <= q < |w| ==> w[q] == v[q - j];
  }

  // ----- Calls beyond the last token -----

  /** What exactly k calls of strsep do and return. */
  function StrsepCalls(m: seq<Byte>, p: Ptr, c: seq<Byte>, k: nat): (seq<Byte>, Ptr, seq<Ptr>)
    requires p.At? ==> Terminated(m, p.p)
    decreases k
  {
    if k == 0 then (m, p, []) else
      StrsepKeepsTerminated(m, p, c);
      var (m1, p1, r) := StrsepStep(m, p, c);
      var (m2, p2, rs) := StrsepCalls(m1, p1, c, k - 1);
      (m2, p2, [r] + rs)
  }

  /** The calls return the tokens of the run and then NULL for ever, and from then on write nothing. */
  lemma {:induction false} StrsepExhausted(m: seq<Byte>, p: Ptr, c: seq<Byte>, k: nat)
    requires p.At? ==> Terminated(m, p.p)
    ensures var (m', tokens) := StrsepRun(m, p, c);
            var (mk, pk, rs) := StrsepCalls(m, p, c, k);
            && |rs| == k
            && (forall i :: 0 <= i < k ==> rs[i] == if i < |tokens| then At(tokens[i]) else Null)
            && (|tokens| <= k ==> mk == m' && pk == Null)
    decreases k
  {
    hide StrsepStep;
    if p.Null? {
      StrsepNull(m, c);
      if k != 0 {
        StrsepExhausted(m, Null, c, k - 1);
      }
    } else {
      StrsepProgress(m, p, c);
      if k != 0 {
        var (m1, p1, r) := StrsepStep(m, p, c);
        StrsepExhausted(m1, p1, c, k - 1);
      }
    }
  }

  lemma {:induction false} StrsepKeepsTerminated(m: seq<Byte>, p: Ptr, c: seq<Byte>)
    requires p.At? ==> Terminated(m, p.p)
    ensures var (m', p', r) := StrsepStep(m, p, c); p'.At? ==> Terminated(m', p'.p)
  {
    if p.At? {
      StrsepProgress(m, p, c);
    }
  }

  lemma {:induction false} StrsepNull(m: seq<Byte>, c: seq<Byte>)
    ensures StrsepStep(m, Null, c) == (m, Null, Null)
  {
  }

  /** What exactly k calls of strtok_r with a NULL argument do and return. */
  function StrtokCalls(m: seq<Byte>, p: Ptr, c: seq<Byte>, k: nat): (seq<Byte>, Ptr, seq<Ptr>)
    requires p.At? ==> Terminated(m, p.p)
    decreases k
  {
    if k == 0 then (m, p, []) else
      StrtokProgress(m, p, c);
      var (m1, p1, r) := StrtokStep(m, Null, p, c);
      var (m2, p2, rs) := StrtokCalls(m1, p1, c, k - 1);
      (m2, p2, [r] + rs)
  }

  /** The same for strtok_r; the call after the last token is the one that returns NULL first. */
  lemma {:induction false} StrtokExhausted(m: seq<Byte>, p: Ptr, c: seq<Byte>, k: nat)
    requires p.At? ==> Terminated(m, p.p)
    ensures var (m', tokens) := StrtokRun(m, p, c);
            var (mk, pk, rs) := StrtokCalls(m, p, c, k);
            && |rs| == k
            && (forall i :: 0 <= i < k ==> rs[i] == if i < |tokens| then At(tokens[i]) else Null)
            && (|tokens| <= k ==> mk == m')
            && (|tokens| < k ==> pk == Null)
    decreases k
  {
    hide StrtokStep;
    StrtokProgress(m, p, c);
    if k != 0 {
      var (m1, p1, r) := StrtokStep(m, Null, p, c);
      StrtokExhausted(m1, p1, c, k - 1);
      if r.Null? {
        NullStep(m, c);
      }
    }
  }
}
