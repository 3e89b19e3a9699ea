/** NUL-terminated strings in byte memory, and the scans that strspn, strcspn and strpbrk are made of. */
module CString {
  import opened Bits
  import opened Memory

  /** A NUL lies at p or after it. */
  predicate Terminated(m: seq<Byte>, p: nat)
    decreases |m| - p
  {
    p < |m| && (m[p] == 0 || Terminated(m, p + 1))
  }

  /** The bytes from p up to the first NUL. */
  function Str(m: seq<Byte>, p: nat): (w: seq<Byte>)
    requires Terminated(m, p)
    decreases |m| - p
  {
    if m[p] == 0 then [] else [m[p]] + Str(m, p + 1)
  }

  lemma {:induction false} StrBytes(m: seq<Byte>, p: nat)
    requires Terminated(m, p)
    ensures p + |Str(m, p)| < |m| && m[p + |Str(m, p)|] == 0
    ensures Str(m, p) == m[p..p + |Str(m, p)|]
    ensures forall k :: p <= k < p + |Str(m, p)| ==> m[k] != 0
    decreases |m| - p
  {
    if m[p] != 0 {
      StrBytes(m, p + 1);
    }
  }

  /** n bytes without NUL, then a NUL: that is the string. */
  lemma {:induction false} StrIs(m: seq<Byte>, p: nat, n: nat)
    requires p + n < |m| && m[p + n] == 0 && forall k :: p <= k < p + n ==> m[k] != 0
    ensures Terminated(m, p) && Str(m, p) == m[p..p + n]
    decreases n
  {
    if n != 0 {
      StrIs(m, p + 1, n - 1);
    }
  }

  /** A string continues as the string further on. */
  lemma {:induction false} StrFrom(m: seq<Byte>, p: nat, k: nat)
    requires Terminated(m, p) && k <= |Str(m, p)|
    ensures Terminated(m, p + k) && Str(m, p + k) == Str(m, p)[k..]
    decreases k
  {
    if k != 0 {
      StrFrom(m, p + 1, k - 1);
    }
  }

  // ----- Spans -----

  /** Length of the longest prefix of w made of bytes in c. */
  function Span(w: seq<Byte>, c: seq<Byte>): (k: nat)
    ensures k <= |w|
  {
    if w == [] || w[0] !in c then 0 else 1 + Span(w[1..], c)
  }

  /** Length of the longest prefix of w made of bytes not in c. */
  function CSpan(w: seq<Byte>, c: seq<Byte>): (k: nat)
    ensures k <= |w|
  {
    if w == [] || w[0] in c then 0 else 1 + CSpan(w[1..], c)
  }

  lemma {:induction false} SpanStops(w: seq<Byte>, c: seq<Byte>)
    ensures forall i :: 0 <= i < Span(w, c) ==> w[i] in c
    ensures Span(w, c) < |w| ==> w[Span(w, c)] !in c
  {
    if w != [] && w[0] in c {
      SpanStops(w[1..], c);
      assert forall i :: 0 < i < Span(w, c) ==> w[i] == w[1..][i - 1];
    }
  }

  lemma {:induction false} CSpanStops(w: seq<Byte>, c: seq<Byte>)
    ensures forall i :: 0 <= i < CSpan(w, c) ==> w[i] !in c
    ensures CSpan(w, c) < |w| ==> w[CSpan(w, c)] in c
  {
    if w != [] && w[0] !in c {
      CSpanStops(w[1..], c);
      assert forall i :: 0 < i < CSpan(w, c) ==> w[i] == w[1..][i - 1];
    }
  }

  // ----- The 256-bit byteset -----

  /** byteset_test. */
  predicate InByteset(words: seq<nat>, b: Byte)
    requires |words| == 4
  {
    And(Shr(words[b / 64], b % 64), 1) != 0
  }

  /** The four words hold exactly the bytes of c. */
  ghost predicate HoldsExactly(words: seq<nat>, c: seq<Byte>) {
    |words| == 4 && forall b: Byte :: InByteset(words, b) <==> b in c
  }

  lemma {:induction false} InBytesetBit(words: seq<nat>, b: Byte)
    requires |words| == 4
    ensures InByteset(words, b) <==> Bit(words[b / 64], b % 64)
  {
    hide Bit, Shr, And;
    var x := Shr(words[b / 64], b % 64);
    assert Pow2(1) == 2;
    AndMask(x, 1);
    ShrBit(words[b / 64], b % 64);
  }

  /** Setting a bit adds one byte to the set. */
  lemma {:induction false} SetAdds(words: seq<nat>, words': seq<nat>, c: seq<Byte>, x: Byte)
    requires HoldsExactly(words, c)
    requires words' == words[x / 64 := Or(words[x / 64], Shl(1, x % 64))]
    ensures HoldsExactly(words', c + [x])
  {
    hide Bit, Or, Shl, InByteset;
    forall b: Byte
      ensures InByteset(words', b) <==> b in c + [x]
    {
      InBytesetBit(words', b);
      InBytesetBit(words, b);
      OrBit(words[x / 64], Shl(1, x % 64), b % 64);
      OneShl(x % 64);
      Pow2Bit(x % 64, b % 64);
      assert b / 64 == x / 64 && b % 64 == x % 64 <==> b == x;
    }
  }

  lemma {:induction false} OneShl(k: nat)
    ensures Shl(1, k) == Pow2(k)
  {
  }

  lemma {:induction false} EmptyHoldsNothing()
    ensures HoldsExactly([0, 0, 0, 0], [])
  {
    forall b: Byte
      ensures !InByteset([0, 0, 0, 0], b)
    {
      InBytesetBit([0, 0, 0, 0], b);
      ZeroBit(b % 64);
    }
  }

  /** byteset_set. */
  method BytesetSet(bs: array<nat>, x: Byte, ghost c: seq<Byte>)
    requires bs.Length == 4 && HoldsExactly(bs[..], c)
    modifies bs
    ensures HoldsExactly(bs[..], c + [x])
  {
    hide HoldsExactly, Or, Shl;
    ghost var was := bs[..];
    bs[x / 64] := Or(bs[x / 64], Shl(1, x % 64));
    assert bs[..] == was[x / 64 := Or(was[x / 64], Shl(1, x % 64))];
    SetAdds(was, bs[..], c, x);
  }

  /** The loop that fills the set from the string at c. */
  method BuildByteset(b: array<Byte>, c: nat) returns (bs: array<nat>)
    requires Terminated(b[..], c)
    ensures fresh(bs) && bs.Length == 4 && HoldsExactly(bs[..], Str(b[..], c))
  {
    hide HoldsExactly, Str, Terminated;
    bs := new nat[][0, 0, 0, 0];
    assert bs[..] == [0, 0, 0, 0];
    EmptyHoldsNothing();
    var cp := c;
    StrHead(b[..], cp);
    ghost var done: seq<Byte> := [];
    while b[cp] != 0
      invariant cp < b.Length && Terminated(b[..], cp) && (b[cp] == 0 <==> Str(b[..], cp) == [])
      invariant Str(b[..], c) == done + Str(b[..], cp)
      invariant bs.Length == 4 && fresh(bs) && HoldsExactly(bs[..], done)
      decreases b.Length - cp
    {
      StrHead(b[..], cp);
      BytesetSet(bs, b[cp], done);
      MoveFirst(done, Str(b[..], cp));
      done := done + [b[cp]];
      cp := cp + 1;
      StrHead(b[..], cp);
    }
    assert done + [] == done;
  }

  lemma {:induction false} MoveFirst(u: seq<Byte>, v: seq<Byte>)
    requires v != []
    ensures u + v == u + [v[0]] + v[1..]
  {
  }

  // ----- The functions -----

  method Strlen(a: array<Byte>, s: nat) returns (n: nat)
    requires Terminated(a[..], s)
    ensures n == |Str(a[..], s)|
  {
    n := 0;
    while a[s + n] != 0
      invariant Terminated(a[..], s + n) && |Str(a[..], s)| == n + |Str(a[..], s + n)|
      decreases a.Length - s - n
    {
      n := n + 1;
    }
  }

  /** __strchrnul: the first byte c of the string at s, or its NUL. */
  method Strchrnul(a: array<Byte>, s: nat, c: Byte) returns (p: nat)
    requires Terminated(a[..], s)
    ensures p == s + CSpan(Str(a[..], s), if c == 0 then [] else [c])
  {
    if c == 0 {
      var n := Strlen(a, s);
      CSpanOfNothing(Str(a[..], s));
      return s + n;
    }
    p := s;
    while a[p] != 0 && a[p] != c
      invariant s <= p && Terminated(a[..], p)
      invariant CSpan(Str(a[..], s), [c]) == p - s + CSpan(Str(a[..], p), [c])
      decreases a.Length - p
    {
      assert Str(a[..], p)[1..] == Str(a[..], p + 1);
      p := p + 1;
    }
  }

  lemma {:induction false} CSpanOfNothing(w: seq<Byte>)
    ensures CSpan(w, []) == |w|
  {
    if w != [] {
      CSpanOfNothing(w[1..]);
    }
  }

  method Strspn(a: array<Byte>, s: nat, b: array<Byte>, c: nat) returns (n: nat)
    requires Terminated(a[..], s) && Terminated(b[..], c)
    ensures n == Span(Str(a[..], s), Str(b[..], c))
  {
    if b[c] == 0 {
      return 0;
    }
    ghost var set_ := Str(b[..], c);
    var p := s;
    if b[c + 1] == 0 {
      assert Str(b[..], c + 1) == [];
      while a[p] == b[c]
        invariant s <= p && Terminated(a[..], p)
        invariant Span(Str(a[..], s), set_) == p - s + Span(Str(a[..], p), set_)
        decreases a.Length - p
      {
        assert Str(a[..], p)[1..] == Str(a[..], p + 1);
        p := p + 1;
      }
      return p - s;
    }
    hide HoldsExactly, InByteset;
    var bs := BuildByteset(b, c);
    Membership(bs[..], set_);
    while a[p] != 0 && InByteset(bs[..], a[p])
      invariant s <= p && Terminated(a[..], p)
      invariant Span(Str(a[..], s), set_) == p - s + Span(Str(a[..], p), set_)
      decreases a.Length - p
    {
      assert Str(a[..], p)[1..] == Str(a[..], p + 1);
      p := p + 1;
    }
    n := p - s;
  }

  lemma {:induction false} Membership(words: seq<nat>, c: seq<Byte>)
    requires HoldsExactly(words, c)
    ensures forall b: Byte :: InByteset(words, b) <==> b in c
  {
  }

  method Strcspn(a: array<Byte>, s: nat, b: array<Byte>, c: nat) returns (n: nat)
    requires Terminated(a[..], s) && Terminated(b[..], c)
    ensures n == CSpan(Str(a[..], s), Str(b[..], c))
  {
    ghost var set_ := Str(b[..], c);
    if b[c] == 0 || b[c + 1] == 0 {
      assert b[c] != 0 ==> Str(b[..], c + 1) == [];
      assert set_ == if b[c] == 0 then [] else [b[c]];
      var q := Strchrnul(a, s, b[c]);
      return q - s;
    }
    hide HoldsExactly, InByteset;
    var bs := BuildByteset(b, c);
    Membership(bs[..], set_);
    var p := s;
    while a[p] != 0 && !InByteset(bs[..], a[p])
      invariant s <= p && Terminated(a[..], p)
      invariant CSpan(Str(a[..], s), set_) == p - s + CSpan(Str(a[..], p), set_)
      decreases a.Length - p
    {
      assert Str(a[..], p)[1..] == Str(a[..], p + 1);
      p := p + 1;
    }
    n := p - s;
  }

  /** strpbrk: the first byte of the string that is in the set, NULL exactly when there is none. */
  method Strpbrk(a: array<Byte>, s: nat, b: array<Byte>, c: nat) returns (r: Ptr)
    requires Terminated(a[..], s) && Terminated(b[..], c)
    ensures var w, set_ := Str(a[..], s), Str(b[..], c);
            match r
            case Null => forall i :: 0 <= i < |w| ==> w[i] !in set_
            case At(p) => s <= p < s + |w| && w[p - s] in set_ && forall i :: 0 <= i < p - s ==> w[i] !in set_
  {
    var k := Strcspn(a, s, b, c);
    StrBytes(a[..], s);
    CSpanStops(Str(a[..], s), Str(b[..], c));
    r := if a[s + k] != 0 then At(s + k) else Null;
  }

  // ----- strstr -----

  /** The needle n occurs in w at position k. */
  ghost predicate OccursAt(w: seq<Byte>, n: seq<Byte>, k: nat) {
    k + |n| <= |w| && w[k..k + |n|] == n
  }

  /** The inner loop of strstr: does the needle at n match here? */
  method MatchesHere(a: array<Byte>, h: nat, b: array<Byte>, n: nat) returns (ok: bool)
    requires Terminated(a[..], h) && Terminated(b[..], n)
    ensures ok <==> OccursAt(Str(a[..], h), Str(b[..], n), 0)
  {
    hide OccursAt, Str, Terminated;
    var p: nat, q: nat := h, n;
    StrHead(a[..], p);
    StrHead(b[..], q);
    while a[p] != 0 && b[q] != 0 && a[p] == b[q]
      invariant Terminated(a[..], p) && Terminated(b[..], q) && p < a.Length && q < b.Length
      invariant OccursAt(Str(a[..], h), Str(b[..], n), 0) <==> OccursAt(Str(a[..], p), Str(b[..], q), 0)
      decreases a.Length - p
    {
      StrHead(a[..], p);
      StrHead(b[..], q);
      SameFirst(Str(a[..], p), Str(b[..], q));
      p := p + 1;
      q := q + 1;
      StrHead(a[..], p);
      StrHead(b[..], q);
    }
    StrHead(a[..], p);
    StrHead(b[..], q);
    ok := b[q] == 0;
    FirstDecides(Str(a[..], p), Str(b[..], q));
  }

  lemma {:induction false} SameFirst(u: seq<Byte>, v: seq<Byte>)
    requires u != [] && v != [] && u[0] == v[0]
    ensures OccursAt(u, v, 0) <==> OccursAt(u[1..], v[1..], 0)
  {
    if |v| <= |u| {
      assert u[..|v|] == [u[0]] + u[1..][..|v| - 1] && v == [v[0]] + v[1..];
    }
  }

  lemma {:induction false} FirstDecides(u: seq<Byte>, v: seq<Byte>)
    ensures v == [] ==> OccursAt(u, v, 0)
    ensures v != [] && (u == [] || u[0] != v[0]) ==> !OccursAt(u, v, 0)
  {
  }

  /** What the byte at p says about the string there. */
  lemma {:induction false} StrHead(m: seq<Byte>, p: nat)
    requires Terminated(m, p)
    ensures p < |m| && (m[p] == 0 <==> Str(m, p) == [])
    ensures m[p] != 0 ==> Terminated(m, p + 1) && Str(m, p)[0] == m[p] && Str(m, p)[1..] == Str(m, p + 1)
  {
  }

  /** strstr: the first place where the needle occurs, NULL exactly when it occurs nowhere. */
  method Strstr(a: array<Byte>, h0: nat, b: array<Byte>, n: nat) returns (r: Ptr)
    requires Terminated(a[..], h0) && Terminated(b[..], n)
    ensures var w, needle := Str(a[..], h0), Str(b[..], n);
            match r
            case Null => forall k: nat :: !OccursAt(w, needle, k)
            case At(p) => h0 <= p && OccursAt(w, needle, p - h0) && forall k: nat :: k < p - h0 ==> !OccursAt(w, needle, k)
  {
    ghost var w, needle := Str(a[..], h0), Str(b[..], n);
    StrHead(b[..], n);
    if b[n] == 0 {
      assert OccursAt(w, needle, 0);
      return At(h0);
    }
    var h := h0;
    while a[h] != 0
      invariant h0 <= h && h - h0 <= |w| && Terminated(a[..], h) && Str(a[..], h) == w[h - h0..]
      invariant forall k: nat :: k < h - h0 ==> !OccursAt(w, needle, k)
      decreases a.Length - h
    {
      StrHead(a[..], h);
      OccursFurther(w, needle, h - h0);
      var found := MatchesHere(a, h, b, n);
      if found {
        return At(h);
      }
      assert w[h - h0..][1..] == w[h - h0 + 1..];
      h := h + 1;
    }
    StrHead(a[..], h);
    r := Null;
  }

  lemma {:induction false} OccursFurther(w: seq<Byte>, n: seq<Byte>, k: nat)
    requires k <= |w|
    ensures OccursAt(w[k..], n, 0) <==> OccursAt(w, n, k)
  {
    if k + |n| <= |w| {
      assert w[k..][0..|n|] == w[k..k + |n|];
    }
  }
}
