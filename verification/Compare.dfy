/** strcmp and strncmp, and strcasecmp and strncasecmp through tolower. */
module Compare {
  import opened Bits
  import opened Memory
  import opened CString

  // ----- The value of a comparison -----

  /** The difference at the first position where the strings, each followed by NUL, differ; 0 without one. */
  function Difference(l: seq<Byte>, r: seq<Byte>): int {
    if l == [] then (if r == [] then 0 else -r[0])
    else if r == [] then l[0]
    else if l[0] != r[0] then l[0] - r[0]
    else Difference(l[1..], r[1..])
  }

  /** No byte is NUL, as in every C string. */
  predicate Proper(w: seq<Byte>) {
    forall i :: 0 <= i < |w| ==> w[i] != 0
  }

  lemma {:induction false} DifferenceAntisymmetric(l: seq<Byte>, r: seq<Byte>)
    ensures Difference(l, r) == -Difference(r, l)
  {
    if l != [] && r != [] && l[0] == r[0] {
      DifferenceAntisymmetric(l[1..], r[1..]);
    }
  }

  lemma {:induction false} DifferenceZero(l: seq<Byte>, r: seq<Byte>)
    requires Proper(l) && Proper(r)
    ensures Difference(l, r) == 0 <==> l == r
  {
    if l != [] && r != [] && l[0] == r[0] {
      DifferenceZero(l[1..], r[1..]);
      assert l == [l[0]] + l[1..] && r == [r[0]] + r[1..];
    }
  }

  lemma {:induction false} DifferenceTransitive(l: seq<Byte>, r: seq<Byte>, t: seq<Byte>)
    requires Proper(l) && Proper(r) && Proper(t)
    requires Difference(l, r) <= 0 && Difference(r, t) <= 0
    ensures Difference(l, t) <= 0
    ensures Difference(l, t) == 0 ==> Difference(l, r) == 0 && Difference(r, t) == 0
  {
    if l != [] && r != [] && t != [] && l[0] == r[0] == t[0] {
      DifferenceTransitive(l[1..], r[1..], t[1..]);
    }
  }

  /** The strings agree on their first k bytes, and next comes a different byte, or the NUL of only one of them. */
  ghost predicate DifferFirstAt(l: seq<Byte>, r: seq<Byte>, k: nat) {
    k <= |l| && k <= |r| && l[..k] == r[..k] && (l + [0])[k] != (r + [0])[k]
  }

  /** The value is the difference of the first unequal bytes, and 0 for equal strings. */
  lemma {:induction false} DifferenceIs(l: seq<Byte>, r: seq<Byte>)
    ensures l == r ==> Difference(l, r) == 0
    ensures forall k: nat :: DifferFirstAt(l, r, k) ==> Difference(l, r) == (l + [0])[k] as int - (r + [0])[k] as int
  {
    forall k: nat | 0 < k && DifferFirstAt(l, r, k)
      ensures l != [] && r != [] && l[0] == r[0]
    {
      assert l[..k][0] == r[..k][0];
    }
    if l != [] && r != [] && l[0] == r[0] {
      DifferenceIs(l[1..], r[1..]);
      forall k: nat | DifferFirstAt(l, r, k)
        ensures Difference(l, r) == (l + [0])[k] as int - (r + [0])[k] as int
      {
        if k != 0 {
          assert l[1..][..k - 1] == l[..k][1..] && r[1..][..k - 1] == r[..k][1..];
          assert (l[1..] + [0])[k - 1] == (l + [0])[k] && (r[1..] + [0])[k - 1] == (r + [0])[k];
          assert DifferFirstAt(l[1..], r[1..], k - 1);
        }
      }
    }
  }

  // ----- strcmp, strncmp -----

  method Strcmp(a: array<Byte>, l: nat, b: array<Byte>, r: nat) returns (v: int)
    requires Terminated(a[..], l) && Terminated(b[..], r)
    ensures v == Difference(Str(a[..], l), Str(b[..], r))
    ensures var w, u := Str(a[..], l), Str(b[..], r);
            (w == u ==> v == 0) && forall k: nat :: DifferFirstAt(w, u, k) ==> v == (w + [0])[k] as int - (u + [0])[k] as int
  {
    hide DifferFirstAt;
    DifferenceIs(Str(a[..], l), Str(b[..], r));
    var i := 0;
    while true
      invariant Terminated(a[..], l + i) && Terminated(b[..], r + i)
      invariant Difference(Str(a[..], l), Str(b[..], r)) == Difference(Str(a[..], l + i), Str(b[..], r + i))
      decreases a.Length - l - i
    {
      var x: int, y: int := a[l + i], b[r + i];
      if x != y || x == 0 {
        return x - y;
      }
      assert Str(a[..], l + i)[1..] == Str(a[..], l + i + 1);
      assert Str(b[..], r + i)[1..] == Str(b[..], r + i + 1);
      i := i + 1;
    }
  }

  /** The bytes a bounded comparison may touch: n of them, or fewer when a NUL comes first. */
  predicate Readable(m: seq<Byte>, p: nat, n: nat)
    decreases n
  {
    n == 0 || (p < |m| && (m[p] == 0 || Readable(m, p + 1, n - 1)))
  }

  /** At most n bytes of the string at p. */
  function Prefix(m: seq<Byte>, p: nat, n: nat): seq<Byte>
    requires Readable(m, p, n)
    decreases n
  {
    if n == 0 || m[p] == 0 then [] else [m[p]] + Prefix(m, p + 1, n - 1)
  }

  /** The prefix is made of the bytes at p, none of them NUL, and ends after n of them or before a NUL. */
  lemma {:induction false} PrefixBytes(m: seq<Byte>, p: nat, n: nat)
    requires Readable(m, p, n)
    ensures |Prefix(m, p, n)| <= n && (0 < n ==> p + |Prefix(m, p, n)| <= |m|)
    ensures n != 0 ==> Prefix(m, p, n) == m[p..p + |Prefix(m, p, n)|]
    ensures Proper(Prefix(m, p, n))
    ensures |Prefix(m, p, n)| < n ==> p + |Prefix(m, p, n)| < |m| && m[p + |Prefix(m, p, n)|] == 0
    decreases n
  {
    if n != 0 && m[p] != 0 {
      PrefixBytes(m, p + 1, n - 1);
      var w := Prefix(m, p + 1, n - 1);
      assert Prefix(m, p, n) == [m[p]] + w;
      if n != 1 {
        assert m[p..p + 1 + |w|] == [m[p]] + m[p + 1..p + 1 + |w|];
      }
    }
  }

  /** Of a terminated string, that is the prefix of length n, or all of it. */
  lemma {:induction false} PrefixIs(m: seq<Byte>, p: nat, n: nat)
    requires Terminated(m, p)
    ensures Readable(m, p, n)
    ensures Prefix(m, p, n) == if n <= |Str(m, p)| then Str(m, p)[..n] else Str(m, p)
    decreases n
  {
    if n != 0 && m[p] != 0 {
      PrefixIs(m, p + 1, n - 1);
    }
  }

  method Strncmp(a: array<Byte>, l0: nat, b: array<Byte>, r0: nat, n0: nat) returns (v: int)
    requires Readable(a[..], l0, n0) && Readable(b[..], r0, n0)
    ensures v == Difference(Prefix(a[..], l0, n0), Prefix(b[..], r0, n0))
    ensures var w, u := Prefix(a[..], l0, n0), Prefix(b[..], r0, n0);
            (w == u ==> v == 0) && forall k: nat :: DifferFirstAt(w, u, k) ==> v == (w + [0])[k] as int - (u + [0])[k] as int
  {
    hide DifferFirstAt;
    DifferenceIs(Prefix(a[..], l0, n0), Prefix(b[..], r0, n0));
    if n0 == 0 {
      return 0;
    }
    var n: nat := n0 - 1;
    var l: nat, r: nat := l0, r0;
    while a[l] != 0 && b[r] != 0 && n != 0 && a[l] == b[r]
      invariant Readable(a[..], l, n + 1) && Readable(b[..], r, n + 1)
      invariant Difference(Prefix(a[..], l0, n0), Prefix(b[..], r0, n0)) ==
                Difference(Prefix(a[..], l, n + 1), Prefix(b[..], r, n + 1))
      decreases n
    {
      assert Prefix(a[..], l, n + 1)[1..] == Prefix(a[..], l + 1, n);
      assert Prefix(b[..], r, n + 1)[1..] == Prefix(b[..], r + 1, n);
      l := l + 1;
      r := r + 1;
      n := n - 1;
    }
    OneMore(a[..], l, n);
    OneMore(b[..], r, n);
    var x: int, y: int := a[l], b[r];
    v := x - y;
  }

  lemma {:induction false} OneMore(m: seq<Byte>, p: nat, n: nat)
    requires Readable(m, p, n + 1)
    ensures m[p] == 0 ==> Prefix(m, p, n + 1) == []
    ensures m[p] != 0 ==> Prefix(m, p, n + 1) == [m[p]] + Prefix(m, p + 1, n)
    ensures m[p] != 0 && n == 0 ==> Prefix(m, p, n + 1) == [m[p]]
  {
  }

  // ----- Case folding -----

  /** isupper: one comparison of the 32-bit difference, which wraps around below 'A'. */
  predicate IsUpper(c: int) {
    ((c % U32) - 65) % U32 < 26
  }

  /** tolower, for the values of a byte. */
  function ToLower(c: nat): nat {
    if IsUpper(c) then Or(c, 32) else c
  }

  lemma {:induction false} IsUpperRange(c: Byte)
    ensures IsUpper(c) <==> 65 <= c <= 90
  {
    assert c % U32 == c;
    if c < 65 {
      assert (c - 65) % U32 == c - 65 + U32;
    }
  }

  lemma {:induction false} ToLowerValue(c: Byte)
    ensures IsUpper(c) <==> 65 <= c <= 90
    ensures ToLower(c) == if 65 <= c <= 90 then c + 32 else c
    ensures ToLower(c) < 256
  {
    hide IsUpper, Or;
    IsUpperRange(c);
    if 65 <= c <= 90 {
      OrCaseBit(c);
    }
  }

  lemma {:induction false} OrCaseBit(c: nat)
    requires 64 <= c < 96
    ensures Or(c, 32) == c + 32
  {
    var l := c - 64;
    assert Pow2(5) == 32;
    OrDisjoint(2, l, 5);
    OrDisjoint(3, l, 5);
    OrCommutes(64, l);
    OrAssociates(l, 64, 32);
    assert Or(64, 32) == 96;
    OrCommutes(l, 96);
  }

  /** fold: a byte through tolower and back. */
  function Fold(b: Byte): (r: Byte)
    ensures r == if 65 <= b <= 90 then b + 32 else b
  {
    ToLowerValue(b);
    ToLower(b)
  }

  /** A string in lower case. */
  function Lower(w: seq<Byte>): (r: seq<Byte>)
    ensures |r| == |w|
    ensures forall i :: 0 <= i < |w| ==> r[i] == Fold(w[i])
  {
    if w == [] then [] else [Fold(w[0])] + Lower(w[1..])
  }

  method Strcasecmp(a: array<Byte>, l0: nat, b: array<Byte>, r0: nat) returns (v: int)
    requires Terminated(a[..], l0) && Terminated(b[..], r0)
    ensures v == Difference(Lower(Str(a[..], l0)), Lower(Str(b[..], r0)))
  {
    var l: nat, r: nat := l0, r0;
    while true
      invariant Terminated(a[..], l) && Terminated(b[..], r)
      invariant Difference(Lower(Str(a[..], l0)), Lower(Str(b[..], r0))) ==
                Difference(Lower(Str(a[..], l)), Lower(Str(b[..], r)))
      decreases a.Length - l
    {
      var x, y := a[l], b[r];
      if x == 0 || y == 0 {
        return Fold(x) - Fold(y);
      }
      if x != y && Fold(x) != Fold(y) {
        return Fold(x) - Fold(y);
      }
      assert Lower(Str(a[..], l))[1..] == Lower(Str(a[..], l + 1));
      assert Lower(Str(b[..], r))[1..] == Lower(Str(b[..], r + 1));
      l := l + 1;
      r := r + 1;
    }
  }

  method Strncasecmp(a: array<Byte>, l0: nat, b: array<Byte>, r0: nat, n0: nat) returns (v: int)
    requires Readable(a[..], l0, n0) && Readable(b[..], r0, n0)
    ensures v == Difference(Lower(Prefix(a[..], l0, n0)), Lower(Prefix(b[..], r0, n0)))
  {
    if n0 == 0 {
      return 0;
    }
    var n: nat := n0 - 1;
    var l: nat, r: nat := l0, r0;
    hide Lower, Difference, Prefix, Fold;
    while a[l] != 0 && b[r] != 0 && n != 0 && (a[l] == b[r] || Fold(a[l]) == Fold(b[r]))
      invariant Readable(a[..], l, n + 1) && Readable(b[..], r, n + 1)
      invariant Difference(Lower(Prefix(a[..], l0, n0)), Lower(Prefix(b[..], r0, n0))) ==
                Difference(Lower(Prefix(a[..], l, n + 1)), Lower(Prefix(b[..], r, n + 1)))
      decreases n
    {
      OneMore(a[..], l, n);
      OneMore(b[..], r, n);
      LowerSame(a[l], Prefix(a[..], l + 1, n), b[r], Prefix(b[..], r + 1, n));
      l := l + 1;
      r := r + 1;
      n := n - 1;
    }
    OneMore(a[..], l, n);
    OneMore(b[..], r, n);
    LowerEnds(a[l], Prefix(a[..], l, n + 1), b[r], Prefix(b[..], r, n + 1));
    v := Fold(a[l]) - Fold(b[r]);
  }

  lemma {:induction false} LowerSame(x: Byte, l: seq<Byte>, y: Byte, r: seq<Byte>)
    requires Fold(x) == Fold(y)
    ensures Difference(Lower([x] + l), Lower([y] + r)) == Difference(Lower(l), Lower(r))
  {
    assert ([x] + l)[1..] == l && ([y] + r)[1..] == r;
    assert Lower([x] + l)[1..] == Lower(l) && Lower([y] + r)[1..] == Lower(r);
  }

  /** Where the comparison of two strings stops, the first bytes, NUL for an empty string, decide. */
  lemma {:induction false} LowerEnds(x: Byte, l: seq<Byte>, y: Byte, r: seq<Byte>)
    requires if x == 0 then l == [] else l != [] && l[0] == x
    requires if y == 0 then r == [] else r != [] && r[0] == y
    requires x == 0 || y == 0 || Fold(x) != Fold(y) || (|l| == 1 && |r| == 1)
    ensures Difference(Lower(l), Lower(r)) == Fold(x) - Fold(y)
  {
    if x != 0 && y != 0 && Fold(x) == Fold(y) {
      assert Lower(l)[1..] == [] && Lower(r)[1..] == [];
    }
  }

  lemma {:induction false} LowerProper(w: seq<Byte>)
    requires Proper(w)
    ensures Proper(Lower(w))
  {
  }

  /**
   Comparing without regard to case is a total preorder of the C strings: antisymmetric in sign,
   transitive, and zero exactly on strings that agree once in lower case.
   */
  lemma {:induction false} CaselessPreorder(l: seq<Byte>, r: seq<Byte>, t: seq<Byte>)
    requires Proper(l) && Proper(r) && Proper(t)
    ensures Difference(Lower(l), Lower(r)) == -Difference(Lower(r), Lower(l))
    ensures Difference(Lower(l), Lower(r)) <= 0 && Difference(Lower(r), Lower(t)) <= 0 ==>
              Difference(Lower(l), Lower(t)) <= 0
    ensures Difference(Lower(l), Lower(r)) == 0 <==> Lower(l) == Lower(r)
  {
    LowerProper(l);
    LowerProper(r);
    LowerProper(t);
    DifferenceAntisymmetric(Lower(l), Lower(r));
    DifferenceZero(Lower(l), Lower(r));
    if Difference(Lower(l), Lower(r)) <= 0 && Difference(Lower(r), Lower(t)) <= 0 {
      DifferenceTransitive(Lower(l), Lower(r), Lower(t));
    }
  }
}
