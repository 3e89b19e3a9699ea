/** Heaps of elements under a total preorder, and how many comparisons sifting through them can take. */
module Heap {
  import Bits

  /** le(x, y): x is not greater than y. Nothing is asked of values outside dom. */
  ghost predicate TotalPreorder<E>(le: (E, E) -> bool, dom: set<E>) {
    && (forall x, y :: x in dom && y in dom ==> le(x, y) || le(y, x))
    && (forall x, y, z :: x in dom && y in dom && z in dom && le(x, y) && le(y, z) ==> le(x, z))
  }

  ghost predicate Within<E>(s: seq<E>, dom: set<E>) {
    forall k :: 0 <= k < |s| ==> s[k] in dom
  }

  function Parent(k: nat): nat
    requires 0 < k
  {
    (k - 1) / 2
  }

  /** Below lo nothing is claimed; from lo on no child exceeds its parent. */
  ghost predicate HeapFrom<E>(s: seq<E>, n: nat, lo: nat, le: (E, E) -> bool)
    requires n <= |s|
  {
    forall k: nat :: 0 < k < n && lo <= Parent(k) ==> le(s[k], s[Parent(k)])
  }

  /** The same, except that element i may be smaller than its children, which its parent dominates. */
  ghost predicate Sifting<E>(s: seq<E>, n: nat, lo: nat, i: nat, le: (E, E) -> bool)
    requires n <= |s|
  {
    && (forall k: nat :: 0 < k < n && lo <= Parent(k) && Parent(k) != i ==> le(s[k], s[Parent(k)]))
    && (forall k: nat :: 0 < k < n && Parent(k) == i && 0 < i && lo <= Parent(i) ==> le(s[k], s[Parent(i)]))
  }

  function Swap<E>(s: seq<E>, i: nat, j: nat): (r: seq<E>)
    requires i < |s| && j < |s|
    ensures |r| == |s| && multiset(r) == multiset(s)
  {
    var r := s[i := s[j]][j := s[i]];
    SwapPermutes(s, i, j);
    r
  }

  lemma {:induction false} SwapPermutes<E>(s: seq<E>, i: nat, j: nat)
    requires i < |s| && j < |s|
    ensures multiset(s[i := s[j]][j := s[i]]) == multiset(s)
  {
    var t := s[i := s[j]];
    assert multiset(t) == multiset(s)[s[i] := multiset(s)[s[i]] - 1] + multiset{s[j]};
  }

  lemma {:induction false} SiftStep<E>(s: seq<E>, n: nat, lo: nat, i: nat, c: nat, le: (E, E) -> bool)
    requires i < c < n <= |s| && Parent(c) == i && lo <= i && Sifting(s, n, lo, i, le)
    requires le(s[i], s[c])
    requires forall k: nat :: 0 < k < n && Parent(k) == i ==> le(s[k], s[c])
    ensures Sifting(Swap(s, i, c), n, lo, c, le)
  {
    var t := Swap(s, i, c);
    forall k: nat | 0 < k < n && lo <= Parent(k) && Parent(k) != c
      ensures le(t[k], t[Parent(k)])
    {
      if k == c {
      } else if Parent(k) == i {
      } else if k == i {
        assert le(s[c], s[Parent(i)]);
      }
    }
  }

  lemma {:induction false} SiftDone<E>(s: seq<E>, n: nat, lo: nat, i: nat, le: (E, E) -> bool)
    requires n <= |s| && Sifting(s, n, lo, i, le)
    requires forall k: nat :: 0 < k < n && Parent(k) == i ==> le(s[k], s[i])
    ensures HeapFrom(s, n, lo, le)
  {
  }

  /** The root of a heap is its greatest element. */
  lemma {:induction false} RootIsMax<E>(s: seq<E>, n: nat, k: nat, dom: set<E>, le: (E, E) -> bool)
    requires k < n <= |s| && HeapFrom(s, n, 0, le) && TotalPreorder(le, dom) && Within(s, dom)
    ensures le(s[k], s[0])
  {
    if k != 0 {
      RootIsMax(s, n, Parent(k), dom, le);
    }
  }

  ghost predicate Sorted<E>(s: seq<E>, le: (E, E) -> bool) {
    forall i, j :: 0 <= i < j < |s| ==> le(s[i], s[j])
  }

  /** The elements from `end` on are sorted and none before them exceeds one of them. */
  ghost predicate SortedFrom<E>(s: seq<E>, end: nat, le: (E, E) -> bool)
    requires end <= |s|
  {
    forall i, j :: 0 <= i < j < |s| && end <= j ==> le(s[i], s[j])
  }

  /** Moving the root of a heap behind it, and permuting the rest, leaves one more element in place. */
  lemma {:induction false} ExtractStep<E>(s: seq<E>, t: seq<E>, end: nat, dom: set<E>, le: (E, E) -> bool)
    requires 0 < end < |s| && |t| == |s|
    requires TotalPreorder(le, dom) && Within(s, dom) && HeapFrom(s, end + 1, 0, le) && SortedFrom(s, end + 1, le)
    requires multiset(t[..end]) == multiset(Swap(s, 0, end)[..end]) && t[end..] == Swap(s, 0, end)[end..]
    ensures SortedFrom(t, end, le)
  {
    var u := Swap(s, 0, end);
    assert forall j :: end <= j < |s| ==> t[j] == t[end..][j - end] == u[j];
    forall i, j | 0 <= i < j < |t| && end <= j
      ensures le(t[i], t[j])
    {
      if i < end {
        var y := SameElement(t[..end], u[..end], i);
        var z := if y == 0 then end else y;
        assert t[i] == s[z];
        if j == end {
          RootIsMax(s, end + 1, z, dom, le);
        }
      } else if i == end {
        assert t[end] == s[0];
      }
    }
  }

  lemma {:induction false} SameElement<E>(s: seq<E>, t: seq<E>, i: nat) returns (j: nat)
    requires i < |s| && multiset(s) == multiset(t)
    ensures j < |t| && t[j] == s[i]
  {
    assert s[i] in multiset(t);
    j :| 0 <= j < |t| && t[j] == s[i];
  }

  // ----- Counting -----

  /** Levels below node i in a heap of n nodes. */
  function Height(n: nat, i: nat): nat
    decreases n - i
  {
    if n <= 2 * i + 1 then 0 else 1 + Height(n, 2 * i + 1)
  }

  /** The integer part of the logarithm to base 2. */
  function Log2(m: nat): nat {
    if m < 2 then 0 else 1 + Log2(m / 2)
  }

  /** 2^Log2(m) <= m < 2^(Log2(m) + 1). */
  lemma {:induction false} Log2Bounds(m: nat)
    requires 0 < m
    ensures Bits.Pow2(Log2(m)) <= m < 2 * Bits.Pow2(Log2(m))
  {
    if 2 <= m {
      Log2Bounds(m / 2);
    } else {
      assert Bits.Pow2(0) == 1;
    }
  }

  lemma {:induction false} HeightMonotone(n: nat, i: nat, j: nat)
    requires i <= j
    ensures Height(n, j) <= Height(n, i)
    decreases n - i
  {
    if 2 * j + 1 < n {
      HeightMonotone(n, 2 * i + 1, 2 * j + 1);
    }
  }

  lemma {:induction false} HeightGrows(m: nat, n: nat, i: nat)
    requires m <= n
    ensures Height(m, i) <= Height(n, i)
    decreases m - i
  {
    if 2 * i + 1 < m {
      HeightGrows(m, n, 2 * i + 1);
    }
  }

  lemma {:induction false} HalfQuotient(n: nat, d: nat)
    requires 0 < d
    ensures (n / d) / 2 == n / (2 * d)
    ensures (n / 2) / d == n / (2 * d)
    ensures n / d < 2 <==> n < 2 * d
  {
    Bits.HalfDivMod(n, d);
    var a, r := n / d, n % d;
    Bits.QuotientNat(n, d);
    assert n == a * d + r;
    if a == 0 || a == 1 {
      assert n < 2 * d;
    } else {
      assert 2 * d <= a * d by { Bits.MultipleSize(a - 1, d); assert (a - 1) * d == a * d - d; }
    }
    HalvesTwice(n, d, a, r);
  }

  lemma {:induction false} HalvesTwice(n: nat, d: nat, a: nat, r: nat)
    requires r < d && n == a * d + r
    ensures n / (2 * d) == a / 2
  {
    var h, e := a / 2, a % 2;
    assert a * d == h * (2 * d) + e * d by {
      assert a == 2 * h + e;
      assert (2 * h + e) * d == h * (2 * d) + e * d;
    }
    if e == 0 {
      Bits.ModUnique(n, 2 * d, h, r);
    } else {
      Bits.ModUnique(n, 2 * d, h, d + r);
    }
  }

  lemma {:induction false} HeightIsLog(n: nat, i: nat)
    requires 0 < n
    ensures Height(n, i) == Log2(n / (i + 1))
    decreases n - i
  {
    HalfQuotient(n, i + 1);
    if 2 * i + 1 < n {
      HeightIsLog(n, 2 * i + 1);
    }
  }

  /** The heights of the nodes 0..m of a heap of n. */
  function TotalHeight(n: nat, m: nat): nat {
    if m == 0 then 0 else TotalHeight(n, m - 1) + Height(n, m - 1)
  }

  /** Halving the heap takes one level off each node that has one. */
  lemma {:induction false} TotalHeightHalves(n: nat, m: nat)
    requires 0 < n && m <= n / 2
    ensures TotalHeight(n, m) == m + TotalHeight(n / 2, m)
  {
    if m != 0 {
      TotalHeightHalves(n, m - 1);
      HeightIsLog(n, m - 1);
      HeightIsLog(n / 2, m - 1);
      HalfQuotient(n, m);
    }
  }

  lemma {:induction false} LeavesHaveNoHeight(n: nat, m: nat)
    requires n / 2 <= m <= n
    ensures TotalHeight(n, m) == TotalHeight(n, n / 2)
  {
    if n / 2 < m {
      LeavesHaveNoHeight(n, m - 1);
    }
  }

  /** All heights together are less than the number of nodes. */
  lemma {:induction false} TotalHeightLinear(n: nat)
    requires 0 < n
    ensures TotalHeight(n, n) < n
  {
    LeavesHaveNoHeight(n, n);
    TotalHeightHalves(n, n / 2);
    if 1 < n {
      TotalHeightLinear(n / 2);
    }
  }
}
