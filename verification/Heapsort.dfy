/** qsort: in-place heapsort over raw elements with a caller-supplied comparator. */
module Heapsort {
  import opened Memory
  import opened Elements
  import opened Heap

  ghost function View(a: array<Byte>, base: nat, width: nat, n: nat): (s: seq<Elem>)
    requires base + n * width <= a.Length
    reads a
    ensures |s| == n
  {
    Elems(a[..], base, width, n)
  }

  /** On the objects in dom the comparator is a total preorder, as section 7.22.5 of ISO C11 asks of it. */
  ghost predicate Consistent(cmp: Comparator, le: (Elem, Elem) -> bool, dom: set<Elem>) {
    cmp.Agrees(le, dom) && TotalPreorder(le, dom)
  }

  method CompareAt(a: array<Byte>, base: nat, width: nat, i: nat, j: nat, cmp: Comparator, ghost total: nat) returns (r: int)
    requires base + total * width <= a.Length && i < total && j < total
    modifies cmp
    ensures cmp.calls == old(cmp.calls) + 1
    ensures r == cmp.answer(old(cmp.calls), View(a, base, width, total)[i], View(a, base, width, total)[j])
  {
    hide Elems;
    ElemAt(a[..], base, width, total, i);
    ElemAt(a[..], base, width, total, j);
    r := cmp.Compare(a[base + i * width..base + i * width + width], a[base + j * width..base + j * width + width]);
  }

  /** Never called with i == j. */
  method SwapAt(a: array<Byte>, base: nat, width: nat, i: nat, j: nat, ghost total: nat)
    requires base + total * width <= a.Length && i < total && j < total && i != j
    modifies a
    ensures View(a, base, width, total) == Swap(old(View(a, base, width, total)), i, j)
    ensures SameOutside(a[..], old(a[..]), base, base + total * width)
  {
    hide Elems, Exchanged, SameOutside, Swap;
    ElemAt(a[..], base, width, total, i);
    ElemAt(a[..], base, width, total, j);
    OrderApart(i, j, width);
    ghost var m := a[..];
    SwapBytes(a, base + i * width, base + j * width, width);
    ExchangedElems(a[..], m, base, width, total, i, j);
  }

  /** The first n elements of t are those of s in some order, the others are the same. */
  ghost predicate Permuted(t: seq<Elem>, s: seq<Elem>, n: nat) {
    |t| == |s| && n <= |s| && multiset(t[..n]) == multiset(s[..n]) && t[n..] == s[n..]
  }

  lemma {:induction false} PermutedSwap(t: seq<Elem>, s: seq<Elem>, n: nat, i: nat, j: nat)
    requires Permuted(t, s, n) && i < n && j < n
    ensures Permuted(Swap(t, i, j), s, n)
  {
    assert Swap(t, i, j)[..n] == Swap(t[..n], i, j);
    assert Swap(t, i, j)[n..] == t[n..];
  }

  /** The larger of the two children of i, when there are two. */
  method LargerChild(a: array<Byte>, base: nat, width: nat, n: nat, i: nat, cmp: Comparator,
                     ghost total: nat, ghost dom: set<Elem>, ghost le: (Elem, Elem) -> bool) returns (child: nat)
    requires base + total * width <= a.Length && 2 * i + 1 < n <= total
    requires Within(View(a, base, width, total), dom)
    modifies cmp
    ensures child == 2 * i + 1 || (child == 2 * i + 2 && child < n)
    ensures cmp.calls <= old(cmp.calls) + 1
    ensures Consistent(cmp, le, dom) ==>
              forall k: nat :: 0 < k < n && Parent(k) == i ==>
                le(View(a, base, width, total)[k], View(a, base, width, total)[child])
  {
    hide View;
    child := 2 * i + 1;
    ghost var s := View(a, base, width, total);
    assert forall k: nat :: 0 < k < n && Parent(k) == i ==> k == 2 * i + 1 || k == 2 * i + 2;
    assert TotalPreorder(le, dom) ==> le(s[child], s[child]);
    if child + 1 < n {
      assert TotalPreorder(le, dom) ==> le(s[child + 1], s[child + 1]);
      ghost var calls := cmp.calls;
      var r := CompareAt(a, base, width, child, child + 1, cmp, total);
      assert Consistent(cmp, le, dom) ==> (r <= 0 <==> le(s[child], s[child + 1])) && (r >= 0 <==> le(s[child + 1], s[child]));
      if r < 0 {
        child := child + 1;
      }
    }
  }

  /** One turn of sift_down: a parent below its larger child changes places with it. */
  method SwapDown(a: array<Byte>, base: nat, n: nat, width: nat, i: nat, child: nat, ghost total: nat, ghost lo: nat,
                  ghost m: seq<Byte>, ghost s0: seq<Elem>, ghost le: (Elem, Elem) -> bool)
    requires base + total * width <= a.Length && i < child < n <= total && Parent(child) == i && lo <= i
    requires SameOutside(a[..], m, base, base + total * width)
    requires Permuted(View(a, base, width, total), s0, n)
    modifies a
    ensures View(a, base, width, total) == Swap(old(View(a, base, width, total)), i, child)
    ensures SameOutside(a[..], m, base, base + total * width)
    ensures Permuted(View(a, base, width, total), s0, n)
    ensures var s := old(View(a, base, width, total));
            Sifting(s, n, lo, i, le) && le(s[i], s[child]) &&
            (forall k: nat :: 0 < k < n && Parent(k) == i ==> le(s[k], s[child])) ==>
              Sifting(View(a, base, width, total), n, lo, child, le)
  {
    hide View, SameOutside, Permuted, Sifting;
    ghost var s, was := View(a, base, width, total), a[..];
    SwapAt(a, base, width, i, child, total);
    SameOutsideTwice(a[..], was, m, base, base + total * width);
    PermutedSwap(s, s0, n, i, child);
    if Sifting(s, n, lo, i, le) && le(s[i], s[child]) &&
       forall k: nat :: 0 < k < n && Parent(k) == i ==> le(s[k], s[child])
    {
      SiftStep(s, n, lo, i, child, le);
    }
  }

  /** The turn's two comparisons, and the exchange they may lead to. */
  method SiftTurn(a: array<Byte>, base: nat, n: nat, width: nat, i: nat, cmp: Comparator, ghost total: nat, ghost lo: nat,
                  ghost m: seq<Byte>, ghost s0: seq<Elem>, ghost dom: set<Elem>, ghost le: (Elem, Elem) -> bool) returns (done: bool, child: nat)
    requires base + total * width <= a.Length && 2 * i + 1 < n <= total && lo <= i
    requires SameOutside(a[..], m, base, base + total * width)
    requires Permuted(View(a, base, width, total), s0, n)
    requires Within(s0, dom)
    modifies a, cmp
    ensures SameOutside(a[..], m, base, base + total * width)
    ensures Permuted(View(a, base, width, total), s0, n)
    ensures cmp.calls <= old(cmp.calls) + 2 && 2 * i + 1 <= child < n
    ensures Consistent(cmp, le, dom) && Sifting(old(View(a, base, width, total)), n, lo, i, le) ==>
              if done then HeapFrom(View(a, base, width, total), n, lo, le)
              else Sifting(View(a, base, width, total), n, lo, child, le)
  {
    hide View, SameOutside, Permuted, Sifting, HeapFrom, TotalPreorder;
    ghost var s := View(a, base, width, total);
    PermutedWithin(s, s0, n, dom);
    child := LargerChild(a, base, width, n, i, cmp, total, dom, le);
    var r := CompareAt(a, base, width, i, child, cmp, total);
    assert Consistent(cmp, le, dom) ==> (r <= 0 <==> le(s[i], s[child])) && (r >= 0 <==> le(s[child], s[i]));
    done := 0 <= r;
    if done {
      if Consistent(cmp, le, dom) {
        LargerChildSuffices(s, n, lo, i, child, dom, le);
      }
    } else {
      SwapDown(a, base, n, width, i, child, total, lo, m, s0, le);
    }
  }

  /** sift_down from i0 over the first n elements. */
  method SiftDown(a: array<Byte>, base: nat, n: nat, width: nat, i0: nat, cmp: Comparator,
                  ghost total: nat, ghost lo: nat, ghost dom: set<Elem>, ghost le: (Elem, Elem) -> bool)
    requires base + total * width <= a.Length && n <= total && lo <= i0
    requires Within(View(a, base, width, total), dom)
    modifies a, cmp
    ensures SameOutside(a[..], old(a[..]), base, base + total * width)
    ensures Permuted(View(a, base, width, total), old(View(a, base, width, total)), n)
    ensures cmp.calls <= old(cmp.calls) + 2 * Height(n, i0)
    ensures Consistent(cmp, le, dom) && Sifting(old(View(a, base, width, total)), n, lo, i0, le) ==>
              HeapFrom(View(a, base, width, total), n, lo, le)
  {
    hide View, SameOutside, Permuted, Sifting, HeapFrom, TotalPreorder;
    var i := i0;
    ghost var s, m := View(a, base, width, total), a[..];
    StartPermuted(m, s, base, base + total * width, n);
    while true
      invariant i0 <= i
      invariant SameOutside(a[..], m, base, base + total * width)
      invariant Permuted(View(a, base, width, total), s, n)
      invariant cmp.calls + 2 * Height(n, i) <= old(cmp.calls) + 2 * Height(n, i0)
      invariant Consistent(cmp, le, dom) && Sifting(s, n, lo, i0, le) ==>
                  Sifting(View(a, base, width, total), n, lo, i, le)
      decreases n - i
    {
      if n <= 2 * i + 1 {
        NoChildren(View(a, base, width, total), n, lo, i, le);
        return;
      }
      var done, child := SiftTurn(a, base, n, width, i, cmp, total, lo, m, s, dom, le);
      if done {
        return;
      }
      HeightMonotone(n, 2 * i + 1, child);
      i := child;
    }
  }

  lemma {:induction false} StartPermuted(m: seq<Byte>, s: seq<Elem>, lo: nat, hi: nat, n: nat)
    requires n <= |s|
    ensures SameOutside(m, m, lo, hi) && Permuted(s, s, n)
  {
  }

  lemma {:induction false} SameOutsideTwice(m'': seq<Byte>, m': seq<Byte>, m: seq<Byte>, lo: nat, hi: nat)
    requires SameOutside(m'', m', lo, hi) && SameOutside(m', m, lo, hi)
    ensures SameOutside(m'', m, lo, hi)
  {
  }

  lemma {:induction false} NoChildren(s: seq<Elem>, n: nat, lo: nat, i: nat, le: (Elem, Elem) -> bool)
    requires n <= |s| && n <= 2 * i + 1
    ensures Sifting(s, n, lo, i, le) ==> HeapFrom(s, n, lo, le)
  {
    if Sifting(s, n, lo, i, le) {
      SiftDone(s, n, lo, i, le);
    }
  }

  lemma {:induction false} LargerChildSuffices(s: seq<Elem>, n: nat, lo: nat, i: nat, c: nat, dom: set<Elem>, le: (Elem, Elem) -> bool)
    requires TotalPreorder(le, dom) && Within(s, dom) && i < c < n <= |s| && le(s[c], s[i])
    requires forall k: nat :: 0 < k < n && Parent(k) == i ==> le(s[k], s[c])
    ensures Sifting(s, n, lo, i, le) ==> HeapFrom(s, n, lo, le)
  {
    if Sifting(s, n, lo, i, le) {
      SiftDone(s, n, lo, i, le);
    }
  }

  lemma {:induction false} PermutedWithin(t: seq<Elem>, s: seq<Elem>, n: nat, dom: set<Elem>)
    requires Permuted(t, s, n) && Within(s, dom)
    ensures Within(t, dom)
  {
    forall k | 0 <= k < |t|
      ensures t[k] in dom
    {
      if k < n {
        var j := SameElement(t[..n], s[..n], k);
      } else {
        assert t[k] == t[n..][k - n] == s[n..][k - n];
      }
    }
  }

  lemma {:induction false} PermutedWider(u: seq<Elem>, t: seq<Elem>, s: seq<Elem>, k: nat, n: nat)
    requires k <= n && Permuted(u, t, k) && Permuted(t, s, n)
    ensures Permuted(u, s, n)
  {
    assert u[..n] == u[..k] + u[k..][..n - k];
    assert t[..n] == t[..k] + t[k..][..n - k];
    assert u[n..] == u[k..][n - k..] && t[n..] == t[k..][n - k..];
  }

  /** The first phase: every node with a child is sifted down, from the last one to the root. */
  method BuildHeap(a: array<Byte>, base: nat, n: nat, width: nat, cmp: Comparator, ghost dom: set<Elem>, ghost le: (Elem, Elem) -> bool)
    requires base + n * width <= a.Length && 2 <= n
    requires Within(View(a, base, width, n), dom)
    modifies a, cmp
    ensures SameOutside(a[..], old(a[..]), base, base + n * width)
    ensures Permuted(View(a, base, width, n), old(View(a, base, width, n)), n)
    ensures cmp.calls < old(cmp.calls) + 2 * n
    ensures Consistent(cmp, le, dom) ==> HeapFrom(View(a, base, width, n), n, 0, le)
  {
    hide View, SameOutside, Permuted, Sifting, HeapFrom, TotalPreorder;
    ghost var s, m := View(a, base, width, n), a[..];
    StartPermuted(m, s, base, base + n * width, n);
    NothingAbove(s, n, le);
    var i := n / 2;
    while 0 < i
      invariant 0 <= i <= n / 2
      invariant SameOutside(a[..], m, base, base + n * width)
      invariant Permuted(View(a, base, width, n), s, n)
      invariant cmp.calls + 2 * TotalHeight(n, i) <= old(cmp.calls) + 2 * TotalHeight(n, n / 2)
      invariant Consistent(cmp, le, dom) ==> HeapFrom(View(a, base, width, n), n, i, le)
    {
      i := i - 1;
      ghost var was, t := a[..], View(a, base, width, n);
      PermutedWithin(t, s, n, dom);
      NextSifting(t, n, i, le);
      SiftDown(a, base, n, width, i, cmp, n, i, dom, le);
      SameOutsideTwice(a[..], was, m, base, base + n * width);
      PermutedWider(View(a, base, width, n), t, s, n, n);
    }
    LeavesHaveNoHeight(n, n);
    TotalHeightLinear(n);
  }

  lemma {:induction false} NothingAbove(s: seq<Elem>, n: nat, le: (Elem, Elem) -> bool)
    requires n <= |s|
    ensures HeapFrom(s, n, n / 2, le)
  {
  }

  lemma {:induction false} NextSifting(s: seq<Elem>, n: nat, i: nat, le: (Elem, Elem) -> bool)
    requires n <= |s|
    ensures HeapFrom(s, n, i + 1, le) ==> Sifting(s, n, i, i, le)
  {
  }

  lemma {:induction false} RootReplaced(s: seq<Elem>, end: nat, le: (Elem, Elem) -> bool)
    requires 0 < end < |s|
    ensures HeapFrom(s, end + 1, 0, le) ==> Sifting(Swap(s, 0, end), end, 0, 0, le)
  {
    var t := Swap(s, 0, end);
    assert forall k: nat :: 0 < k < end ==> t[k] == s[k];
    assert forall k: nat :: 0 < k < end ==> Parent(k) < end;
  }

  /** One turn of the second phase: the greatest element goes behind the heap, which is repaired. */
  method Extract(a: array<Byte>, base: nat, n: nat, width: nat, end: nat, cmp: Comparator, ghost dom: set<Elem>, ghost le: (Elem, Elem) -> bool)
    requires base + n * width <= a.Length && 0 < end < n
    requires Within(View(a, base, width, n), dom)
    modifies a, cmp
    ensures SameOutside(a[..], old(a[..]), base, base + n * width)
    ensures Permuted(View(a, base, width, n), old(View(a, base, width, n)), n)
    ensures cmp.calls <= old(cmp.calls) + 2 * Log2(n)
    ensures Consistent(cmp, le, dom) && HeapFrom(old(View(a, base, width, n)), end + 1, 0, le) &&
            SortedFrom(old(View(a, base, width, n)), end + 1, le) ==>
              HeapFrom(View(a, base, width, n), end, 0, le) && SortedFrom(View(a, base, width, n), end, le)
  {
    hide View, SameOutside, Sifting, HeapFrom, TotalPreorder, SortedFrom, Swap, Permuted;
    ghost var s, m := View(a, base, width, n), a[..];
    StartPermuted(m, s, base, base + n * width, n);
    SwapAt(a, base, width, 0, end, n);
    PermutedSwap(s, s, n, 0, end);
    ghost var was := a[..];
    RootReplaced(s, end, le);
    PermutedWithin(View(a, base, width, n), s, n, dom);
    SiftDown(a, base, end, width, 0, cmp, n, 0, dom, le);
    SameOutsideTwice(a[..], was, m, base, base + n * width);
    ghost var t := View(a, base, width, n);
    PermutedWider(t, Swap(s, 0, end), s, end, n);
    HeightGrows(end, n, 0);
    HeightIsLog(n, 0);
    if Consistent(cmp, le, dom) && HeapFrom(s, end + 1, 0, le) && SortedFrom(s, end + 1, le) {
      PermutedParts(t, Swap(s, 0, end), end);
      ExtractStep(s, t, end, dom, le);
    }
  }

  lemma {:induction false} PermutedParts(t: seq<Elem>, s: seq<Elem>, n: nat)
    requires Permuted(t, s, n)
    ensures |t| == |s| && n <= |s| && multiset(t[..n]) == multiset(s[..n]) && t[n..] == s[n..]
  {
  }

  /** n (1 + log n), twice. */
  function Bound(n: nat): nat {
    2 * (n * (1 + Log2(n)))
  }

  /** The cost of k turns of at most l comparisons each. */
  function Turns(k: nat, l: nat): (t: nat)
    ensures t == k * l
  {
    if k == 0 then 0 else Turns(k - 1, l) + l
  }

  lemma {:induction false} BoundAlgebra(n: nat, l: nat)
    requires 0 < n && l == Log2(n)
    ensures 2 * n + 2 * Turns(n - 1, l) <= Bound(n)
  {
    assert n * (1 + l) == n + n * l;
    assert (n - 1) * l == n * l - l;
  }

  /** The second phase: extraction until one element is left. */
  method ExtractAll(a: array<Byte>, base: nat, n: nat, width: nat, cmp: Comparator, ghost dom: set<Elem>, ghost le: (Elem, Elem) -> bool)
    requires base + n * width <= a.Length && 2 <= n
    requires Within(View(a, base, width, n), dom)
    modifies a, cmp
    ensures SameOutside(a[..], old(a[..]), base, base + n * width)
    ensures Permuted(View(a, base, width, n), old(View(a, base, width, n)), n)
    ensures cmp.calls <= old(cmp.calls) + 2 * Turns(n - 1, Log2(n))
    ensures Consistent(cmp, le, dom) && HeapFrom(old(View(a, base, width, n)), n, 0, le) ==>
              Sorted(View(a, base, width, n), le)
  {
    hide View, SameOutside, Permuted, HeapFrom, TotalPreorder, Sorted, SortedFrom, Log2;
    ghost var s, m := View(a, base, width, n), a[..];
    StartPermuted(m, s, base, base + n * width, n);
    NothingBehind(s, le);
    var end := n;
    while 1 < end
      invariant 1 <= end <= n
      invariant SameOutside(a[..], m, base, base + n * width)
      invariant Permuted(View(a, base, width, n), s, n)
      invariant cmp.calls <= old(cmp.calls) + 2 * Turns(n - end, Log2(n))
      invariant Consistent(cmp, le, dom) && HeapFrom(s, n, 0, le) ==>
                  HeapFrom(View(a, base, width, n), end, 0, le) && SortedFrom(View(a, base, width, n), end, le)
    {
      end := end - 1;
      ghost var was, t := a[..], View(a, base, width, n);
      PermutedWithin(t, s, n, dom);
      Extract(a, base, n, width, end, cmp, dom, le);
      SameOutsideTwice(a[..], was, m, base, base + n * width);
      PermutedWider(View(a, base, width, n), t, s, n, n);
      assert Turns(n - end, Log2(n)) == Turns(n - end - 1, Log2(n)) + Log2(n);
    }
    SortedFromOne(View(a, base, width, n), le);
  }

  /** The objects in an array. */
  ghost function Objects(s: seq<Elem>): (dom: set<Elem>)
    ensures Within(s, dom)
    ensures forall x :: x in dom ==> x in s
  {
    set x | x in s
  }

  /**
   Whatever the comparator, heapsort leaves a permutation of the elements, touches no other byte and makes
   at most 2n(1 + log n) comparisons; a comparator that is a total preorder of the elements in the array
   gets them in ascending order.
   */
  method Sort(a: array<Byte>, base: nat, n: nat, width: nat, cmp: Comparator, ghost le: (Elem, Elem) -> bool)
    requires base + n * width <= a.Length
    modifies a, cmp
    ensures SameOutside(a[..], old(a[..]), base, base + n * width)
    ensures multiset(View(a, base, width, n)) == multiset(old(View(a, base, width, n)))
    ensures cmp.calls <= old(cmp.calls) + Bound(n)
    ensures cmp.calls <= old(cmp.calls) + 2 * (n * (1 + Log2(n)))
    ensures Consistent(cmp, le, Objects(old(View(a, base, width, n)))) ==> Sorted(View(a, base, width, n), le)
  {
    ghost var s, m := View(a, base, width, n), a[..];
    ghost var dom := Objects(s);
    StartPermuted(m, s, base, base + n * width, n);
    BoundNat(n);
    if n < 2 || width == 0 {
      TrivialSorted(m, base, width, n, dom, le);
      return;
    }
    hide View, SameOutside, Permuted, HeapFrom, TotalPreorder, Sorted, Bound, Log2, Objects;
    BuildHeap(a, base, n, width, cmp, dom, le);
    ghost var t, was := View(a, base, width, n), a[..];
    PermutedWithin(t, s, n, dom);
    ExtractAll(a, base, n, width, cmp, dom, le);
    SameOutsideTwice(a[..], was, m, base, base + n * width);
    PermutedWider(View(a, base, width, n), t, s, n, n);
    BoundAlgebra(n, Log2(n));
    PermutedWhole(View(a, base, width, n), s);
  }

  lemma {:induction false} BoundNat(n: nat)
    ensures 0 <= Bound(n) == 2 * (n * (1 + Log2(n)))
  {
  }

  lemma {:induction false} NothingBehind(s: seq<Elem>, le: (Elem, Elem) -> bool)
    ensures SortedFrom(s, |s|, le)
  {
  }

  lemma {:induction false} SortedFromOne(s: seq<Elem>, le: (Elem, Elem) -> bool)
    requires 1 <= |s|
    ensures SortedFrom(s, 1, le) ==> Sorted(s, le)
  {
  }

  lemma {:induction false} PermutedWhole(t: seq<Elem>, s: seq<Elem>)
    requires Permuted(t, s, |s|)
    ensures multiset(t) == multiset(s)
  {
    assert t[..|s|] == t && s[..|s|] == s;
  }

  lemma {:induction false} TrivialSorted(m: seq<Byte>, base: nat, width: nat, n: nat, dom: set<Elem>, le: (Elem, Elem) -> bool)
    requires base + n * width <= |m| && (n < 2 || width == 0) && Within(Elems(m, base, width, n), dom)
    ensures TotalPreorder(le, dom) ==> Sorted(Elems(m, base, width, n), le)
  {
    hide Elems;
    var s := Elems(m, base, width, n);
    if TotalPreorder(le, dom) {
      forall i, j | 0 <= i < j < |s|
        ensures le(s[i], s[j])
      {
        ElemAt(m, base, width, n, i);
        ElemAt(m, base, width, n, j);
        assert i * width == 0 && j * width == 0;
      }
    }
  }
}
