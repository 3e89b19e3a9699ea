/** A raw buffer seen as `n` elements of `width` bytes, the byte-wise swap, and caller-supplied comparators. */
module Elements {
  import opened Memory
  import Heap

  type Elem = seq<Byte>

  /** The elements at base, base + width, ... of memory m. */
  function Elems(m: seq<Byte>, base: nat, width: nat, n: nat): (s: seq<Elem>)
    requires base + n * width <= |m|
    ensures |s| == n
    decreases n
  {
    if n == 0 then [] else
      Apart(n - 1, n, width);
      Elems(m, base, width, n - 1) + [m[base + (n - 1) * width..base + n * width]]
  }

  lemma {:induction false} Apart(i: nat, j: nat, width: nat)
    requires i < j
    ensures i * width + width <= j * width
  {
    Grow(j - i - 1, width);
    assert (j - i - 1) * width == j * width - i * width - width;
  }

  lemma {:induction false} Grow(k: nat, width: nat)
    ensures 0 <= k * width
  {
  }

  lemma {:induction false} ElemAt(m: seq<Byte>, base: nat, width: nat, n: nat, i: nat)
    requires base + n * width <= |m| && i < n
    ensures i * width + width <= n * width
    ensures Elems(m, base, width, n)[i] == m[base + i * width..base + i * width + width]
    decreases n
  {
    Apart(i, n, width);
    if i < n - 1 {
      Apart(n - 1, n, width);
      ElemAt(m, base, width, n - 1, i);
    } else {
      assert n * width == i * width + width;
    }
  }

  /** Memory m' is m with the w bytes at p and the w bytes at q exchanged. */
  ghost predicate Exchanged(m': seq<Byte>, m: seq<Byte>, p: nat, q: nat, w: nat) {
    |m'| == |m| && p + w <= |m| && q + w <= |m| &&
    forall k {:trigger m'[k]} :: 0 <= k < |m| ==>
      m'[k] == if p <= k < p + w then m[q + (k - p)] else if q <= k < q + w then m[p + (k - q)] else m[k]
  }

  /** swap_bytes. Its caller owes that the regions do not overlap. */
  method SwapBytes(a: array<Byte>, p: nat, q: nat, width: nat)
    requires p + width <= a.Length && q + width <= a.Length && (p + width <= q || q + width <= p)
    modifies a
    ensures Exchanged(a[..], old(a[..]), p, q, width)
  {
    var i := 0;
    while i < width
      invariant 0 <= i <= width
      invariant Exchanged(a[..], old(a[..]), p, q, i)
    {
      var t := a[p + i];
      a[p + i] := a[q + i];
      a[q + i] := t;
      i := i + 1;
    }
  }

  ghost predicate SameOutside(m': seq<Byte>, m: seq<Byte>, lo: nat, hi: nat) {
    |m'| == |m| && forall k {:trigger m'[k]} :: 0 <= k < |m| && !(lo <= k < hi) ==> m'[k] == m[k]
  }

  lemma {:induction false} ExchangedChunk(m': seq<Byte>, m: seq<Byte>, p: nat, q: nat, w: nat, at: nat)
    requires Exchanged(m', m, p, q, w) && at + w <= |m| && (p + w <= q || q + w <= p)
    requires at == p || at == q || ((at + w <= p || p + w <= at) && (at + w <= q || q + w <= at))
    ensures m'[at..at + w] == if at == p then m[q..q + w] else if at == q then m[p..p + w] else m[at..at + w]
  {
    var want := if at == p then m[q..q + w] else if at == q then m[p..p + w] else m[at..at + w];
    forall k | 0 <= k < w
      ensures m'[at..at + w][k] == want[k]
    {
    }
  }

  lemma {:induction false} ExchangedElemAt(m': seq<Byte>, m: seq<Byte>, base: nat, width: nat, n: nat,
                                           i: nat, j: nat, k: nat)
    requires base + n * width <= |m| && |m'| == |m| && i < n && j < n && i != j && k < n
    requires 0 <= i * width && 0 <= j * width && Exchanged(m', m, base + i * width, base + j * width, width)
    ensures Elems(m', base, width, n)[k] ==
            Elems(m, base, width, n)[if k == i then j else if k == j then i else k]
  {
    hide Elems, Exchanged;
    ElemAt(m, base, width, n, i);
    ElemAt(m, base, width, n, j);
    ElemAt(m, base, width, n, k);
    ElemAt(m', base, width, n, k);
    Grow(k, width);
    OrderApart(i, j, width);
    if k != i {
      OrderApart(i, k, width);
    }
    if k != j {
      OrderApart(j, k, width);
    }
    ExchangedChunk(m', m, base + i * width, base + j * width, width, base + k * width);
  }

  /** Exchanging the bytes of elements i and j swaps the two elements and nothing else. */
  lemma {:induction false} ExchangedElems(m': seq<Byte>, m: seq<Byte>, base: nat, width: nat, n: nat, i: nat, j: nat)
    requires base + n * width <= |m| && |m'| == |m| && i < n && j < n && i != j
    requires 0 <= i * width && 0 <= j * width && Exchanged(m', m, base + i * width, base + j * width, width)
    ensures Elems(m', base, width, n) == Heap.Swap(Elems(m, base, width, n), i, j)
    ensures SameOutside(m', m, base, base + n * width)
  {
    hide Elems, Exchanged;
    var s, t := Elems(m, base, width, n), Elems(m', base, width, n);
    forall k: nat | k < n
      ensures t[k] == s[if k == i then j else if k == j then i else k]
    {
      ExchangedElemAt(m', m, base, width, n, i, j, k);
    }
    assert t == Heap.Swap(s, i, j);
    ElemAt(m, base, width, n, i);
    ElemAt(m, base, width, n, j);
    ExchangedOutside(m', m, base, base + i * width, base + j * width, width, base + n * width);
  }

  lemma {:induction false} ExchangedOutside(m': seq<Byte>, m: seq<Byte>, lo: nat, p: nat, q: nat, w: nat, hi: nat)
    requires Exchanged(m', m, p, q, w) && lo <= p && lo <= q && p + w <= hi && q + w <= hi
    ensures SameOutside(m', m, lo, hi)
  {
  }

  lemma {:induction false} OrderApart(i: nat, k: nat, width: nat)
    requires i != k
    ensures i * width + width <= k * width || k * width + width <= i * width
  {
    if i < k {
      Apart(i, k, width);
    } else {
      Apart(k, i, width);
    }
  }

  /**
   A comparator as its caller sees it. What it answers may depend on how often it has been called before,
   which covers every stateful or inconsistent comparator along a given run.
   */
  class Comparator {
    const answer: (nat, Elem, Elem) -> int
    var calls: nat

    constructor (f: (nat, Elem, Elem) -> int)
      ensures answer == f && calls == 0
    {
      answer, calls := f, 0;
    }

    /** On the objects in dom it consistently compares by le; others may get any answer. */
    ghost predicate Agrees(le: (Elem, Elem) -> bool, dom: set<Elem>)
    {
      forall k: nat, x: Elem, y: Elem :: x in dom && y in dom ==>
        (answer(k, x, y) <= 0 <==> le(x, y)) && (answer(k, x, y) >= 0 <==> le(y, x))
    }

    method Compare(x: Elem, y: Elem) returns (r: int)
      modifies this
      ensures r == answer(old(calls), x, y) && calls == old(calls) + 1
    {
      r := answer(calls, x, y);
      calls := calls + 1;
    }
  }
}
