/** bsearch: halving a sorted array of raw elements. */
module Bsearch {
  import opened Memory
  import opened Elements
  import opened Heap
  import opened Heapsort

  /** The comparator finds x and y equal. */
  ghost predicate Equal(le: (Elem, Elem) -> bool, x: Elem, y: Elem) {
    le(x, y) && le(y, x)
  }

  function Sign(x: int): int {
    if x < 0 then -1 else if x == 0 then 0 else 1
  }

  /**
   What section 7.22.5.1 of ISO C11 asks of key and array: first the elements below the key, then those equal
   to it, then those above, in the eyes of the comparator, which does not change its mind.
   */
  ghost predicate Partitioned(cmp: Comparator, key: Elem, s: seq<Elem>) {
    forall i, j, k: nat, l: nat :: 0 <= i <= j < |s| ==>
      Sign(cmp.answer(k, key, s[i])) >= Sign(cmp.answer(l, key, s[j]))
  }

  /** The comparator never finds an element of s equal to the key. */
  ghost predicate Absent(cmp: Comparator, key: Elem, s: seq<Elem>) {
    forall i, k: nat :: 0 <= i < |s| ==> cmp.answer(k, key, s[i]) != 0
  }

  /** The elements before lo compare below the key, those from hi on above it. */
  ghost predicate Excluded(cmp: Comparator, key: Elem, s: seq<Elem>, lo: nat, hi: nat)
    requires lo <= hi <= |s|
  {
    && (forall i, k: nat :: 0 <= i < lo ==> 0 < cmp.answer(k, key, s[i]))
    && (forall i, k: nat :: hi <= i < |s| ==> cmp.answer(k, key, s[i]) < 0)
  }

  /** An array sorted by a total preorder of its elements and the key is partitioned by the key. */
  lemma {:induction false} SortedIsPartitioned(cmp: Comparator, key: Elem, s: seq<Elem>,
                                               dom: set<Elem>, le: (Elem, Elem) -> bool)
    requires Consistent(cmp, le, dom) && Within(s, dom) && key in dom && Sorted(s, le)
    ensures Partitioned(cmp, key, s)
    ensures forall i, k: nat :: 0 <= i < |s| ==> (cmp.answer(k, key, s[i]) == 0 <==> Equal(le, key, s[i]))
  {
    forall i, j, k: nat, l: nat | 0 <= i <= j < |s|
      ensures Sign(cmp.answer(k, key, s[i])) >= Sign(cmp.answer(l, key, s[j]))
    {
      assert i < j ==> le(s[i], s[j]);
    }
  }

  /** The number of comparisons halving needs for n elements. */
  function Halvings(n: nat): nat {
    if n == 0 then 0 else Log2(n) + 1
  }

  lemma {:induction false} HalvingsIs(n: nat)
    ensures Halvings(n) == if n == 0 then 0 else Log2(n) + 1
  {
  }

  lemma {:induction false} HalvingsStep(n: nat, k: nat)
    requires 0 < n && k <= n / 2
    ensures Halvings(k) + 1 <= Halvings(n)
  {
    if 0 < k {
      LogMonotone(k, n / 2);
    }
  }

  lemma {:induction false} LogMonotone(m: nat, n: nat)
    requires m <= n
    ensures Log2(m) <= Log2(n)
    decreases n
  {
    if 2 <= m {
      LogMonotone(m / 2, n / 2);
    }
  }

  lemma {:induction false} ExcludeLower(cmp: Comparator, key: Elem, s: seq<Elem>, lo: nat, hi: nat, mid: nat, call: nat)
    requires lo <= mid < hi <= |s| && Partitioned(cmp, key, s) && Excluded(cmp, key, s, lo, hi)
    requires 0 < cmp.answer(call, key, s[mid])
    ensures Excluded(cmp, key, s, mid + 1, hi)
  {
    forall i, k: nat | 0 <= i < mid + 1
      ensures 0 < cmp.answer(k, key, s[i])
    {
      assert Sign(cmp.answer(k, key, s[i])) >= Sign(cmp.answer(call, key, s[mid]));
    }
  }

  lemma {:induction false} ExcludeUpper(cmp: Comparator, key: Elem, s: seq<Elem>, lo: nat, hi: nat, mid: nat, call: nat)
    requires lo <= mid < hi <= |s| && Partitioned(cmp, key, s) && Excluded(cmp, key, s, lo, hi)
    requires cmp.answer(call, key, s[mid]) < 0
    ensures Excluded(cmp, key, s, lo, mid)
  {
    forall i, k: nat | mid <= i < |s|
      ensures cmp.answer(k, key, s[i]) < 0
    {
      assert Sign(cmp.answer(call, key, s[mid])) >= Sign(cmp.answer(k, key, s[i]));
    }
  }

  lemma {:induction false} NothingLeft(cmp: Comparator, key: Elem, s: seq<Elem>, lo: nat)
    requires lo <= |s| && Excluded(cmp, key, s, lo, lo)
    ensures Absent(cmp, key, s)
  {
  }

  /** The address of element i. */
  function Address(base: nat, width: nat, i: nat): nat {
    Grow(i, width);
    base + i * width
  }

  /** Compares the key with the element `half` elements past base, which is element lo. */
  method Probe(key: Elem, a: array<Byte>, base: nat, half: nat, width: nat, cmp: Comparator,
               ghost base0: nat, ghost nel0: nat, ghost lo: nat) returns (try_: nat, sign: int)
    requires base0 + nel0 * width <= a.Length && lo + half < nel0 && base == Address(base0, width, lo)
    modifies cmp
    ensures cmp.calls == old(cmp.calls) + 1
    ensures try_ == Address(base0, width, lo + half) && try_ + width == Address(base0, width, lo + half + 1)
    ensures sign == cmp.answer(old(cmp.calls), key, View(a, base0, width, nel0)[lo + half])
  {
    hide View;
    Step(base0, width, lo, half);
    Step(base0, width, lo + half, 1);
    try_ := base + width * half;
    ElemAtView(a, base0, width, nel0, lo + half);
    sign := cmp.Compare(key, a[try_..try_ + width]);
  }

  lemma {:induction false} Step(base: nat, width: nat, lo: nat, k: nat)
    ensures Address(base, width, lo + k) == Address(base, width, lo) + width * k
  {
    assert (lo + k) * width == lo * width + width * k;
  }

  /**
   Any pointer returned is that of an element which the comparator, asked last, declared equal to the key.
   If the key partitions the array, NULL is returned exactly when no element compares equal to it.
   */
  method Search(key: Elem, a: array<Byte>, base0: nat, nel0: nat, width: nat, cmp: Comparator)
    returns (p: Ptr, ghost found: nat)
    requires base0 + nel0 * width <= a.Length
    modifies cmp
    ensures old(cmp.calls) <= cmp.calls <= old(cmp.calls) + Halvings(nel0)
    ensures cmp.calls <= old(cmp.calls) + if nel0 == 0 then 0 else Log2(nel0) + 1
    ensures p != Null ==>
              && found < nel0 && p == At(Address(base0, width, found))
              && old(cmp.calls) < cmp.calls
              && cmp.answer(cmp.calls - 1, key, View(a, base0, width, nel0)[found]) == 0
    ensures Partitioned(cmp, key, View(a, base0, width, nel0)) ==>
              (p == Null <==> Absent(cmp, key, View(a, base0, width, nel0)))
  {
    hide View, Elems, Partitioned, Excluded, Halvings, Address;
    ghost var s := View(a, base0, width, nel0);
    ghost var lo: nat := 0;
    found := 0;
    var base: nat, nel: nat := base0, nel0;
    NothingExcluded(cmp, key, s);
    HalvingsIs(nel0);
    FirstAddress(base0, width);
    while 0 < nel
      invariant lo + nel <= nel0 && base == Address(base0, width, lo)
      invariant cmp.calls + Halvings(nel) <= old(cmp.calls) + Halvings(nel0)
      invariant old(cmp.calls) <= cmp.calls
      invariant Partitioned(cmp, key, s) ==> Excluded(cmp, key, s, lo, lo + nel)
      decreases nel
    {
      ghost var mid, call := lo + nel / 2, cmp.calls;
      var try_, sign := Probe(key, a, base, nel / 2, width, cmp, base0, nel0, lo);
      if sign < 0 {
        if Partitioned(cmp, key, s) {
          ExcludeUpper(cmp, key, s, lo, lo + nel, mid, call);
        }
        HalvingsStep(nel, nel / 2);
        nel := nel / 2;
      } else if 0 < sign {
        if Partitioned(cmp, key, s) {
          ExcludeLower(cmp, key, s, lo, lo + nel, mid, call);
        }
        HalvingsStep(nel, nel - (nel / 2 + 1));
        base := try_ + width;
        nel := nel - (nel / 2 + 1);
        lo := mid + 1;
      } else {
        HalvingsStep(nel, 0);
        found := mid;
        return At(try_), found;
      }
    }
    if Partitioned(cmp, key, s) {
      NothingLeft(cmp, key, s, lo);
    }
    p := Null;
  }

  lemma {:induction false} FirstAddress(base: nat, width: nat)
    ensures Address(base, width, 0) == base
  {
  }

  lemma {:induction false} NothingExcluded(cmp: Comparator, key: Elem, s: seq<Elem>)
    ensures Excluded(cmp, key, s, 0, |s|)
  {
  }

  lemma {:induction false} ElemAtView(a: array<Byte>, base: nat, width: nat, n: nat, i: nat)
    requires base + n * width <= a.Length && i < n
    ensures 0 <= i * width && base + i * width + width <= a.Length
    ensures View(a, base, width, n)[i] == a[base + i * width..base + i * width + width]
  {
    Grow(i, width);
    ElemAt(a[..], base, width, n, i);
  }

  /**
   qsort, then bsearch with the same comparator, a total preorder of the elements and the key: an element is
   found exactly when the original array had one equal to the key. `sorted` is the number of calls after qsort.
   */
  method SortThenSearch(key: Elem, a: array<Byte>, base: nat, nel: nat, width: nat, cmp: Comparator,
                        ghost le: (Elem, Elem) -> bool) returns (p: Ptr, ghost found: nat, ghost sorted: nat)
    requires base + nel * width <= a.Length
    requires Consistent(cmp, le, Objects(View(a, base, width, nel)) + {key})
    modifies a, cmp
    ensures SameOutside(a[..], old(a[..]), base, base + nel * width)
    ensures multiset(View(a, base, width, nel)) == multiset(old(View(a, base, width, nel)))
    ensures Sorted(View(a, base, width, nel), le)
    ensures p != Null <==> exists i :: 0 <= i < nel && Equal(le, key, old(View(a, base, width, nel))[i])
    ensures p != Null ==> found < nel && p == At(Address(base, width, found))
    ensures p != Null ==> Equal(le, key, View(a, base, width, nel)[found])
    ensures sorted <= old(cmp.calls) + Bound(nel) && sorted <= cmp.calls <= sorted + Halvings(nel)
  {
    hide View, Sorted, TotalPreorder, Bound, Halvings, Equal, Objects, SameOutside, Address, Partitioned;
    ghost var s := View(a, base, width, nel);
    ghost var dom := Objects(s) + {key};
    FewerObjects(cmp, le, dom, Objects(s));
    Sort(a, base, nel, width, cmp, le);
    ghost var t := View(a, base, width, nel);
    SameObjects(t, s, dom);
    SortedIsPartitioned(cmp, key, t, dom, le);
    sorted := cmp.calls;
    p, found := Search(key, a, base, nel, width, cmp);
    if p != Null {
      ghost var i := SameElement(t, s, found);
    } else {
      forall i | 0 <= i < nel
        ensures !Equal(le, key, s[i])
      {
        var j := SameElement(s, t, i);
        assert cmp.answer(0, key, t[j]) != 0;
      }
    }
  }

  lemma {:induction false} FewerObjects(cmp: Comparator, le: (Elem, Elem) -> bool, dom: set<Elem>, sub: set<Elem>)
    requires Consistent(cmp, le, dom) && sub <= dom
    ensures Consistent(cmp, le, sub)
  {
  }

  lemma {:induction false} SameObjects(t: seq<Elem>, s: seq<Elem>, dom: set<Elem>)
    requires multiset(t) == multiset(s) && Within(s, dom)
    ensures Within(t, dom)
  {
    forall k | 0 <= k < |t|
      ensures t[k] in dom
    {
      var j := SameElement(t, s, k);
    }
  }
}
