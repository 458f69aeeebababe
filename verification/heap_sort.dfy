/** The heapsort that introsort falls back on once its depth budget is spent. */
module HeapSort {
  import opened Comparing
  import opened Powers
  import opened Ordering
  import opened SwapTrace

  function Parent(low: int, c: int): (p: int)
    requires low < c
    ensures low <= p < c
  {
    low + (c - low - 1) / 2
  }

  /** No child in [low, end) whose parent is at `from` or later exceeds that parent. */
  ghost predicate HeapFrom<T(!new)>(lt: Less<T>, s: seq<T>, low: int, from: int, end: int)
    requires 0 <= low && end <= |s|
  {
    forall c :: low < c < end && from <= Parent(low, c) ==> !lt(s[Parent(low, c)], s[c])
  }

  /** As `HeapFrom`, except that `r` may be smaller than its children, which its own parent still dominates. */
  ghost predicate HeapExcept<T(!new)>(lt: Less<T>, s: seq<T>, low: int, from: int, end: int, r: int)
    requires 0 <= low <= from <= r && end <= |s|
  {
    && (forall c :: low < c < end && from <= Parent(low, c) && Parent(low, c) != r ==> !lt(s[Parent(low, c)], s[c]))
    && (forall c :: low < c < end && Parent(low, c) == r && low < r && from <= Parent(low, r) ==>
        !lt(s[Parent(low, r)], s[c]))
  }

  /** `child` is not smaller than either of the siblings at `left` and `left + 1`. */
  ghost predicate TopSibling<T(!new)>(lt: Less<T>, s: seq<T>, left: int, end: int, child: int)
    requires 0 <= left && end <= |s| && 0 <= child < |s|
  {
    && left <= child < end && child <= left + 1
    && (forall c :: left <= c <= left + 1 && c < end ==> !lt(s[child], s[c]))
  }

  lemma LargerChild<T(!new)>(lt: Less<T>, s: seq<T>, left: int, end: int, child: int)
    requires StrictWeak(lt) && 0 <= left < end <= |s|
    requires child == if left + 1 < end && lt(s[left], s[left + 1]) then left + 1 else left
    ensures TopSibling(lt, s, left, end, child)
  {
  }

  lemma SiftStart<T(!new)>(lt: Less<T>, s: seq<T>, low: int, r: int, end: int)
    requires 0 <= low <= r && end <= |s| && HeapFrom(lt, s, low, r + 1, end)
    ensures HeapExcept(lt, s, low, r, end, r)
    ensures Pow2(0) == 1
  {
  }

  lemma SiftDeeper(k: nat, low: int, root: int, high: int)
    requires low <= root && low + 2 * (root - low) + 1 <= high
    requires Pow2(k) <= root - low + 1
    ensures Pow2(k + 1) <= low + 2 * (root - low) + 1 - low + 1
    ensures k + 1 <= FloorLog2(high - low + 1)
  {
    Log2Bound(k + 1, high - low + 1);
  }

  /** Sifting may stop at a node without children. */
  lemma SiftLeaf<T(!new)>(lt: Less<T>, s: seq<T>, low: int, from: int, end: int, r: int)
    requires 0 <= low <= from <= r && end <= |s| && end <= low + 2 * (r - low) + 1
    requires HeapExcept(lt, s, low, from, end, r)
    ensures HeapFrom(lt, s, low, from, end)
  {
  }

  /** Sifting may stop at a node that its larger child does not exceed. */
  lemma SiftDone<T(!new)>(lt: Less<T>, s: seq<T>, low: int, from: int, end: int, r: int, child: int)
    requires StrictWeak(lt)
    requires 0 <= low <= from <= r < end <= |s| && 0 <= child < |s|
    requires HeapExcept(lt, s, low, from, end, r)
    requires TopSibling(lt, s, low + 2 * (r - low) + 1, end, child) && !lt(s[r], s[child])
    ensures HeapFrom(lt, s, low, from, end)
  {
  }

  lemma SiftStep<T(!new)>(lt: Less<T>, s: seq<T>, low: int, from: int, end: int, r: int, child: int)
    requires StrictWeak(lt)
    requires 0 <= low <= from <= r < end <= |s| && 0 <= child < |s|
    requires HeapExcept(lt, s, low, from, end, r)
    requires TopSibling(lt, s, low + 2 * (r - low) + 1, end, child) && lt(s[r], s[child])
    ensures HeapExcept(lt, Exchange(s, r, child), low, from, end, child)
  {
    var t := Exchange(s, r, child);
    assert Parent(low, child) == r;
    forall c | low < c < end && from <= Parent(low, c) && Parent(low, c) != child
      ensures !lt(t[Parent(low, c)], t[c])
    {
      if Parent(low, c) == r {
        assert low + 2 * (r - low) + 1 <= c <= low + 2 * (r - low) + 2;
      }
    }
  }

  /** The root of a heap is not smaller than anything in it. */
  lemma {:induction false} HeapTop<T(!new)>(lt: Less<T>, s: seq<T>, low: int, end: int, c: int)
    requires StrictWeak(lt)
    requires 0 <= low <= c < end <= |s| && HeapFrom(lt, s, low, low, end)
    ensures !lt(s[low], s[c])
    decreases c
  {
    if c > low {
      HeapTop(lt, s, low, end, Parent(low, c));
    }
  }

  method HeapSiftDown<T(!new)>(t: SwapTarget<T>, low: int, root0: int, high: int, lt: Less<T>, ghost calls0: nat)
    returns (ghost calls: nat)
    requires StrictWeak(lt)
    requires 0 <= low <= root0 && high < t.arr.Length && low <= high + 1
    requires HeapFrom(lt, t.arr[..], low, root0 + 1, high + 1)
    modifies t, t.arr
    ensures HeapFrom(lt, t.arr[..], low, root0, high + 1)
    ensures Reordered(old(t.arr[..]), old(t.log), t.arr[..], t.log, low, high + 1)
    ensures calls <= calls0 + 2 * FloorLog2(high - low + 1)
  {
    hide *;
    var root := root0;
    ghost var k: nat := 0;
    calls := calls0;
    SiftStart(lt, t.arr[..], low, root0, high + 1);
    ReorderedRefl(t.arr[..], t.log, low, high + 1);
    while true
      invariant root0 <= root
      invariant HeapExcept(lt, t.arr[..], low, root0, high + 1, root)
      invariant Reordered(old(t.arr[..]), old(t.log), t.arr[..], t.log, low, high + 1)
      invariant Pow2(k) <= root - low + 1
      invariant k > 0 ==> root <= high && k <= FloorLog2(high - low + 1)
      invariant calls <= calls0 + 2 * k
      decreases high - root
    {
      var left := low + 2 * (root - low) + 1;
      if left > high {
        SiftLeaf(lt, t.arr[..], low, root0, high + 1, root);
        return;
      }
      SiftDeeper(k, low, root, high);
      var child := left;
      var right := left + 1;
      if right <= high {
        var rightLarger;
        rightLarger, calls := Compare(lt, t.arr[child], t.arr[right], calls);
        if rightLarger {
          child := right;
        }
      }
      LargerChild(lt, t.arr[..], left, high + 1, child);
      var rootSmaller;
      rootSmaller, calls := Compare(lt, t.arr[root], t.arr[child], calls);
      if !rootSmaller {
        SiftDone(lt, t.arr[..], low, root0, high + 1, root, child);
        return;
      }
      SiftStep(lt, t.arr[..], low, root0, high + 1, root, child);
      t.SwapIn(root, child, old(t.arr[..]), old(t.log), low, high + 1);
      root := child;
      k := k + 1;
    }
  }

  lemma HeapTops<T(!new)>(lt: Less<T>, s: seq<T>, low: int, end: int)
    requires StrictWeak(lt)
    requires 0 <= low < end < |s| && HeapFrom(lt, s, low, low, end + 1)
    ensures forall c :: low <= c <= end ==> !lt(s[low], s[c])
  {
    forall c | low <= c <= end ensures !lt(s[low], s[c]) {
      HeapTop(lt, s, low, end + 1, c);
    }
  }

  /** Moving the top of the heap to its end puts it in its final place. */
  lemma PopTop<T(!new)>(lt: Less<T>, s: seq<T>, low: int, end: int, high: int)
    requires StrictWeak(lt)
    requires 0 <= low < end <= high < |s|
    requires HeapFrom(lt, s, low, low, end + 1)
    requires SortedOutside(lt, s, low, high + 1, low, end + 1)
    ensures SortedOutside(lt, Exchange(s, low, end), low, high + 1, low, end)
    ensures HeapFrom(lt, Exchange(s, low, end), low, low + 1, end)
  {
    var t := Exchange(s, low, end);
    HeapTops(lt, s, low, end);
    PermExchange(s, low, end, low, end + 1);
    SortedOutsidePerm(lt, s, t, low, high + 1, low, end + 1);
    forall p, q | low <= p < q < high + 1 && !(low <= p && q < end) ensures !lt(t[q], t[p]) {
      if q == end {
        assert t[p] == if p == low then s[end] else s[p];
      }
    }
    assert forall c :: low < c < end && low + 1 <= Parent(low, c) ==> low < Parent(low, c) < end;
  }

  lemma HeapLeaves<T(!new)>(lt: Less<T>, s: seq<T>, low: int, end: int, from: int)
    requires 0 <= low < end <= |s| && end - low - 2 < 2 * (from - low)
    ensures HeapFrom(lt, s, low, from, end)
  {
  }

  method HeapSortRange<T(!new)>(t: SwapTarget<T>, low: int, high: int, lt: Less<T>, ghost calls0: nat)
    returns (ghost calls: nat)
    requires StrictWeak(lt)
    requires 0 <= low <= high < t.arr.Length
    modifies t, t.arr
    ensures Sorted(lt, t.arr[..], low, high + 1)
    ensures Reordered(old(t.arr[..]), old(t.log), t.arr[..], t.log, low, high + 1)
    ensures calls <= calls0 + (high - low + 1) * (3 * FloorLog2(high - low + 1))
  {
    hide *;
    ghost var s0, l0 := t.arr[..], t.log;
    ghost var n := high - low + 1;
    ghost var lg := FloorLog2(n);
    ghost var sifts := 0;
    ReorderedRefl(s0, l0, low, high + 1);
    calls := calls0;
    var start := low + (high - low - 1) / 2;
    HeapLeaves(lt, s0, low, high + 1, start + 1);
    while start >= low
      invariant low - 1 <= start <= high
      invariant HeapFrom(lt, t.arr[..], low, start + 1, high + 1)
      invariant Reordered(s0, l0, t.arr[..], t.log, low, high + 1)
      invariant 2 * (sifts + start - low + 1) <= n && sifts >= 0
      invariant calls <= calls0 + sifts * (2 * lg)
    {
      ghost var s1, l1 := t.arr[..], t.log;
      calls := HeapSiftDown(t, low, start, high, lt, calls);
      ReorderedTrans(s0, l0, s1, l1, t.arr[..], t.log, low, high + 1);
      start := start - 1;
      OneMore(sifts, 2 * lg);
      sifts := sifts + 1;
    }
    SortedOutsideWhole(lt, t.arr[..], low, high + 1);
    var end := high;
    while end > low
      invariant low <= end <= high
      invariant HeapFrom(lt, t.arr[..], low, low, end + 1)
      invariant SortedOutside(lt, t.arr[..], low, high + 1, low, end + 1)
      invariant Reordered(s0, l0, t.arr[..], t.log, low, high + 1)
      invariant 2 * sifts <= n + 2 * (high - end)
      invariant calls <= calls0 + sifts * (2 * lg)
    {
      PopTop(lt, t.arr[..], low, end, high);
      t.SwapIn(low, end, s0, l0, low, high + 1);
      ghost var s1, l1 := t.arr[..], t.log;
      calls := HeapSiftDown(t, low, low, end - 1, lt, calls);
      AfterPop(lt, s0, l0, s1, l1, t.arr[..], t.log, low, end, high);
      OneMore(sifts, 2 * lg);
      sifts := sifts + 1;
      end := end - 1;
    }
    SortedOutsideOne(lt, t.arr[..], low, high + 1, low, low + 1);
    CostBound(sifts, n, lg);
  }

  lemma AfterPop<T(!new)>(lt: Less<T>, s0: seq<T>, l0: Trace, s: seq<T>, l: Trace, u: seq<T>, l': Trace, low: int,
      end: int, high: int)
    requires 0 <= low < end <= high < |s0| == |s|
    requires Reordered(s0, l0, s, l, low, high + 1) && Reordered(s, l, u, l', low, end)
    requires SortedOutside(lt, s, low, high + 1, low, end)
    ensures |u| == |s| && SortedOutside(lt, u, low, high + 1, low, end)
    ensures Reordered(s0, l0, u, l', low, high + 1)
    ensures FloorLog2(end - low) <= FloorLog2(high - low + 1)
  {
    ReorderedPerm(s, l, u, l', low, end);
    SortedOutsidePerm(lt, s, u, low, high + 1, low, end);
    ReorderedWiden(s, l, u, l', low, end, low, high + 1);
    ReorderedTrans(s0, l0, s, l, u, l', low, high + 1);
    Log2Monotonic(end - low, high - low + 1);
  }

  lemma OneMore(k: int, x: int)
    ensures (k + 1) * x == k * x + x
  {
  }

  lemma CostBound(sifts: int, n: int, lg: int)
    requires 0 <= lg && 2 * sifts <= 3 * n
    ensures sifts * (2 * lg) <= n * (3 * lg)
  {
    assert sifts * (2 * lg) == (2 * sifts) * lg;
    assert (2 * sifts) * lg <= (3 * n) * lg;
  }
}
