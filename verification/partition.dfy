/** Pivot sampling and the two partition schemes, all with unguarded scans. */
module Partitioning {
  import opened Comparing
  import opened Ordering
  import opened SwapTrace

  /** `m` lies between `x` and `y`, whichever of the two is smaller. */
  ghost predicate Between<T(!new)>(lt: Less<T>, x: T, m: T, y: T) {
    || (!lt(m, x) && !lt(y, m))
    || (!lt(m, y) && !lt(x, m))
  }

  /** `m` is the position of a median of the three sampled elements. */
  ghost predicate MedianAt<T(!new)>(lt: Less<T>, s: seq<T>, low: int, mid: int, high: int, m: int)
    requires 0 <= low < |s| && 0 <= mid < |s| && 0 <= high < |s|
  {
    || (m == low && Between(lt, s[mid], s[low], s[high]))
    || (m == mid && Between(lt, s[low], s[mid], s[high]))
    || (m == high && Between(lt, s[low], s[high], s[mid]))
  }

  /** `m` is one of the three values and a median of them. */
  ghost predicate MedianOf<T(!new)>(lt: Less<T>, x: T, y: T, z: T, m: T) {
    || (m == x && Between(lt, y, x, z))
    || (m == y && Between(lt, x, y, z))
    || (m == z && Between(lt, x, z, y))
  }

  method SortMedianOfThree<T(!new)>(arr: array<T>, low: int, mid: int, high: int, lt: Less<T>, ghost calls0: nat)
    returns (m: int, ghost calls: nat)
    requires StrictWeak(lt)
    requires 0 <= low < arr.Length && 0 <= mid < arr.Length && 0 <= high < arr.Length
    ensures MedianAt(lt, arr[..], low, mid, high, m)
    ensures calls <= calls0 + 3
  {
    var c;
    c, calls := Compare(lt, arr[low], arr[mid], calls0);
    if c {
      c, calls := Compare(lt, arr[mid], arr[high], calls);
      if c {
        return mid, calls;
      }
      c, calls := Compare(lt, arr[low], arr[high], calls);
      return if c then high else low, calls;
    }
    c, calls := Compare(lt, arr[low], arr[high], calls);
    if c {
      return low, calls;
    }
    c, calls := Compare(lt, arr[mid], arr[high], calls);
    return if c then high else mid, calls;
  }

  /** A pivot is usable when it is not a strict maximum sitting at `high`:
      some element before `high` stops the first scan. */
  ghost predicate UsablePivot<T(!new)>(lt: Less<T>, s: seq<T>, low: int, high: int, p: int)
    requires 0 <= low && high < |s|
  {
    low <= p <= high && exists k :: low <= k < high && !lt(s[k], s[p])
  }

  lemma MedianUsable<T(!new)>(lt: Less<T>, s: seq<T>, low: int, high: int, x: int, y: int, z: int, m: int)
    requires StrictWeak(lt)
    requires 0 <= low <= x < high < |s| && low <= y < high && low <= z <= high
    requires MedianAt(lt, s, x, y, z, m)
    ensures UsablePivot(lt, s, low, high, m)
  {
    if m == z == high {
      assert !lt(s[x], s[m]) || !lt(s[y], s[m]);
    } else {
      NotLessRefl(lt, s[m]);
    }
  }

  /** `p` is the position of a median of the three elements found at medians of three elements `step` apart. */
  ghost predicate NintherAt<T(!new)>(lt: Less<T>, s: seq<T>, low: int, mid: int, high: int, step: int, p: int)
    requires 0 <= low && 0 <= mid - step && 0 <= high - 2 * step && 0 <= step
    requires low + 2 * step < |s| && mid + step < |s| && high < |s|
  {
    exists x, y, z | 0 <= x < |s| && 0 <= y < |s| && 0 <= z < |s| ::
      && MedianAt(lt, s, low, low + step, low + 2 * step, x) && MedianAt(lt, s, mid - step, mid, mid + step, y)
      && MedianAt(lt, s, high - 2 * step, high - step, high, z) && MedianAt(lt, s, x, y, z, p)
  }

  /** The median of three medians, each of three elements `step` apart. */
  method SortNinther<T(!new)>(arr: array<T>, low: int, mid: int, high: int, step: int, lt: Less<T>, ghost calls0: nat)
    returns (p: int, ghost calls: nat)
    requires StrictWeak(lt)
    requires 0 <= low && high < arr.Length && step > 0
    requires low + 2 * step < high && low <= mid - step && mid + step < high && low <= high - 2 * step
    ensures NintherAt(lt, arr[..], low, mid, high, step, p)
    ensures UsablePivot(lt, arr[..], low, high, p)
    ensures calls <= calls0 + 12
  {
    hide *;
    var lowMed, midMed, highMed;
    lowMed, calls := SortMedianOfThree(arr, low, low + step, low + step + step, lt, calls0);
    MedianAmong(lt, arr[..], low, low + step, low + step + step, lowMed);
    midMed, calls := SortMedianOfThree(arr, mid - step, mid, mid + step, lt, calls);
    MedianAmong(lt, arr[..], mid - step, mid, mid + step, midMed);
    highMed, calls := SortMedianOfThree(arr, high - step - step, high - step, high, lt, calls);
    MedianAmong(lt, arr[..], high - step - step, high - step, high, highMed);
    p, calls := SortMedianOfThree(arr, lowMed, midMed, highMed, lt, calls);
    MedianUsable(lt, arr[..], low, high, lowMed, midMed, highMed, p);
    NintherFrom(lt, arr[..], low, mid, high, step, lowMed, midMed, highMed, p);
  }

  lemma NintherFrom<T(!new)>(lt: Less<T>, s: seq<T>, low: int, mid: int, high: int, step: int, x: int, y: int, z: int,
      p: int)
    requires 0 <= low && 0 <= mid - step && 0 <= high - 2 * step && 0 <= step
    requires low + 2 * step < |s| && mid + step < |s| && high < |s|
    requires 0 <= x < |s| && 0 <= y < |s| && 0 <= z < |s|
    requires MedianAt(lt, s, low, low + step, low + 2 * step, x) && MedianAt(lt, s, mid - step, mid, mid + step, y)
    requires MedianAt(lt, s, high - 2 * step, high - step, high, z) && MedianAt(lt, s, x, y, z, p)
    ensures NintherAt(lt, s, low, mid, high, step, p)
  {
  }

  /** `p` is a median of the first, the middle and the last element, or of the three medians in a large range. */
  ghost predicate Sampled<T(!new)>(lt: Less<T>, s: seq<T>, low: int, high: int, p: int)
    requires 0 <= low < high < |s|
  {
    var size := high - low + 1;
    var mid := low + size / 2;
    if size > 1024 then NintherAt(lt, s, low, mid, high, size / 8, p) else MedianAt(lt, s, low, mid, high, p)
  }

  lemma SampledIs<T(!new)>(lt: Less<T>, s: seq<T>, low: int, high: int, p: int)
    requires 0 <= low < high < |s|
    requires var size := high - low + 1; var mid := low + size / 2;
      if size > 1024 then NintherAt(lt, s, low, mid, high, size / 8, p) else MedianAt(lt, s, low, mid, high, p)
    ensures Sampled(lt, s, low, high, p)
  {
  }

  method SortChoosePivot<T(!new)>(arr: array<T>, low: int, high: int, lt: Less<T>, ghost calls0: nat)
    returns (p: int, ghost calls: nat)
    requires StrictWeak(lt)
    requires 0 <= low < high < arr.Length
    ensures low <= p <= high
    ensures Sampled(lt, arr[..], low, high, p)
    ensures high - low >= 2 ==> UsablePivot(lt, arr[..], low, high, p)
    ensures high - low == 1 ==> (UsablePivot(lt, arr[..], low, high, p) <==> !lt(arr[low], arr[high]))
    ensures calls <= calls0 + 12
  {
    hide *;
    var size := high - low + 1;
    var mid := low + size / 2;
    if size > 1024 {
      p, calls := SortNinther(arr, low, mid, high, size / 8, lt, calls0);
      UsableInRange(lt, arr[..], low, high, p);
    } else {
      p, calls := SortMedianOfThree(arr, low, mid, high, lt, calls0);
      MedianAmong(lt, arr[..], low, mid, high, p);
      if high - low >= 2 {
        MedianUsable(lt, arr[..], low, high, low, mid, high, p);
      } else {
        TwoElementPivot(lt, arr[..], low, p);
      }
    }
    SampledIs(lt, arr[..], low, high, p);
  }

  lemma UsableInRange<T(!new)>(lt: Less<T>, s: seq<T>, low: int, high: int, p: int)
    requires 0 <= low && high < |s| && UsablePivot(lt, s, low, high, p)
    ensures low <= p <= high
  {
  }

  /** On two elements the sampled pivot can be a strict maximum at `high`: it is usable exactly when the two are not
      in strictly ascending order. */
  lemma TwoElementPivot<T(!new)>(lt: Less<T>, s: seq<T>, low: int, p: int)
    requires StrictWeak(lt)
    requires 0 <= low && low + 1 < |s| && MedianAt(lt, s, low, low + 1, low + 1, p)
    ensures UsablePivot(lt, s, low, low + 1, p) <==> !lt(s[low], s[low + 1])
  {
    NotLessRefl(lt, s[low]);
    NotLessRefl(lt, s[low + 1]);
    assert UsablePivot(lt, s, low, low + 1, p) ==> !lt(s[low], s[p]);
  }

  lemma MedianAmong<T(!new)>(lt: Less<T>, s: seq<T>, low: int, mid: int, high: int, m: int)
    requires 0 <= low < |s| && 0 <= mid < |s| && 0 <= high < |s|
    requires MedianAt(lt, s, low, mid, high, m)
    ensures m == low || m == mid || m == high
  {
  }

  /** `i` and `j` are where the two scans stand: everything passed on the left is not larger than
      the pivot and everything passed on the right is not smaller. */
  ghost predicate Scanned<T(!new)>(lt: Less<T>, s: seq<T>, low: int, high: int, pivot: T, i: int, j: int)
    requires 0 <= low && high < |s|
  {
    && low - 1 <= i <= high + 1 && low - 1 <= j <= high + 1
    && (forall k :: low <= k <= i && k <= high ==> !lt(pivot, s[k]))
    && (forall k :: j <= k <= high && low <= k ==> !lt(s[k], pivot))
  }

  /** Some element after `i` stops the upward scan. */
  ghost predicate StopsUp<T(!new)>(lt: Less<T>, s: seq<T>, pivot: T, i: int, last: int) {
    exists k :: i < k <= last && 0 <= k < |s| && !lt(s[k], pivot)
  }

  /** Some element before `j` stops the downward scan. */
  ghost predicate StopsDown<T(!new)>(lt: Less<T>, s: seq<T>, pivot: T, first: int, j: int) {
    exists k :: first <= k < j && 0 <= k < |s| && !lt(pivot, s[k])
  }

  /** The upward scan: the next position whose element is not smaller than the pivot. */
  method ScanUp<T(!new)>(arr: array<T>, i0: int, ghost last: int, pivot: T, lt: Less<T>, ghost calls0: nat)
    returns (i: int, ghost calls: nat)
    requires -1 <= i0 && last < arr.Length
    requires StopsUp(lt, arr[..], pivot, i0, last)
    ensures i0 < i <= last && !lt(arr[i], pivot)
    ensures forall k :: i0 < k < i ==> lt(arr[k], pivot)
    ensures calls == calls0 + (i - i0)
  {
    i := i0 + 1;
    var smaller;
    smaller, calls := Compare(lt, arr[i], pivot, calls0);
    while smaller
      invariant i0 < i <= last && smaller == lt(arr[i], pivot)
      invariant forall k :: i0 < k < i ==> lt(arr[k], pivot)
      invariant calls == calls0 + (i - i0)
      decreases last - i
    {
      i := i + 1;
      smaller, calls := Compare(lt, arr[i], pivot, calls);
    }
  }

  /** The downward scan of the Hoare partition: the next position whose element the pivot is not smaller than. */
  method ScanDown<T(!new)>(arr: array<T>, j0: int, ghost first: int, pivot: T, lt: Less<T>, ghost calls0: nat)
    returns (j: int, ghost calls: nat)
    requires 0 <= first && j0 <= arr.Length
    requires StopsDown(lt, arr[..], pivot, first, j0)
    ensures first <= j < j0 && !lt(pivot, arr[j])
    ensures forall k :: j < k < j0 ==> lt(pivot, arr[k])
    ensures calls == calls0 + (j0 - j)
  {
    j := j0 - 1;
    var larger;
    larger, calls := Compare(lt, pivot, arr[j], calls0);
    while larger
      invariant first <= j < j0 && larger == lt(pivot, arr[j])
      invariant forall k :: j < k < j0 ==> lt(pivot, arr[k])
      invariant calls == calls0 + (j0 - j)
      decreases j - first
    {
      j := j - 1;
      larger, calls := Compare(lt, pivot, arr[j], calls);
    }
  }

  /** Nothing up to `split` is larger than the pivot and nothing after it is smaller. */
  ghost predicate Divided<T(!new)>(lt: Less<T>, s: seq<T>, low: int, high: int, pivot: T, split: int)
    requires 0 <= low && high < |s|
  {
    && low - 1 <= split <= high
    && (forall k :: low <= k <= split ==> !lt(pivot, s[k]))
    && (forall k :: split < k <= high ==> !lt(s[k], pivot))
  }

  /** The range is divided at `split` around one of the sampled pivots of `s`. */
  ghost predicate DividedBySample<T(!new)>(lt: Less<T>, s: seq<T>, u: seq<T>, low: int, high: int, split: int)
    requires 0 <= low < high < |s| && |u| == |s|
  {
    exists p | 0 <= p < |s| :: Sampled(lt, s, low, high, p) && Divided(lt, u, low, high, s[p], split)
  }

  lemma DividedFrom<T(!new)>(lt: Less<T>, s: seq<T>, u: seq<T>, low: int, high: int, p: int, split: int)
    requires 0 <= low < high < |s| && |u| == |s| && 0 <= p < |s|
    requires Sampled(lt, s, low, high, p) && Divided(lt, u, low, high, s[p], split)
    ensures DividedBySample(lt, s, u, low, high, split)
  {
  }

  lemma HoareScans<T(!new)>(lt: Less<T>, s: seq<T>, low: int, high: int, pivot: T, i0: int, j0: int, i: int, j: int)
    requires StrictWeak(lt) && 0 <= low && high < |s|
    requires Scanned(lt, s, low, high, pivot, i0, j0)
    requires low - 1 <= i0 < i <= high && low <= j < j0 <= high + 1 && i0 < j0
    requires forall k :: i0 < k < i ==> lt(s[k], pivot)
    requires forall k :: j < k < j0 ==> lt(pivot, s[k])
    requires !lt(s[i], pivot) && !lt(pivot, s[j])
    ensures Scanned(lt, s, low, high, pivot, i - 1, j + 1)
    ensures i >= j ==> i <= j + 1 && Split(lt, s, low, j + 1, high + 1) && Divided(lt, s, low, high, pivot, j)
    ensures i < j ==> Scanned(lt, Exchange(s, i, j), low, high, pivot, i, j)
    ensures i < j ==> StopsUp(lt, Exchange(s, i, j), pivot, i, high) && StopsDown(lt, Exchange(s, i, j), pivot, low, j)
  {
    assert forall k :: low <= k < i ==> !lt(pivot, s[k]);
    assert forall k :: j < k <= high ==> !lt(s[k], pivot);
    if i >= j {
      // The elements at these three positions show that the scans did not cross any further.
      ghost var atLeft := if low <= i0 then s[i0] else pivot;
      ghost var atRight := if j0 <= high then s[j0] else pivot;
      ghost var afterSplit := if j < high then s[j + 1] else pivot;
      assert i0 <= j && i <= j0 && i <= j + 1;
      forall p, q | low <= p < j + 1 <= q < high + 1 ensures !lt(s[q], s[p]) {
        NotLessTrans(lt, s[q], pivot, s[p]);
      }
    } else {
      var t := Exchange(s, i, j);
      assert !lt(t[j], pivot) && !lt(pivot, t[i]);
    }
  }

  method QuickSortPartitionHoare<T(!new)>(t: SwapTarget<T>, low: int, high: int, lt: Less<T>, ghost calls0: nat)
    returns (split: int, ghost calls: nat)
    requires StrictWeak(lt)
    requires 0 <= low && low + 2 <= high < t.arr.Length
    modifies t, t.arr
    ensures low <= split < high
    ensures Split(lt, t.arr[..], low, split + 1, high + 1)
    ensures DividedBySample(lt, old(t.arr[..]), t.arr[..], low, high, split)
    ensures Reordered(old(t.arr[..]), old(t.log), t.arr[..], t.log, low, high + 1)
    ensures calls <= calls0 + 2 * (high - low + 1) + 14
  {
    hide *;
    ghost var s0, l0 := t.arr[..], t.log;
    ReorderedRefl(s0, l0, low, high + 1);
    var pivotIdx;
    pivotIdx, calls := SortChoosePivot(t.arr, low, high, lt, calls0);
    var pivot := t.arr[pivotIdx];
    var i := low - 1;
    var j := high + 1;
    HoareStart(lt, t.arr[..], low, high, pivotIdx);
    ghost var calls1 := calls;
    ghost var last := high - 1;
    while true
      invariant low - 1 <= i < j <= high + 1
      invariant Scanned(lt, t.arr[..], low, high, pivot, i, j)
      invariant StopsUp(lt, t.arr[..], pivot, i, last) && StopsDown(lt, t.arr[..], pivot, low, j)
      invariant last <= high && (last == high - 1 || j <= high)
      invariant Reordered(s0, l0, t.arr[..], t.log, low, high + 1)
      invariant calls == calls1 + (i - (low - 1)) + (high + 1 - j)
      decreases j - i
    {
      ghost var i0, j0 := i, j;
      i, calls := ScanUp(t.arr, i, last, pivot, lt, calls);
      j, calls := ScanDown(t.arr, j, low, pivot, lt, calls);
      HoareScans(lt, t.arr[..], low, high, pivot, i0, j0, i, j);
      if i >= j {
        DividedFrom(lt, s0, t.arr[..], low, high, pivotIdx, j);
        return j, calls;
      }
      t.SwapIn(i, j, s0, l0, low, high + 1);
      last := high;
    }
  }

  lemma HoareStart<T(!new)>(lt: Less<T>, s: seq<T>, low: int, high: int, p: int)
    requires StrictWeak(lt) && 0 <= low < high < |s| && UsablePivot(lt, s, low, high, p)
    ensures Scanned(lt, s, low, high, s[p], low - 1, high + 1)
    ensures StopsUp(lt, s, s[p], low - 1, high - 1) && StopsDown(lt, s, s[p], low, high + 1)
  {
    NotLessRefl(lt, s[p]);
  }

  /** The downward scan of the pivot-first partition: the next position whose element is smaller than the pivot. */
  method ScanDownSmaller<T(!new)>(arr: array<T>, last0: int, ghost stop: int, pivot: T, lt: Less<T>, ghost calls0: nat)
    returns (last: int, ghost calls: nat)
    requires 0 <= stop < last0 <= arr.Length && lt(arr[stop], pivot)
    ensures stop <= last < last0 && lt(arr[last], pivot)
    ensures forall k :: last < k < last0 ==> !lt(arr[k], pivot)
    ensures calls == calls0 + (last0 - last)
  {
    last := last0 - 1;
    var smaller;
    smaller, calls := Compare(lt, arr[last], pivot, calls0);
    while !smaller
      invariant stop <= last < last0 && smaller == lt(arr[last], pivot)
      invariant forall k :: last < k < last0 ==> !lt(arr[k], pivot)
      invariant calls == calls0 + (last0 - last)
      decreases last - stop
    {
      last := last - 1;
      smaller, calls := Compare(lt, arr[last], pivot, calls);
    }
  }

  method SortOrderThree<T(!new)>(t: SwapTarget<T>, lhs: int, mid: int, rhs: int, lt: Less<T>, ghost calls0: nat,
                                 ghost s0: seq<T>, ghost l0: Trace, ghost lo: int, ghost end: int)
    returns (ghost calls: nat)
    requires StrictWeak(lt)
    requires lo <= lhs < end && lo <= mid < end && lo <= rhs < end
    requires lhs != mid && mid != rhs && lhs != rhs
    requires |s0| == t.arr.Length && Reordered(s0, l0, t.arr[..], t.log, lo, end)
    modifies t, t.arr
    ensures Reordered(s0, l0, t.arr[..], t.log, lo, end)
    ensures !lt(t.arr[mid], t.arr[lhs]) && !lt(t.arr[rhs], t.arr[mid])
    ensures SameBut(old(t.arr[..]), t.arr[..], lhs, mid, rhs)
    ensures MedianOf(lt, old(t.arr[lhs]), old(t.arr[mid]), old(t.arr[rhs]), t.arr[mid])
    ensures calls <= calls0 + 3
  {
    assert 0 <= lo && end <= t.arr.Length;
    hide *;
    ghost var s := t.arr[..];
    SameButRefl(s, lhs, mid, rhs);
    var c;
    c, calls := Compare(lt, t.arr[mid], t.arr[lhs], calls0);
    if c {
      LessAsym(lt, t.arr[mid], t.arr[lhs]);
      ExchangeAt(t.arr[..], lhs, mid, rhs);
      ExchangeSameBut(s, t.arr[..], lhs, mid, lhs, mid, rhs);
      t.SwapIn(lhs, mid, s0, l0, lo, end);
    }
    c, calls := Compare(lt, t.arr[rhs], t.arr[mid], calls);
    if c {
      ghost var x, y, z := t.arr[lhs], t.arr[mid], t.arr[rhs];
      LessAsym(lt, z, y);
      ExchangeAt(t.arr[..], mid, rhs, lhs);
      ExchangeSameBut(s, t.arr[..], mid, rhs, lhs, mid, rhs);
      t.SwapIn(mid, rhs, s0, l0, lo, end);
      c, calls := Compare(lt, t.arr[mid], t.arr[lhs], calls);
      if c {
        LessAsym(lt, z, x);
        ExchangeAt(t.arr[..], lhs, mid, rhs);
      ExchangeSameBut(s, t.arr[..], lhs, mid, lhs, mid, rhs);
        t.SwapIn(lhs, mid, s0, l0, lo, end);
      }
    }
    OrderedMedian(lt, s[lhs], s[mid], s[rhs], t.arr[lhs], t.arr[mid], t.arr[rhs]);
  }

  /** Both are the same outside three positions. */
  ghost predicate SameBut<T(!new)>(s: seq<T>, u: seq<T>, i: int, j: int, k: int) {
    |u| == |s| && forall m :: 0 <= m < |s| && m != i && m != j && m != k ==> u[m] == s[m]
  }

  lemma SameButRefl<T(!new)>(s: seq<T>, i: int, j: int, k: int)
    ensures SameBut(s, s, i, j, k)
  {
  }

  lemma ExchangeSameBut<T(!new)>(s: seq<T>, u: seq<T>, i: int, j: int, a: int, b: int, c: int)
    requires SameBut(s, u, a, b, c) && 0 <= i < |u| && 0 <= j < |u|
    requires (i == a || i == b || i == c) && (j == a || j == b || j == c)
    ensures SameBut(s, Exchange(u, i, j), a, b, c)
  {
  }

  lemma SameButAt<T(!new)>(s: seq<T>, u: seq<T>, i: int, j: int, k: int, m: int)
    requires SameBut(s, u, i, j, k) && 0 <= m < |s| && m != i && m != j && m != k
    ensures |u| == |s| && u[m] == s[m]
  {
  }

  lemma SameButAll<T(!new)>(s: seq<T>, u: seq<T>, i: int, j: int, k: int, a: int, b: int, c: int)
    requires SameBut(s, u, i, j, k) && 0 <= a < |s| && 0 <= b < |s| && 0 <= c < |s|
    requires a != i && a != j && a != k && b != i && b != j && b != k && c != i && c != j && c != k
    ensures |u| == |s| && u[a] == s[a] && u[b] == s[b] && u[c] == s[c]
  {
  }

  /** Of three values in order the one in the middle is a median. */
  lemma OrderedMedian<T(!new)>(lt: Less<T>, x: T, y: T, z: T, a: T, b: T, c: T)
    requires (a, b, c) == (x, y, z) || (a, b, c) == (y, x, z) || (a, b, c) == (x, z, y)
      || (a, b, c) == (z, x, y) || (a, b, c) == (y, z, x) || (a, b, c) == (z, y, x)
    requires !lt(b, a) && !lt(c, b)
    ensures MedianOf(lt, x, y, z, b)
  {
  }

  lemma ExchangeAt<T(!new)>(s: seq<T>, i: int, j: int, k: int)
    requires 0 <= i < |s| && 0 <= j < |s| && 0 <= k < |s| && i != j && j != k && i != k
    ensures Exchange(s, i, j)[i] == s[j] && Exchange(s, i, j)[j] == s[i] && Exchange(s, i, j)[k] == s[k]
  {
  }

  /** `m` is a median of the medians of three samples, each of three elements from the two ends and the middle. */
  ghost predicate MedianOfMedians<T(!new)>(lt: Less<T>, s: seq<T>, low: int, mid: int, high: int, m: T)
    requires 0 <= low && 2 <= high && 1 <= mid && low + 2 < |s| && mid + 1 < |s| && high < |s|
  {
    exists x, y, z ::
      && MedianOf(lt, s[low], s[mid], s[high], x) && MedianOf(lt, s[low + 1], s[mid - 1], s[high - 1], y)
      && MedianOf(lt, s[low + 2], s[mid + 1], s[high - 2], z) && MedianOf(lt, y, x, z, m)
  }

  lemma MedianOfMediansFrom<T(!new)>(lt: Less<T>, s: seq<T>, low: int, mid: int, high: int, x: T, y: T, z: T, m: T)
    requires 0 <= low && 2 <= high && 1 <= mid && low + 2 < |s| && mid + 1 < |s| && high < |s|
    requires MedianOf(lt, s[low], s[mid], s[high], x) && MedianOf(lt, s[low + 1], s[mid - 1], s[high - 1], y)
    requires MedianOf(lt, s[low + 2], s[mid + 1], s[high - 2], z) && MedianOf(lt, y, x, z, m)
    ensures MedianOfMedians(lt, s, low, mid, high, m)
  {
  }

  /** The value that is put first. */
  ghost predicate Prepared<T(!new)>(lt: Less<T>, s: seq<T>, low: int, high: int, m: T)
    requires 0 <= low && low + 2 <= high < |s|
  {
    var mid := low + (high - low + 1) / 2;
    if high - low + 1 > 128 then MedianOfMedians(lt, s, low, mid, high, m)
    else MedianOf(lt, s[mid], s[low], s[high], m)
  }

  lemma PreparedIs<T(!new)>(lt: Less<T>, s: seq<T>, low: int, high: int, m: T)
    requires 0 <= low && low + 2 <= high < |s|
    requires var mid := low + (high - low + 1) / 2;
      if high - low + 1 > 128 then MedianOfMedians(lt, s, low, mid, high, m)
      else MedianOf(lt, s[mid], s[low], s[high], m)
    ensures Prepared(lt, s, low, high, m)
  {
  }

  /** Puts a median of three elements first, or for more than 128 elements a median of three medians. */
  method SortPreparePivotFirst<T(!new)>(t: SwapTarget<T>, low: int, high: int, lt: Less<T>, ghost calls0: nat)
    returns (ghost calls: nat)
    requires StrictWeak(lt)
    requires 0 <= low && low + 2 <= high < t.arr.Length
    modifies t, t.arr
    ensures Reordered(old(t.arr[..]), old(t.log), t.arr[..], t.log, low, high + 1)
    ensures Prepared(lt, old(t.arr[..]), low, high, t.arr[low])
    ensures var mid := low + (high - low + 1) / 2;
      if high - low + 1 > 128 then
        !lt(t.arr[low], t.arr[mid - 1]) && !lt(t.arr[mid + 1], t.arr[low])
      else
        !lt(t.arr[low], t.arr[mid]) && !lt(t.arr[high], t.arr[low])
        && SameBut(old(t.arr[..]), t.arr[..], mid, low, high)
    ensures calls <= calls0 + 12
  {
    hide *;
    ghost var s0, l0 := t.arr[..], t.log;
    ReorderedRefl(s0, l0, low, high + 1);
    var size := high - low + 1;
    var mid := low + size / 2;
    if size > 128 {
      calls := SortOrderThree(t, low, mid, high, lt, calls0, s0, l0, low, high + 1);
      ghost var s1 := t.arr[..];
      SameButAll(s0, s1, low, mid, high, low + 1, mid - 1, high - 1);
      SameButAll(s0, s1, low, mid, high, low + 2, mid + 1, high - 2);
      calls := SortOrderThree(t, low + 1, mid - 1, high - 1, lt, calls, s0, l0, low, high + 1);
      ghost var s2 := t.arr[..];
      SameButAll(s1, s2, low + 1, mid - 1, high - 1, low + 2, mid + 1, high - 2);
      SameButAt(s1, s2, low + 1, mid - 1, high - 1, mid);
      calls := SortOrderThree(t, low + 2, mid + 1, high - 2, lt, calls, s0, l0, low, high + 1);
      ghost var s3 := t.arr[..];
      SameButAt(s2, s3, low + 2, mid + 1, high - 2, mid);
      SameButAt(s2, s3, low + 2, mid + 1, high - 2, mid - 1);
      calls := SortOrderThree(t, mid - 1, mid, mid + 1, lt, calls, s0, l0, low, high + 1);
      ghost var s := t.arr[..];
      MedianOfMediansFrom(lt, s0, low, mid, high, s3[mid], s3[mid - 1], s3[mid + 1], s[mid]);
      ExchangeAt(s, low, mid, mid - 1);
      ExchangeAt(s, low, mid, mid + 1);
      t.SwapIn(low, mid, s0, l0, low, high + 1);
      assert t.arr[low] == s[mid] && t.arr[mid - 1] == s[mid - 1] && t.arr[mid + 1] == s[mid + 1];
    } else {
      calls := SortOrderThree(t, mid, low, high, lt, calls0, s0, l0, low, high + 1);
    }
    PreparedIs(lt, s0, low, high, t.arr[low]);
  }

  /** Everything in (low, first) is smaller than the pivot and nothing in (last, high] is. */
  ghost predicate Parted<T(!new)>(lt: Less<T>, s: seq<T>, low: int, high: int, pivot: T, first: int, last: int)
    requires 0 <= low && high < |s|
  {
    && low < first <= high + 1 && low <= last <= high + 1
    && (forall k :: low < k < first ==> lt(s[k], pivot))
    && (forall k :: last < k <= high ==> !lt(s[k], pivot))
  }

  /** Where the two scans of the pivot-first partition stand between swaps. */
  ghost predicate ScansAt<T(!new)>(lt: Less<T>, s: seq<T>, low: int, high: int, first: int, last: int)
    requires 0 <= low <= high < |s|
  {
    && Parted(lt, s, low, high, s[low], first, last)
    && low < last
    && (first <= high ==> !lt(s[first], s[low]))
    && (first < last ==> last <= high && lt(s[last], s[low]))
  }

  lemma ScansBounds<T(!new)>(lt: Less<T>, s: seq<T>, low: int, high: int, first: int, last: int)
    requires 0 <= low <= high < |s| && ScansAt(lt, s, low, high, first, last)
    ensures low < first <= high + 1 && low < last <= high + 1
    ensures first < last ==> last <= high
  {
  }

  /** After a swap each scan is stopped by what the swap moved. */
  lemma ScansExchange<T(!new)>(lt: Less<T>, s: seq<T>, low: int, high: int, first: int, last: int)
    requires 0 <= low <= high < |s| && first < last && ScansAt(lt, s, low, high, first, last)
    ensures low < first && last <= high
    ensures Parted(lt, Exchange(s, first, last), low, high, s[low], first + 1, last - 1)
    ensures StopsUp(lt, Exchange(s, first, last), s[low], first, last)
    ensures lt(Exchange(s, first, last)[first], s[low])
    ensures Exchange(s, first, last)[low] == s[low]
  {
    assert !lt(Exchange(s, first, last)[last], s[low]);
  }

  lemma ScansFurther<T(!new)>(lt: Less<T>, s: seq<T>, low: int, high: int, f: int, l: int, first: int, last: int)
    requires 0 <= low < f < l <= high < |s| && f < first <= l && f <= last < l
    requires Parted(lt, s, low, high, s[low], f + 1, l - 1)
    requires forall k :: f < k < first ==> lt(s[k], s[low])
    requires forall k :: last < k < l ==> !lt(s[k], s[low])
    requires !lt(s[first], s[low]) && lt(s[last], s[low])
    ensures ScansAt(lt, s, low, high, first, last)
  {
  }

  /** Everything before `pos` is smaller than the element there and nothing after it is. */
  ghost predicate PivotAt<T(!new)>(lt: Less<T>, s: seq<T>, low: int, high: int, pos: int)
    requires 0 <= low <= pos <= high < |s|
  {
    && (forall k :: low <= k < pos ==> lt(s[k], s[pos]))
    && (forall k :: pos < k <= high ==> !lt(s[k], s[pos]))
  }

  /** Moving the pivot between the two parts finishes the partition. */
  lemma PlacePivot<T(!new)>(lt: Less<T>, s: seq<T>, low: int, high: int, first: int, last: int)
    requires 0 <= low <= high < |s| && last <= first && ScansAt(lt, s, low, high, first, last)
    ensures low < first <= high + 1
    ensures PivotAt(lt, Exchange(s, low, first - 1), low, high, first - 1)
    ensures Exchange(s, low, first - 1)[first - 1] == s[low]
  {
  }

  lemma PivotSplits<T(!new)>(lt: Less<T>, s: seq<T>, low: int, high: int, pos: int)
    requires StrictWeak(lt) && 0 <= low <= pos <= high < |s| && PivotAt(lt, s, low, high, pos)
    ensures Split(lt, s, low, pos, high + 1) && Split(lt, s, low, pos + 1, high + 1)
  {
    hide StrictWeak;
    forall p, q | low <= p <= pos <= q <= high && p < q ensures !lt(s[q], s[p]) {
      if p < pos {
        LessAsym(lt, s[p], s[pos]);
        if pos < q {
          NotLessTrans(lt, s[q], s[pos], s[p]);
        }
      }
    }
  }

  method QuickSortPartitionPivotFirst<T(!new)>(t: SwapTarget<T>, low: int, high: int, lt: Less<T>, ghost calls0: nat)
    returns (pivotPos: int, ghost calls: nat)
    requires StrictWeak(lt)
    requires 0 <= low <= high < t.arr.Length
    modifies t, t.arr
    ensures low <= pivotPos <= high
    ensures PivotAt(lt, t.arr[..], low, high, pivotPos) && t.arr[pivotPos] == old(t.arr[low])
    ensures Perm(old(t.arr[..]), t.arr[..], low, high + 1)
    ensures calls <= calls0 + 2 * (high - low + 1)
  {
    hide *;
    ghost var s0, l0 := t.arr[..], t.log;
    ReorderedRefl(s0, l0, low, high + 1);
    var first, last;
    first, last, calls := FirstScans(t, low, high, lt, calls0);
    ScansBounds(lt, t.arr[..], low, high, first, last);
    var pivot := t.arr[low];
    while first < last
      invariant low < first <= high + 1 && low < last <= high + 1
      invariant ScansAt(lt, t.arr[..], low, high, first, last)
      invariant t.arr[low] == pivot
      invariant Reordered(s0, l0, t.arr[..], t.log, low, high + 1)
      invariant calls <= calls0 + (first - low) + (high + 1 - last)
      decreases high + 1 - first
    {
      ScansExchange(lt, t.arr[..], low, high, first, last);
      t.SwapIn(first, last, s0, l0, low, high + 1);
      ghost var f, l := first, last;
      first, calls := ScanUp(t.arr, first, last, pivot, lt, calls);
      last, calls := ScanDownSmaller(t.arr, last, f, pivot, lt, calls);
      ScansFurther(lt, t.arr[..], low, high, f, l, first, last);
    }
    pivotPos := first - 1;
    PlacePivot(lt, t.arr[..], low, high, first, last);
    ReorderedPerm(s0, l0, t.arr[..], t.log, low, high + 1);
    PermThenExchange(s0, t.arr[..], low, pivotPos, low, high + 1);
    StorePivot(t.arr, low, pivotPos, pivot);
  }

  /** The two stores that put the pivot in its place. */
  method StorePivot<T(!new)>(arr: array<T>, begin: int, pivotPos: int, pivot: T)
    requires 0 <= begin < arr.Length && 0 <= pivotPos < arr.Length && arr[begin] == pivot
    modifies arr
    ensures arr[..] == Exchange(old(arr[..]), begin, pivotPos)
  {
    if begin != pivotPos {
      arr[begin] := arr[pivotPos];
    }
    arr[pivotPos] := pivot;
  }

  /** The two scans before the swap loop. The upward one is guarded by the end of the range; the downward
      one is guarded only when the upward one found nothing smaller than the pivot to stop it. */
  method FirstScans<T(!new)>(t: SwapTarget<T>, low: int, high: int, lt: Less<T>, ghost calls0: nat)
    returns (first: int, last: int, ghost calls: nat)
    requires StrictWeak(lt)
    requires 0 <= low <= high < t.arr.Length
    ensures ScansAt(lt, t.arr[..], low, high, first, last)
    ensures calls <= calls0 + (first - low) + (high + 1 - last)
  {
    hide StrictWeak;
    calls := calls0;
    var end := high + 1;
    last := end;
    var pivot := t.arr[low];
    first := low + 1;
    var smaller := true;
    while first != end && smaller
      invariant low < first <= end
      invariant forall k :: low < k < first ==> lt(t.arr[k], pivot)
      invariant !smaller ==> first <= high && !lt(t.arr[first], pivot)
      invariant calls <= calls0 + (first - low - 1) + (if smaller then 0 else 1)
      decreases end - first, smaller
    {
      smaller, calls := Compare(lt, t.arr[first], pivot, calls);
      if smaller {
        first := first + 1;
      }
    }
    if low == first - 1 {
      smaller := false;
      while first < last && !smaller
        invariant first <= last <= end
        invariant forall k :: last < k <= high ==> !lt(t.arr[k], pivot)
        invariant last <= high ==> smaller == lt(t.arr[last], pivot)
        invariant last == end ==> !smaller
        invariant calls <= calls0 + (first - low) + (end - last)
        decreases last - first, !smaller
      {
        last := last - 1;
        smaller, calls := Compare(lt, t.arr[last], pivot, calls);
      }
    } else {
      last, calls := ScanDownSmaller(t.arr, last, low + 1, pivot, lt, calls);
    }
  }
}
