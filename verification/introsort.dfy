/** Introsort in its two forms: one that reorders only through a swap callback and one that moves
    the elements itself. */
module Introsort {
  import opened Comparing
  import opened Powers
  import opened HeapSort
  import opened Ordering
  import opened Partitioning
  import opened SwapTrace

  // Insertion

  /** [low, end) is sorted except that the element at `j` may belong further down. */
  ghost predicate Inserting<T(!new)>(lt: Less<T>, s: seq<T>, low: int, end: int, j: int)
    requires 0 <= low && end <= |s|
  {
    low <= j < end && forall p, q :: low <= p < q < end && q != j ==> !lt(s[q], s[p])
  }

  lemma InsertStart<T(!new)>(lt: Less<T>, s: seq<T>, low: int, i: int)
    requires 0 <= low <= i < |s| && Sorted(lt, s, low, i)
    ensures Inserting(lt, s, low, i + 1, i)
  {
  }

  lemma InsertStep<T(!new)>(lt: Less<T>, s: seq<T>, low: int, end: int, j: int)
    requires StrictWeak(lt) && 0 <= low < j && end <= |s|
    requires Inserting(lt, s, low, end, j) && lt(s[j], s[j - 1])
    ensures Inserting(lt, Exchange(s, j - 1, j), low, end, j - 1)
  {
    LessAsym(lt, s[j], s[j - 1]);
  }

  lemma InsertDone<T(!new)>(lt: Less<T>, s: seq<T>, low: int, end: int, j: int)
    requires StrictWeak(lt) && 0 <= low && end <= |s|
    requires Inserting(lt, s, low, end, j)
    requires j > low ==> !lt(s[j], s[j - 1])
    ensures Sorted(lt, s, low, end)
  {
  }

  lemma Squares(d: int, k: int)
    requires 0 <= k < d
    ensures (k + 1) * d == k * d + d
  {
  }

  /** Insertion by adjacent swaps through the callback. */
  method InsertionSortSwaps<T(!new)>(t: SwapTarget<T>, low: int, high: int, lt: Less<T>, ghost calls0: nat)
    returns (ghost calls: nat)
    requires StrictWeak(lt)
    requires 0 <= low <= high < t.arr.Length
    modifies t, t.arr
    ensures Sorted(lt, t.arr[..], low, high + 1)
    ensures Reordered(old(t.arr[..]), old(t.log), t.arr[..], t.log, low, high + 1)
    ensures calls <= calls0 + (high - low) * (high - low)
  {
    hide *;
    ghost var s0, l0 := t.arr[..], t.log;
    ghost var d := high - low;
    ReorderedRefl(s0, l0, low, high + 1);
    SortedOne(lt, s0, low);
    calls := calls0;
    var i := low + 1;
    while i <= high
      invariant low + 1 <= i <= high + 1
      invariant Sorted(lt, t.arr[..], low, i)
      invariant Reordered(s0, l0, t.arr[..], t.log, low, high + 1)
      invariant calls <= calls0 + (i - low - 1) * d
    {
      ghost var calls1 := calls;
      InsertStart(lt, t.arr[..], low, i);
      var j := i;
      var smaller := true;
      while j > low && smaller
        invariant low <= j <= i
        invariant Inserting(lt, t.arr[..], low, i + 1, j)
        invariant !smaller ==> low < j && !lt(t.arr[j], t.arr[j - 1])
        invariant Reordered(s0, l0, t.arr[..], t.log, low, high + 1)
        invariant calls <= calls1 + (i - j) + (if smaller then 0 else 1)
        decreases j, smaller
      {
        smaller, calls := Compare(lt, t.arr[j], t.arr[j - 1], calls);
        if smaller {
          InsertStep(lt, t.arr[..], low, i + 1, j);
          t.SwapIn(j - 1, j, s0, l0, low, high + 1);
          j := j - 1;
        }
      }
      InsertDone(lt, t.arr[..], low, i + 1, j);
      Squares(d, i - low - 1);
      i := i + 1;
    }
  }

  lemma SortedOne<T(!new)>(lt: Less<T>, s: seq<T>, low: int)
    requires 0 <= low < |s|
    ensures Sorted(lt, s, low, low + 1)
  {
  }

  /** Moving the element before the gap into it swaps that element with the value being inserted. */
  lemma ShiftIsExchange<T>(s: seq<T>, j: int, tmp: T)
    requires 0 < j < |s|
    ensures s[j := s[j - 1]][j - 1 := tmp] == Exchange(s[j := tmp], j - 1, j)
  {
  }

  /** With `tmp` put into the gap at `j`, the range is `s0` rearranged, and sorted but for `tmp`. */
  ghost predicate Shifting<T(!new)>(lt: Less<T>, s0: seq<T>, s: seq<T>, tmp: T, low: int, i: int, end: int, j: int) {
    && low <= j <= i < end <= |s| && 0 <= low
    && Inserting(lt, s[j := tmp], low, i + 1, j)
    && Perm(s0, s[j := tmp], low, end)
  }

  lemma ShiftStart<T(!new)>(lt: Less<T>, s: seq<T>, low: int, i: int, end: int)
    requires 0 <= low < i < end <= |s| && Inserting(lt, s, low, i + 1, i)
    ensures Shifting(lt, s, s, s[i], low, i, end, i)
  {
    hide Inserting, Perm;
    assert s[i := s[i]] == s;
    PermRefl(s, low, end);
  }

  lemma ShiftStep<T(!new)>(lt: Less<T>, s0: seq<T>, s: seq<T>, tmp: T, low: int, i: int, end: int, j: int)
    requires StrictWeak(lt) && Shifting(lt, s0, s, tmp, low, i, end, j) && low < j && lt(tmp, s[j - 1])
    ensures Shifting(lt, s0, s[j := s[j - 1]], tmp, low, i, end, j - 1)
  {
    hide StrictWeak, Inserting, Perm, Exchange;
    InsertStep(lt, s[j := tmp], low, i + 1, j);
    PermThenExchange(s0, s[j := tmp], j - 1, j, low, end);
    ShiftIsExchange(s, j, tmp);
  }

  lemma ShiftDone<T(!new)>(lt: Less<T>, s0: seq<T>, s: seq<T>, tmp: T, low: int, i: int, end: int, j: int)
    requires StrictWeak(lt) && Shifting(lt, s0, s, tmp, low, i, end, j) && (j > low ==> !lt(tmp, s[j - 1]))
    ensures Sorted(lt, s[j := tmp], low, i + 1) && Perm(s0, s[j := tmp], low, end)
  {
    hide StrictWeak, Inserting, Perm, Sorted;
    InsertDone(lt, s[j := tmp], low, i + 1, j);
  }

  /** Puts `arr[i]` into the sorted range before it by shifting the larger elements up one place. */
  method ShiftIn<T(!new)>(arr: array<T>, low: int, i: int, lt: Less<T>, ghost end: int, ghost calls0: nat)
    returns (ghost calls: nat)
    requires StrictWeak(lt)
    requires 0 <= low < i < end <= arr.Length
    requires Inserting(lt, arr[..], low, i + 1, i) && lt(arr[i], arr[i - 1])
    modifies arr
    ensures Sorted(lt, arr[..], low, i + 1)
    ensures Perm(old(arr[..]), arr[..], low, end)
    ensures calls < calls0 + (i - low)
  {
    hide *;
    ghost var s0 := arr[..];
    calls := calls0;
    var tmp := arr[i];
    var j := i;
    var smaller := true;
    ShiftStart(lt, s0, low, i, end);
    while smaller
      invariant low < j <= i || (low == j && !smaller)
      invariant Shifting(lt, s0, arr[..], tmp, low, i, end, j)
      invariant smaller ==> lt(tmp, arr[j - 1])
      invariant !smaller && j > low ==> !lt(tmp, arr[j - 1])
      invariant calls <= calls0 + (i - j) - (if j == low then 1 else 0)
      decreases j, smaller
    {
      ghost var s := arr[..];
      ShiftStep(lt, s0, s, tmp, low, i, end, j);
      arr[j] := arr[j - 1];
      assert arr[..] == s[j := s[j - 1]];
      j := j - 1;
      if j > low {
        smaller, calls := Compare(lt, tmp, arr[j - 1], calls);
      } else {
        smaller := false;
      }
    }
    ghost var s := arr[..];
    ShiftDone(lt, s0, s, tmp, low, i, end, j);
    arr[j] := tmp;
    assert arr[..] == s[j := tmp];
  }

  /** Insertion by shifting elements through a temporary. */
  method InsertionSortShifts<T(!new)>(arr: array<T>, low: int, high: int, lt: Less<T>, ghost calls0: nat)
    returns (ghost calls: nat)
    requires StrictWeak(lt)
    requires 0 <= low <= high < arr.Length
    modifies arr
    ensures Sorted(lt, arr[..], low, high + 1)
    ensures Perm(old(arr[..]), arr[..], low, high + 1)
    ensures calls <= calls0 + (high - low) * (high - low)
  {
    hide *;
    ghost var s0 := arr[..];
    ghost var d := high - low;
    PermRefl(s0, low, high + 1);
    SortedOne(lt, s0, low);
    calls := calls0;
    var i := low + 1;
    while i <= high
      invariant low + 1 <= i <= high + 1
      invariant Sorted(lt, arr[..], low, i)
      invariant Perm(s0, arr[..], low, high + 1)
      invariant calls <= calls0 + (i - low - 1) * d
    {
      Squares(d, i - low - 1);
      InsertStart(lt, arr[..], low, i);
      var smaller;
      smaller, calls := Compare(lt, arr[i], arr[i - 1], calls);
      ghost var s1 := arr[..];
      if smaller {
        calls := ShiftIn(arr, low, i, lt, high + 1, calls);
        PermTrans(s0, s1, arr[..], low, high + 1);
      } else {
        InsertDone(lt, arr[..], low, i + 1, i);
      }
      i := i + 1;
    }
  }

  // Depth budget

  /** Twice the floor of the binary logarithm. */
  method SortDepthLimit(n0: nat) returns (depth: nat)
    ensures depth == 2 * FloorLog2(n0)
  {
    var n := n0;
    depth := 0;
    while n > 1
      invariant depth + FloorLog2(n) == FloorLog2(n0)
    {
      depth := depth + 1;
      n := n / 2;
    }
    depth := depth * 2;
  }

  /** What a range of `m` elements may still cost with `depth` partitions left, when `lg` bounds the logarithm. */
  ghost function Budget(m: nat, depth: nat, lg: nat): (b: nat) {
    m * (3 * depth + 3 * lg + 24)
  }

  /** A partition and the budgets of the two parts fit into the budget of the whole. */
  lemma BudgetSplit(m: nat, m1: nat, m2: nat, depth: nat, lg: nat)
    requires m1 + m2 <= m && depth > 0
    ensures 3 * m + Budget(m1, depth - 1, lg) + Budget(m2, depth - 1, lg) <= Budget(m, depth, lg)
  {
    var c := 3 * (depth - 1) + 3 * lg + 24;
    assert m1 * c + m2 * c == (m1 + m2) * c;
    assert (m1 + m2) * c <= m * c;
    assert m * (c + 3) == m * c + 3 * m;
  }

  /** The heapsort fallback fits into what is left when no partitions are. */
  lemma BudgetHeap(m: nat, lg: nat)
    requires FloorLog2(m) <= lg
    ensures m * (3 * FloorLog2(m)) <= Budget(m, 0, lg)
  {
    hide FloorLog2;
    MoreEach(m, 3 * FloorLog2(m), 3 * lg + 24);
  }

  lemma MoreEach(m: nat, x: nat, y: nat)
    requires x <= y
    ensures m * x <= m * y
  {
  }

  lemma BudgetInsertion(d: nat, depth: nat, lg: nat)
    requires d <= 24
    ensures d * d <= Budget(d + 1, depth, lg)
  {
    var y := 3 * depth + 3 * lg + 24;
    assert d * d <= d * 24;
    assert d * 24 <= (d + 1) * y;
  }

  /** One more nesting level is paid for by halving. */
  lemma HalfLog(m1: nat, m: nat, n: nat)
    requires 2 * m1 <= m <= n && 2 <= m
    ensures FloorLog2(m1) + 1 <= FloorLog2(n)
  {
    Log2Monotonic(m1, m / 2);
    Log2Monotonic(m, n);
  }

  // The two introsorts

  /** Of the range [lo, end) of `s0` only [low, high) is left to sort in `s`. */
  ghost predicate Unsorted<T(!new)>(lt: Less<T>, s0: seq<T>, s: seq<T>, lo: int, end: int, low: int, high: int) {
    && 0 <= lo <= low <= high <= end <= |s0| == |s|
    && Perm(s0, s, lo, end)
    && SortedOutside(lt, s, lo, end, low, high)
  }

  lemma UnsortedStart<T(!new)>(lt: Less<T>, s: seq<T>, lo: int, end: int)
    requires 0 <= lo <= end <= |s|
    ensures Unsorted(lt, s, s, lo, end, lo, end)
  {
  }

  lemma UnsortedPerm<T(!new)>(lt: Less<T>, s0: seq<T>, s: seq<T>, u: seq<T>, lo: int, end: int, low: int, high: int)
    requires Unsorted(lt, s0, s, lo, end, low, high) && Perm(s, u, low, high)
    ensures Unsorted(lt, s0, u, lo, end, low, high)
  {
    SortedOutsidePerm(lt, s, u, lo, end, low, high);
    PermWiden(s, u, low, high, lo, end);
    PermTrans(s0, s, u, lo, end);
  }

  /** Sorting the left part of a split range leaves the right part. */
  lemma UnsortedLeft<T(!new)>(lt: Less<T>, s0: seq<T>, s: seq<T>, u: seq<T>, lo: int, end: int, low: int, mid: int,
      right: int, high: int)
    requires Unsorted(lt, s0, s, lo, end, low, high)
    requires low <= mid <= right <= high && right <= mid + 1
    requires Split(lt, s, low, mid, high) && Split(lt, s, low, right, high)
    requires Perm(s, u, low, mid) && Sorted(lt, u, low, mid)
    ensures Unsorted(lt, s0, u, lo, end, right, high)
  {
    assert |s| == |u| == |s0| && 0 <= lo <= low <= high <= end <= |s|;
    assert SortedOutside(lt, s, lo, end, low, high) && Perm(s0, s, lo, end);
    assert SortedOutside(lt, u, lo, end, right, high) && Perm(s0, u, lo, end) by {
      hide *;
      PermWiden(s, u, low, mid, low, high);
      PermWiden(s, u, low, mid, low, right);
      PermWiden(s, u, low, mid, lo, end);
      PermTrans(s0, s, u, lo, end);
      SortedOutsidePerm(lt, s, u, lo, end, low, high);
      SplitPermLeft(lt, s, u, low, mid, high);
      SplitPermLeft(lt, s, u, low, right, high);
      SortedOutsideDropLeft(lt, u, lo, end, low, mid, right, high);
    }
  }

  /** Sorting the right part of a split range leaves the left part. */
  lemma UnsortedRight<T(!new)>(lt: Less<T>, s0: seq<T>, s: seq<T>, u: seq<T>, lo: int, end: int, low: int, mid: int,
      right: int, high: int)
    requires Unsorted(lt, s0, s, lo, end, low, high)
    requires low <= mid <= right <= high && right <= mid + 1
    requires Split(lt, s, low, mid, high) && Split(lt, s, low, right, high)
    requires Perm(s, u, right, high) && Sorted(lt, u, right, high)
    ensures Unsorted(lt, s0, u, lo, end, low, mid)
  {
    assert |s| == |u| == |s0| && 0 <= lo <= low <= high <= end <= |s|;
    assert SortedOutside(lt, s, lo, end, low, high) && Perm(s0, s, lo, end);
    assert SortedOutside(lt, u, lo, end, low, mid) && Perm(s0, u, lo, end) by {
      hide *;
      PermWiden(s, u, right, high, low, high);
      PermWiden(s, u, right, high, mid, high);
      PermWiden(s, u, right, high, lo, end);
      PermTrans(s0, s, u, lo, end);
      SortedOutsidePerm(lt, s, u, lo, end, low, high);
      SplitPermRight(lt, s, u, low, mid, high);
      SplitPermRight(lt, s, u, low, right, high);
      SortedOutsideDropRight(lt, u, lo, end, low, mid, right, high);
    }
  }

  lemma UnsortedFinish<T(!new)>(lt: Less<T>, s0: seq<T>, s: seq<T>, u: seq<T>, lo: int, end: int, low: int, high: int)
    requires Unsorted(lt, s0, s, lo, end, low, high)
    requires Perm(s, u, low, high) && Sorted(lt, u, low, high)
    ensures |u| == |s0| && Sorted(lt, u, lo, end) && Perm(s0, u, lo, end)
  {
    UnsortedPerm(lt, s0, s, u, lo, end, low, high);
  }

  lemma UnsortedNone<T(!new)>(lt: Less<T>, s0: seq<T>, s: seq<T>, lo: int, end: int, low: int, high: int)
    requires Unsorted(lt, s0, s, lo, end, low, high) && high <= low + 1
    ensures Sorted(lt, s, lo, end) && Perm(s0, s, lo, end)
  {
  }

  /** Chaining a reordering of part of the range onto what was done before. */
  lemma ChainReordered<T(!new)>(s: seq<T>, l: Trace, t: seq<T>, l': Trace, u: seq<T>, l'': Trace, lo: int, end: int,
      low: int, high: int)
    requires Reordered(s, l, t, l', lo, end) && Reordered(t, l', u, l'', low, high)
    requires |s| == |t| && 0 <= lo <= low <= high <= end <= |s|
    ensures Reordered(s, l, u, l'', lo, end) && Perm(t, u, low, high)
  {
    hide *;
    ReorderedPerm(t, l', u, l'', low, high);
    ReorderedWiden(t, l', u, l'', low, high, lo, end);
    ReorderedTrans(s, l, t, l', u, l'', lo, end);
  }

  /** A measure that falls only where both of its arguments do. */
  datatype Room = Full | Inside(rooms: seq<Room>)

  function RoomFor(levels: nat, depth: nat): Room
    decreases levels
  {
    if levels == 0 then Full else Inside(seq(depth, k requires 0 <= k < depth => RoomFor(levels - 1, k)))
  }

  lemma RoomFalls(levels: nat, depth: nat, depth': nat)
    requires levels > 0 && depth' < depth
    ensures RoomFor(levels, depth).Inside? && |RoomFor(levels, depth).rooms| == depth
    ensures RoomFor(levels, depth).rooms[depth'] == RoomFor(levels - 1, depth')
  {
  }

  /**
   * Introsort through a swap callback. No nested call runs more than `levels` deep, and each starts with less depth
   * left than the call it is nested in: that is what termination rests on, so only the smaller side may be recursed
   * into. `nest` and `chain` count nested calls and the partitions on a chain of them, and `lg` is any bound on the
   * logarithm of the range length.
   */
  method QuickSortSwaps<T(!new)>(t: SwapTarget<T>, low0: int, high0: int, lt: Less<T>, depthLimit0: nat,
      ghost levels: nat, ghost lg: nat, ghost calls0: nat)
    returns (ghost calls: nat, ghost nest: nat, ghost chain: nat)
    requires StrictWeak(lt)
    requires 0 <= low0 <= high0 < t.arr.Length && FloorLog2(high0 - low0 + 1) <= lg
    requires FloorLog2(high0 - low0 + 1) <= levels
    modifies t, t.arr
    ensures Sorted(lt, t.arr[..], low0, high0 + 1)
    ensures Reordered(old(t.arr[..]), old(t.log), t.arr[..], t.log, low0, high0 + 1)
    ensures calls <= calls0 + Budget(high0 - low0 + 1, depthLimit0, lg)
    ensures nest <= FloorLog2(high0 - low0 + 1)
    ensures chain <= depthLimit0
    decreases RoomFor(levels, depthLimit0)
  {
    hide *;
    var low, high := low0, high0;
    var depthLimit: nat := depthLimit0;
    calls, nest, chain := calls0, 0, 0;
    ghost var s0, l0 := t.arr[..], t.log;
    ReorderedRefl(s0, l0, low0, high0 + 1);
    UnsortedStart(lt, s0, low0, high0 + 1);
    while high - low > 24
      invariant low0 <= low <= high <= high0 && depthLimit <= depthLimit0
      invariant Unsorted(lt, s0, t.arr[..], low0, high0 + 1, low, high + 1)
      invariant Reordered(s0, l0, t.arr[..], t.log, low0, high0 + 1)
      invariant calls + Budget(high - low + 1, depthLimit, lg) <= calls0 + Budget(high0 - low0 + 1, depthLimit0, lg)
      invariant nest <= FloorLog2(high0 - low0 + 1) && chain <= depthLimit0
      decreases depthLimit
    {
      ghost var s1, l1 := t.arr[..], t.log;
      ghost var m := high - low + 1;
      Log2Monotonic(m, high0 - low0 + 1);
      if depthLimit == 0 {
        calls := HeapSortRange(t, low, high, lt, calls);
        ChainReordered(s0, l0, s1, l1, t.arr[..], t.log, low0, high0 + 1, low, high + 1);
        UnsortedFinish(lt, s0, s1, t.arr[..], low0, high0 + 1, low, high + 1);
        BudgetHeap(m, lg);
        return;
      }
      depthLimit := depthLimit - 1;
      var split;
      split, calls := QuickSortPartitionHoare(t, low, high, lt, calls);
      ChainReordered(s0, l0, s1, l1, t.arr[..], t.log, low0, high0 + 1, low, high + 1);
      UnsortedPerm(lt, s0, s1, t.arr[..], low0, high0 + 1, low, high + 1);
      ghost var s2, l2 := t.arr[..], t.log;
      var leftSize, rightSize := split - low + 1, high - split;
      BudgetSplit(m, leftSize, rightSize, depthLimit + 1, lg);
      ghost var subNest, subChain;
      if leftSize < rightSize {
        HalfLog(leftSize, m, high0 - low0 + 1);
        RoomFalls(levels, depthLimit0, depthLimit);
        calls, subNest, subChain := QuickSortSwaps(t, low, split, lt, depthLimit, levels - 1, lg, calls);
        ChainReordered(s0, l0, s2, l2, t.arr[..], t.log, low0, high0 + 1, low, split + 1);
        UnsortedLeft(lt, s0, s2, t.arr[..], low0, high0 + 1, low, split + 1, split + 1, high + 1);
        low := split + 1;
      } else {
        HalfLog(rightSize, m, high0 - low0 + 1);
        RoomFalls(levels, depthLimit0, depthLimit);
        calls, subNest, subChain := QuickSortSwaps(t, split + 1, high, lt, depthLimit, levels - 1, lg, calls);
        ChainReordered(s0, l0, s2, l2, t.arr[..], t.log, low0, high0 + 1, split + 1, high + 1);
        UnsortedRight(lt, s0, s2, t.arr[..], low0, high0 + 1, low, split + 1, split + 1, high + 1);
        high := split;
      }
      nest := if subNest + 1 > nest then subNest + 1 else nest;
      chain := if depthLimit0 - depthLimit + subChain > chain then depthLimit0 - depthLimit + subChain else chain;
    }
    ghost var s1, l1 := t.arr[..], t.log;
    if low < high {
      BudgetInsertion(high - low, depthLimit, lg);
      calls := InsertionSortSwaps(t, low, high, lt, calls);
      ChainReordered(s0, l0, s1, l1, t.arr[..], t.log, low0, high0 + 1, low, high + 1);
      UnsortedFinish(lt, s0, s1, t.arr[..], low0, high0 + 1, low, high + 1);
    } else {
      UnsortedNone(lt, s0, s1, low0, high0 + 1, low, high + 1);
    }
  }

  /** Introsort on the elements themselves; the ghost results are as for `QuickSortSwaps`. */
  method QuickSortMoves<T(!new)>(t: SwapTarget<T>, low0: int, high0: int, lt: Less<T>, depthLimit0: nat,
      ghost levels: nat, ghost lg: nat, ghost calls0: nat)
    returns (ghost calls: nat, ghost nest: nat, ghost chain: nat)
    requires StrictWeak(lt)
    requires 0 <= low0 <= high0 + 1 && high0 < t.arr.Length && FloorLog2(high0 - low0 + 1) <= lg
    requires FloorLog2(high0 - low0 + 1) <= levels
    modifies t, t.arr
    ensures Sorted(lt, t.arr[..], low0, high0 + 1)
    ensures Perm(old(t.arr[..]), t.arr[..], low0, high0 + 1)
    ensures calls <= calls0 + Budget(high0 - low0 + 1, depthLimit0, lg)
    ensures nest <= FloorLog2(high0 - low0 + 1)
    ensures chain <= depthLimit0
    decreases RoomFor(levels, depthLimit0)
  {
    hide *;
    var low, high := low0, high0;
    var depthLimit: nat := depthLimit0;
    calls, nest, chain := calls0, 0, 0;
    ghost var s0 := t.arr[..];
    UnsortedStart(lt, s0, low0, high0 + 1);
    while high - low > 24
      invariant low0 <= low <= high + 1 && high <= high0 && depthLimit <= depthLimit0
      invariant Unsorted(lt, s0, t.arr[..], low0, high0 + 1, low, high + 1)
      invariant calls + Budget(high - low + 1, depthLimit, lg) <= calls0 + Budget(high0 - low0 + 1, depthLimit0, lg)
      invariant nest <= FloorLog2(high0 - low0 + 1) && chain <= depthLimit0
      decreases depthLimit
    {
      ghost var s1 := t.arr[..];
      ghost var m := high - low + 1;
      Log2Monotonic(m, high0 - low0 + 1);
      if depthLimit == 0 {
        calls := FallBack(t, low, high, lt, calls);
        UnsortedFinish(lt, s0, s1, t.arr[..], low0, high0 + 1, low, high + 1);
        BudgetHeap(m, lg);
        return;
      }
      depthLimit := depthLimit - 1;
      var pivot;
      pivot, calls := PrepareAndPartition(t, low, high, lt, calls);
      UnsortedPerm(lt, s0, s1, t.arr[..], low0, high0 + 1, low, high + 1);
      PivotSplits(lt, t.arr[..], low, high, pivot);
      ghost var s2 := t.arr[..];
      var leftSize, rightSize := pivot - low, high - pivot;
      BudgetSplit(m, leftSize, rightSize, depthLimit + 1, lg);
      ghost var subNest, subChain;
      if leftSize < rightSize {
        HalfLog(leftSize, m, high0 - low0 + 1);
        RoomFalls(levels, depthLimit0, depthLimit);
        calls, subNest, subChain := QuickSortMoves(t, low, pivot - 1, lt, depthLimit, levels - 1, lg, calls);
        UnsortedLeft(lt, s0, s2, t.arr[..], low0, high0 + 1, low, pivot, pivot + 1, high + 1);
        low := pivot + 1;
      } else {
        HalfLog(rightSize, m, high0 - low0 + 1);
        RoomFalls(levels, depthLimit0, depthLimit);
        calls, subNest, subChain := QuickSortMoves(t, pivot + 1, high, lt, depthLimit, levels - 1, lg, calls);
        UnsortedRight(lt, s0, s2, t.arr[..], low0, high0 + 1, low, pivot, pivot + 1, high + 1);
        high := pivot - 1;
      }
      nest := if subNest + 1 > nest then subNest + 1 else nest;
      chain := if depthLimit0 - depthLimit + subChain > chain then depthLimit0 - depthLimit + subChain else chain;
    }
    ghost var s1 := t.arr[..];
    if low < high {
      BudgetInsertion(high - low, depthLimit, lg);
      calls := InsertionSortShifts(t.arr, low, high, lt, calls);
      UnsortedFinish(lt, s0, s1, t.arr[..], low0, high0 + 1, low, high + 1);
    } else {
      UnsortedNone(lt, s0, s1, low0, high0 + 1, low, high + 1);
    }
  }

  /** The heapsort fallback, which reorders through the swap lambda only. */
  method FallBack<T(!new)>(t: SwapTarget<T>, low: int, high: int, lt: Less<T>, ghost calls0: nat)
    returns (ghost calls: nat)
    requires StrictWeak(lt)
    requires 0 <= low <= high < t.arr.Length
    modifies t, t.arr
    ensures Sorted(lt, t.arr[..], low, high + 1)
    ensures Perm(old(t.arr[..]), t.arr[..], low, high + 1)
    ensures calls <= calls0 + (high - low + 1) * (3 * FloorLog2(high - low + 1))
  {
    hide *;
    calls := HeapSortRange(t, low, high, lt, calls0);
    ReorderedPerm(old(t.arr[..]), old(t.log), t.arr[..], t.log, low, high + 1);
  }

  method PrepareAndPartition<T(!new)>(t: SwapTarget<T>, low: int, high: int, lt: Less<T>, ghost calls0: nat)
    returns (pivot: int, ghost calls: nat)
    requires StrictWeak(lt)
    requires 0 <= low && low + 2 <= high < t.arr.Length
    modifies t, t.arr
    ensures low <= pivot <= high
    ensures PivotAt(lt, t.arr[..], low, high, pivot)
    ensures Prepared(lt, old(t.arr[..]), low, high, t.arr[pivot])
    ensures Perm(old(t.arr[..]), t.arr[..], low, high + 1)
    ensures calls <= calls0 + 2 * (high - low + 1) + 12
  {
    hide *;
    ghost var s0, l0 := t.arr[..], t.log;
    calls := SortPreparePivotFirst(t, low, high, lt, calls0);
    ghost var s1 := t.arr[..];
    ReorderedPerm(s0, l0, s1, t.log, low, high + 1);
    pivot, calls := QuickSortPartitionPivotFirst(t, low, high, lt, calls);
    PermTrans(s0, s1, t.arr[..], low, high + 1);
  }
}
