/** The entry points of the sort family: `quick_sort` and `sort`, each in two forms. */
module Sorting {
  import opened Comparing
  import opened Powers
  import opened Introsort
  import opened Ordering
  import opened SortingNetworks
  import opened SwapTrace

  lemma BudgetTotal(n: nat, lg: nat)
    ensures Budget(n, 2 * lg, lg) == n * (9 * lg + 24)
  {
    assert 3 * (2 * lg) + 3 * lg + 24 == 9 * lg + 24;
  }

  /** `quick_sort` with a swap callback: sorts by swaps inside the range only, within the worst-case number
      of comparisons and without nesting deeper than the logarithm of the length. */
  method QuickSortCallback<T(!new)>(t: SwapTarget<T>, low: int, high: int, lt: Less<T>, ghost calls0: nat)
    returns (ghost calls: nat, ghost nest: nat, ghost chain: nat)
    requires StrictWeak(lt)
    requires 0 <= low <= high + 1 && high < t.arr.Length
    modifies t, t.arr
    ensures Sorted(lt, t.arr[..], low, high + 1)
    ensures Reordered(old(t.arr[..]), old(t.log), t.arr[..], t.log, low, high + 1)
    ensures var n, lg := high - low + 1, FloorLog2(high - low + 1);
      calls <= calls0 + n * (9 * lg + 24) && nest <= lg && chain <= 2 * lg
  {
    hide *;
    ghost var lg := FloorLog2(high - low + 1);
    BudgetTotal(high - low + 1, lg);
    if low >= high {
      ReorderedRefl(t.arr[..], t.log, low, high + 1);
      SortedShort(lt, t.arr[..], low, high + 1);
      assert 0 <= (high - low + 1) * (9 * lg + 24);
      return calls0, 0, 0;
    }
    var limit := SortDepthLimit(high - low + 1);
    calls, nest, chain := QuickSortSwaps(t, low, high, lt, limit, lg, lg, calls0);
  }

  /** `quick_sort` on the elements themselves. */
  method QuickSort<T(!new)>(t: SwapTarget<T>, low: int, high: int, lt: Less<T>, ghost calls0: nat)
    returns (ghost calls: nat, ghost nest: nat, ghost chain: nat)
    requires StrictWeak(lt)
    requires 0 <= low <= high + 1 && high < t.arr.Length
    modifies t, t.arr
    ensures Sorted(lt, t.arr[..], low, high + 1)
    ensures Perm(old(t.arr[..]), t.arr[..], low, high + 1)
    ensures var n, lg := high - low + 1, FloorLog2(high - low + 1);
      calls <= calls0 + n * (9 * lg + 24) && nest <= lg && chain <= 2 * lg
  {
    hide *;
    ghost var lg := FloorLog2(high - low + 1);
    BudgetTotal(high - low + 1, lg);
    if low >= high {
      PermRefl(t.arr[..], low, high + 1);
      SortedShort(lt, t.arr[..], low, high + 1);
      assert 0 <= (high - low + 1) * (9 * lg + 24);
      return calls0, 0, 0;
    }
    var limit := SortDepthLimit(high - low + 1);
    calls, nest, chain := QuickSortMoves(t, low, high, lt, limit, lg, lg, calls0);
  }

  lemma SortedShort<T(!new)>(lt: Less<T>, s: seq<T>, lo: int, end: int)
    requires 0 <= lo <= end <= |s| && end <= lo + 1
    ensures Sorted(lt, s, lo, end)
  {
  }

  // Ranges that are already sorted or exactly reversed

  ghost predicate Ascending<T(!new)>(lt: Less<T>, s: seq<T>) {
    forall k :: 0 < k < |s| ==> !lt(s[k], s[k - 1])
  }

  ghost predicate Descending<T(!new)>(lt: Less<T>, s: seq<T>) {
    forall k :: 0 < k < |s| ==> !lt(s[k - 1], s[k])
  }

  lemma AscendingSorted<T(!new)>(lt: Less<T>, s: seq<T>)
    requires StrictWeak(lt) && Ascending(lt, s)
    ensures Sorted(lt, s, 0, |s|)
  {
    assert forall k :: 0 <= k < |s| - 1 ==> !lt(s[k + 1], s[k]) by {
      forall k | 0 <= k < |s| - 1 ensures !lt(s[k + 1], s[k]) {
        assert !lt(s[k + 1], s[k + 1 - 1]);
      }
    }
    NeighboursSorted(lt, s, |s|);
  }

  /** The elements outside [i, j] have been exchanged with their mirror images. */
  ghost predicate Mirrored<T(!new)>(s: seq<T>, t: seq<T>, i: int, j: int) {
    && |s| == |t|
    && (forall k :: 0 <= k < |s| && i <= k <= j ==> t[k] == s[k])
    && (forall k :: 0 <= k < |s| && !(i <= k <= j) ==> t[k] == s[|s| - 1 - k])
  }

  lemma MirroredStep<T(!new)>(s: seq<T>, t: seq<T>, i: int, j: int)
    requires 0 <= i < j < |s| && i + j == |s| - 1 && Mirrored(s, t, i, j)
    ensures Mirrored(s, Exchange(t, i, j), i + 1, j - 1)
  {
    var u := Exchange(t, i, j);
    assert u[i] == t[j] == s[j] && u[j] == t[i] == s[i];
    assert forall k :: 0 <= k < |s| && k != i && k != j ==> u[k] == t[k];
  }

  lemma MirroredAscending<T(!new)>(lt: Less<T>, s: seq<T>, t: seq<T>, i: int, j: int)
    requires Descending(lt, s) && Mirrored(s, t, i, j) && j <= i && i + j == |s| - 1
    ensures Ascending(lt, t)
  {
    forall k | 0 < k < |t| ensures !lt(t[k], t[k - 1]) {
      var m := |s| - k;
      assert t[k] == s[m - 1] && t[k - 1] == s[m];
    }
  }

  method IsAscending<T(!new)>(arr: array<T>, lt: Less<T>, ghost calls0: nat) returns (sorted: bool, ghost calls: nat)
    ensures sorted == Ascending(lt, arr[..])
    ensures calls <= calls0 + arr.Length
  {
    calls := calls0;
    if arr.Length == 0 {
      return true, calls;
    }
    for i := 1 to arr.Length
      invariant forall k :: 0 < k < i ==> !lt(arr[k], arr[k - 1])
      invariant calls <= calls0 + i - 1
    {
      var c;
      c, calls := Compare(lt, arr[i], arr[i - 1], calls);
      if c {
        assert lt(arr[..][i], arr[..][i - 1]);
        return false, calls;
      }
    }
    return true, calls;
  }

  method IsDescending<T(!new)>(arr: array<T>, lt: Less<T>, ghost calls0: nat) returns (reversed: bool, ghost calls: nat)
    ensures reversed == Descending(lt, arr[..])
    ensures calls <= calls0 + arr.Length
  {
    calls := calls0;
    if arr.Length == 0 {
      return true, calls;
    }
    for i := 1 to arr.Length
      invariant forall k :: 0 < k < i ==> !lt(arr[k - 1], arr[k])
      invariant calls <= calls0 + i - 1
    {
      var c;
      c, calls := Compare(lt, arr[i - 1], arr[i], calls);
      if c {
        assert lt(arr[..][i - 1], arr[..][i]);
        return false, calls;
      }
    }
    return true, calls;
  }

  /** A range the fast path takes care of. */
  ghost predicate Trivial<T(!new)>(lt: Less<T>, s: seq<T>) {
    |s| <= 1 || Ascending(lt, s) || Descending(lt, s)
  }

  /** Sorts a range that is already in order or exactly reversed; says whether it was. */
  method TrySortedOrReversed<T(!new)>(t: SwapTarget<T>, lt: Less<T>, ghost calls0: nat)
    returns (done: bool, ghost calls: nat)
    requires StrictWeak(lt)
    modifies t, t.arr
    ensures done <==> Trivial(lt, old(t.arr[..]))
    ensures done ==> Sorted(lt, t.arr[..], 0, t.arr.Length)
    ensures !done ==> t.arr[..] == old(t.arr[..]) && t.log == old(t.log)
    ensures Reordered(old(t.arr[..]), old(t.log), t.arr[..], t.log, 0, t.arr.Length)
    ensures calls <= calls0 + 2 * t.arr.Length
  {
    hide Reordered, StrictWeak, Sorted, Mirrored, Exchange, Ascending, Descending;
    var n := t.arr.Length;
    ghost var s0, l0 := t.arr[..], t.log;
    ReorderedRefl(s0, l0, 0, n);
    if n <= 1 {
      SortedShort(lt, s0, 0, n);
      return true, calls0;
    }
    var sorted;
    sorted, calls := IsAscending(t.arr, lt, calls0);
    if sorted {
      AscendingSorted(lt, s0);
      return true, calls;
    }
    var reversed;
    reversed, calls := IsDescending(t.arr, lt, calls);
    if !reversed {
      return false, calls;
    }
    Reverse(t);
    MirroredAscending(lt, s0, t.arr[..], n / 2, n - 1 - n / 2);
    AscendingSorted(lt, t.arr[..]);
    return true, calls;
  }

  /** Reverses the whole range through the swap callback. */
  method Reverse<T(!new)>(t: SwapTarget<T>)
    modifies t, t.arr
    ensures Mirrored(old(t.arr[..]), t.arr[..], t.arr.Length / 2, t.arr.Length - 1 - t.arr.Length / 2)
    ensures Reordered(old(t.arr[..]), old(t.log), t.arr[..], t.log, 0, t.arr.Length)
  {
    ghost var s0, l0 := t.arr[..], t.log;
    var i, j := 0, t.arr.Length - 1;
    MirroredStart(s0);
    hide *;
    ReorderedRefl(s0, l0, 0, t.arr.Length);
    while i < j
      invariant 0 <= i <= j + 1 && i + j == t.arr.Length - 1
      invariant Mirrored(s0, t.arr[..], i, j)
      invariant Reordered(s0, l0, t.arr[..], t.log, 0, t.arr.Length)
    {
      MirroredStep(s0, t.arr[..], i, j);
      t.SwapIn(i, j, s0, l0, 0, t.arr.Length);
      i, j := i + 1, j - 1;
    }
    MirroredMiddle(s0, t.arr[..], i, j);
  }

  lemma MirroredStart<T(!new)>(s: seq<T>)
    ensures Mirrored(s, s, 0, |s| - 1)
  {
  }

  lemma MirroredMiddle<T(!new)>(s: seq<T>, t: seq<T>, i: int, j: int)
    requires Mirrored(s, t, i, j) && j <= i <= j + 1 && i + j == |s| - 1
    ensures Mirrored(s, t, |s| / 2, |s| - 1 - |s| / 2)
  {
  }

  // Small ranges

  /** The network used for a length the table covers. */
  function NetworkFor(n: nat): Network
    requires 2 <= n <= 17
  {
    if n == 2 then NETWORK_2 else if n == 3 then NETWORK_3 else if n == 4 then NETWORK_4
    else if n == 5 then NETWORK_5 else if n == 6 then NETWORK_6 else if n == 7 then NETWORK_7
    else if n == 8 then NETWORK_8 else if n == 9 then NETWORK_9 else if n == 10 then NETWORK_10
    else if n == 11 then NETWORK_11 else if n == 12 then NETWORK_12 else if n == 13 then NETWORK_13
    else if n == 14 then NETWORK_14 else if n == 15 then NETWORK_15 else if n == 16 then NETWORK_16
    else NETWORK_17
  }

  lemma NetworkForSeparates<T(!new)>(lt: Less<T>, s: seq<T>, v: T)
    requires StrictWeak(lt) && 2 <= |s| <= 17 && |s| != 10
    ensures Connects(NetworkFor(|s|), |s|)
    ensures Separated(lt, Play(lt, s, NetworkFor(|s|)), v, |s|)
  {
    hide Play, Separated, StrictWeak, NETWORK_2, NETWORK_3, NETWORK_4, NETWORK_5, NETWORK_6, NETWORK_7, NETWORK_8,
      NETWORK_9,
      NETWORK_11, NETWORK_12, NETWORK_13, NETWORK_14, NETWORK_15, NETWORK_16, NETWORK_17;
    match |s|
    case 2 => Network2Separates(lt, s, v);
    case 3 => Network3Separates(lt, s, v);
    case 4 => Network4Separates(lt, s, v);
    case 5 => Network5Separates(lt, s, v);
    case 6 => Network6Separates(lt, s, v);
    case 7 => Network7Separates(lt, s, v);
    case 8 => Network8Separates(lt, s, v);
    case 9 => Network9Separates(lt, s, v);
    case 11 => Network11Separates(lt, s, v);
    case 12 => Network12Separates(lt, s, v);
    case 13 => Network13Separates(lt, s, v);
    case 14 => Network14Separates(lt, s, v);
    case 15 => Network15Separates(lt, s, v);
    case 16 => Network16Separates(lt, s, v);
    case 17 => Network17Separates(lt, s, v);
  }

  lemma NetworkSorts<T(!new)>(lt: Less<T>, s: seq<T>)
    requires StrictWeak(lt) && 2 <= |s| <= 17 && |s| != 10
    ensures Connects(NetworkFor(|s|), |s|)
    ensures Sorted(lt, Play(lt, s, NetworkFor(|s|)), 0, |s|)
  {
    hide Play, Separated, StrictWeak, NetworkFor, Connects, Sorted;
    assert Connects(NetworkFor(|s|), |s|) by {
      NetworkForSeparates(lt, s, s[0]);
    }
    forall v ensures Separated(lt, Play(lt, s, NetworkFor(|s|)), v, |s|) {
      NetworkForSeparates(lt, s, v);
    }
    SeparatedIsSorted(lt, Play(lt, s, NetworkFor(|s|)));
  }

  lemma IntLessIsStrictWeak(lt: Less<int>)
    requires forall x, y :: lt(x, y) <==> x < y
    ensures StrictWeak(lt)
  {
  }

  lemma NetworkForConnects(n: nat)
    requires 2 <= n <= 17
    ensures Connects(NetworkFor(n), n)
  {
    var lt: Less<int> := (x, y) => x < y;
    IntLessIsStrictWeak(lt);
    hide Play, Separated, StrictWeak, Connects;
    if n == 10 {
      Network10Fails(lt, 0, 1, [0, 1, 1, 0, 1, 0, 0, 0, 0, 0]);
    } else {
      NetworkForSeparates(lt, seq(n, _ => 0), 0);
    }
  }

  /** Sends the range through a network, in place and through the swap callback. */
  method PlayNetwork<T(!new)>(t: SwapTarget<T>, lt: Less<T>, net: Network)
    requires Connects(net, t.arr.Length)
    modifies t, t.arr
    ensures t.arr[..] == Play(lt, old(t.arr[..]), net)
    ensures Reordered(old(t.arr[..]), old(t.log), t.arr[..], t.log, 0, t.arr.Length)
    decreases net
  {
    hide Reordered, Exchange;
    ghost var s0, l0 := t.arr[..], t.log;
    match net
    case Start =>
      ReorderedRefl(s0, l0, 0, t.arr.Length);
    case Then(prev, i, j) =>
      PlayNetwork(t, lt, prev);
      ghost var s1 := t.arr[..];
      if !lt(t.arr[i], t.arr[j]) {
        t.SwapIn(i, j, s0, l0, 0, t.arr.Length);
      }
      CompareExchangeIs(lt, s1, i, j);
  }

  lemma CompareExchangeIs<T(!new)>(lt: Less<T>, s: seq<T>, i: nat, j: nat)
    requires i < j < |s|
    ensures CompareExchange(lt, s, i, j) == if lt(s[i], s[j]) then s else Exchange(s, i, j)
  {
  }

  /** What sorting a range of any length guarantees. A range of ten elements that is not already in order
      or reversed goes through a network that does not sort. */
  ghost predicate SortOutcome<T(!new)>(lt: Less<T>, s: seq<T>, r: seq<T>) {
    && Perm(s, r, 0, |s|)
    && (|s| != 10 || Trivial(lt, s) ==> Sorted(lt, r, 0, |s|))
    && (|s| == 10 && !Trivial(lt, s) ==> Connects(NETWORK_10, 10) && r == Play(lt, s, NETWORK_10))
  }

  /** Handles every range of at most 32 elements; says whether it did. */
  method SortNetworkCallback<T(!new)>(t: SwapTarget<T>, lt: Less<T>) returns (done: bool)
    requires StrictWeak(lt)
    modifies t, t.arr
    ensures done <==> t.arr.Length <= 32
    ensures done && t.arr.Length != 10 ==> Sorted(lt, t.arr[..], 0, t.arr.Length)
    ensures t.arr.Length == 10 ==> Connects(NETWORK_10, 10) && t.arr[..] == Play(lt, old(t.arr[..]), NETWORK_10)
    ensures !done ==> t.arr[..] == old(t.arr[..]) && t.log == old(t.log)
    ensures Reordered(old(t.arr[..]), old(t.log), t.arr[..], t.log, 0, t.arr.Length)
  {
    hide *;
    var n := t.arr.Length;
    ghost var s0, l0 := t.arr[..], t.log;
    if n <= 1 {
      SortedShort(lt, s0, 0, n);
      ReorderedRefl(s0, l0, 0, n);
    } else if n <= 17 {
      NetworkForConnects(n);
      TenIsBroken();
      var net := NetworkFor(n);
      PlayNetwork(t, lt, net);
      if n != 10 {
        NetworkSorts(lt, s0);
      }
    } else if n <= 32 {
      ghost var calls := InsertionSortSwaps(t, 0, n - 1, lt, 0);
    } else {
      ReorderedRefl(s0, l0, 0, n);
    }
    done := n <= 32;
  }

  lemma TenIsBroken()
    ensures NetworkFor(10) == NETWORK_10
  {
    hide NETWORK_10;
  }

  /** The form without a callback has the same comparators and the same insertion, and swaps elements itself. */
  method SortNetwork<T(!new)>(t: SwapTarget<T>, lt: Less<T>) returns (done: bool)
    requires StrictWeak(lt)
    modifies t, t.arr
    ensures done <==> t.arr.Length <= 32
    ensures done && t.arr.Length != 10 ==> Sorted(lt, t.arr[..], 0, t.arr.Length)
    ensures t.arr.Length == 10 ==> Connects(NETWORK_10, 10) && t.arr[..] == Play(lt, old(t.arr[..]), NETWORK_10)
    ensures !done ==> t.arr[..] == old(t.arr[..]) && t.log == old(t.log)
    ensures Reordered(old(t.arr[..]), old(t.log), t.arr[..], t.log, 0, t.arr.Length)
  {
    hide *;
    var n := t.arr.Length;
    ghost var s0, l0 := t.arr[..], t.log;
    if n <= 1 {
      SortedShort(lt, s0, 0, n);
      ReorderedRefl(s0, l0, 0, n);
    } else if n <= 17 {
      NetworkForConnects(n);
      TenIsBroken();
      var net := NetworkFor(n);
      PlayNetwork(t, lt, net);
      if n != 10 {
        NetworkSorts(lt, s0);
      }
    } else if n <= 32 {
      ghost var calls := InsertionSortSwaps(t, 0, n - 1, lt, 0);
    } else {
      ReorderedRefl(s0, l0, 0, n);
    }
    done := n <= 32;
  }

  /** `sort` with a swap callback over the whole range. */
  method SortCallback<T(!new)>(t: SwapTarget<T>, lt: Less<T>)
    requires StrictWeak(lt)
    modifies t, t.arr
    ensures SortOutcome(lt, old(t.arr[..]), t.arr[..])
    ensures Reordered(old(t.arr[..]), old(t.log), t.arr[..], t.log, 0, t.arr.Length)
  {
    hide Reordered, Perm, Sorted, Trivial, Connects, Play, StrictWeak, NETWORK_10, FloorLog2;
    ghost var s0, l0 := t.arr[..], t.log;
    var done;
    ghost var calls, nest, chain;
    done, calls := TrySortedOrReversed(t, lt, 0);
    if !done {
      done := SortNetworkCallback(t, lt);
      if !done {
        calls, nest, chain := QuickSortCallback(t, 0, t.arr.Length - 1, lt, calls);
      }
    }
    ReorderedPerm(s0, l0, t.arr[..], t.log, 0, t.arr.Length);
    assert t.arr.Length == 10 && !Trivial(lt, s0) ==> t.arr[..] == Play(lt, s0, NETWORK_10);
  }

  /** `sort` over the whole range. */
  method Sort<T(!new)>(t: SwapTarget<T>, lt: Less<T>)
    requires StrictWeak(lt)
    modifies t, t.arr
    ensures SortOutcome(lt, old(t.arr[..]), t.arr[..])
  {
    hide Reordered, Perm, Sorted, Trivial, Connects, Play, StrictWeak, NETWORK_10, FloorLog2;
    ghost var s0, l0 := t.arr[..], t.log;
    var done;
    ghost var calls, nest, chain;
    done, calls := TrySortedOrReversed(t, lt, 0);
    ReorderedPerm(s0, l0, t.arr[..], t.log, 0, t.arr.Length);
    if !done {
      done := SortNetwork(t, lt);
      ReorderedPerm(s0, l0, t.arr[..], t.log, 0, t.arr.Length);
      if !done {
        calls, nest, chain := QuickSort(t, 0, t.arr.Length - 1, lt, calls);
      }
    }
  }

  /** Sorting works for every range of length `n` exactly when `n` is not ten. */
  lemma SortsExactlyOtherLengths<T(!new)>(lt: Less<T>, a: T, b: T, n: nat)
    requires StrictWeak(lt) && lt(a, b)
    ensures (forall s: seq<T>, r: seq<T> :: |s| == n && SortOutcome(lt, s, r) ==> Sorted(lt, r, 0, n)) <==> n != 10
  {
    if n == 10 {
      var s := [a, b, b, a, b, a, a, a, a, a];
      Network10Fails(lt, a, b, s);
      var r := Play(lt, s, NETWORK_10);
      TenOutcome(lt, a, b, s);
      assert lt(r[7], r[6]);
      assert !Sorted(lt, r, 0, n);
    }
  }

  /** Which ten elements the network sorts: those it is not misled about at any of their own values. */
  lemma TenSortedIff<T(!new)>(lt: Less<T>, s: seq<T>)
    requires StrictWeak(lt) && |s| == 10
    ensures Connects(NETWORK_10, 10)
    ensures Sorted(lt, Play(lt, s, NETWORK_10), 0, 10) <==> forall k :: 0 <= k < 10 ==> !MisledAt(lt, s, s[k])
  {
    Network10SeparatesIff(lt, s, s[0]);
    hide Connects, Play, NETWORK_10, MisledAt, Separated;
    var r := Play(lt, s, NETWORK_10);
    if Sorted(lt, r, 0, 10) {
      forall k | 0 <= k < 10 ensures !MisledAt(lt, s, s[k]) {
        SortedIsSeparated(lt, r, s[k], 10);
        Network10SeparatesIff(lt, s, s[k]);
      }
    } else {
      var k := UnsortedAt(lt, r);
      PlayPerm(lt, s, NETWORK_10);
      PermMember(s, r, k);
      if Separated(lt, r, r[k], 10) {
        SeparatedAt(lt, r, r[k], 10, k);
        NotLessRefl(lt, r[k]);
      }
      Network10SeparatesIff(lt, s, r[k]);
    }
  }

  /** A range that is not sorted has two neighbours in the wrong order. */
  lemma UnsortedAt<T(!new)>(lt: Less<T>, r: seq<T>) returns (k: nat)
    requires StrictWeak(lt) && !Sorted(lt, r, 0, |r|)
    ensures k + 1 < |r| && lt(r[k + 1], r[k])
  {
    if forall k :: 0 <= k < |r| - 1 ==> !lt(r[k + 1], r[k]) {
      NeighboursSorted(lt, r, |r|);
      assert false;
    }
    k :| 0 <= k < |r| - 1 && lt(r[k + 1], r[k]);
  }

  lemma PermMember<T(!new)>(s: seq<T>, r: seq<T>, k: nat)
    requires Perm(s, r, 0, |s|) && k < |r|
    ensures |r| == |s| && exists j :: 0 <= j < |s| && s[j] == r[k]
  {
    assert s[0..|s|] == s && r[0..|r|] == r;
    assert r[k] in multiset(r);
    assert r[k] in s;
  }

  /** Exactly which outcomes of `sort` are sorted. */
  lemma SortsIff<T(!new)>(lt: Less<T>, s: seq<T>, r: seq<T>)
    requires StrictWeak(lt) && SortOutcome(lt, s, r)
    ensures Sorted(lt, r, 0, |s|) <==>
      |s| != 10 || Trivial(lt, s) || forall k :: 0 <= k < |s| ==> |s| == 10 && !MisledAt(lt, s, s[k])
  {
    hide Connects, Play, NETWORK_10, MisledAt, Sorted, Perm, Trivial;
    if |s| == 10 {
      TenSortedIff(lt, s);
    }
  }

  lemma TenOutcome<T(!new)>(lt: Less<T>, a: T, b: T, s: seq<T>)
    requires StrictWeak(lt) && lt(a, b) && s == [a, b, b, a, b, a, a, a, a, a]
    requires Connects(NETWORK_10, 10)
    ensures SortOutcome(lt, s, Play(lt, s, NETWORK_10))
  {
    hide Connects, Play, NETWORK_10;
    assert lt(s[0], s[1]) && lt(s[3], s[2]);
    assert !Ascending(lt, s) && !Descending(lt, s);
    PlayPerm(lt, s, NETWORK_10);
  }

  lemma {:induction false} PlayPerm<T(!new)>(lt: Less<T>, s: seq<T>, net: Network)
    requires Connects(net, |s|)
    ensures Perm(s, Play(lt, s, net), 0, |s|)
  {
    match net
    case Start => PermRefl(s, 0, |s|);
    case Then(prev, i, j) =>
      PlayPerm(lt, s, prev);
      CompareExchangeIs(lt, Play(lt, s, prev), i, j);
      PermThenExchange(s, Play(lt, s, prev), i, j, 0, |s|);
  }
}
