/** The swap callback of the sort family, with a ghost record of every swap it was asked for. */
module SwapTrace {
  import opened Ordering

  type Trace = seq<(int, int)>

  ghost predicate Within(trace: Trace, lo: int, end: int) {
    forall k :: 0 <= k < |trace| ==> lo <= trace[k].0 < end && lo <= trace[k].1 < end
  }

  /** The effect of carrying out the swaps of `trace`, first one first. */
  ghost function Replay<T>(s: seq<T>, trace: Trace): (r: seq<T>)
    requires Within(trace, 0, |s|)
    ensures |r| == |s|
  {
    if trace == [] then s
    else
      var last := |trace| - 1;
      Exchange(Replay(s, trace[..last]), trace[last].0, trace[last].1)
  }

  /** `t` came from `s`, and log `l'` from log `l`, by swaps inside [lo, end) and nothing else. */
  ghost predicate Reordered<T(!new)>(s: seq<T>, l: Trace, t: seq<T>, l': Trace, lo: int, end: int) {
    && 0 <= lo <= end <= |s|
    && |l| <= |l'| && l'[..|l|] == l
    && Within(l'[|l|..], lo, end)
    && t == Replay(s, l'[|l|..])
  }

  lemma ReorderedRefl<T(!new)>(s: seq<T>, l: Trace, lo: int, end: int)
    requires 0 <= lo <= end <= |s|
    ensures Reordered(s, l, s, l, lo, end)
  {
  }

  lemma ReorderedStep<T(!new)>(s: seq<T>, l: Trace, t: seq<T>, l': Trace, lo: int, end: int, i: int, j: int)
    requires Reordered(s, l, t, l', lo, end) && lo <= i < end && lo <= j < end
    ensures Reordered(s, l, Exchange(t, i, j), l' + [(i, j)], lo, end)
  {
    var w := l'[|l|..];
    assert (l' + [(i, j)])[|l|..] == w + [(i, j)];
    assert (w + [(i, j)])[..|w|] == w;
  }

  lemma {:induction false} ReplayAppend<T>(s: seq<T>, a: Trace, b: Trace)
    requires Within(a, 0, |s|) && Within(b, 0, |s|)
    ensures Within(a + b, 0, |s|)
    ensures Replay(s, a + b) == Replay(Replay(s, a), b)
  {
    if b == [] {
      assert a + b == a;
    } else {
      var last := |b| - 1;
      ReplayAppend(s, a, b[..last]);
      assert (a + b)[..|a + b| - 1] == a + b[..last];
    }
  }

  lemma ReorderedTrans<T(!new)>(s: seq<T>, l: Trace, t: seq<T>, l': Trace, u: seq<T>, l'': Trace, lo: int, end: int)
    requires Reordered(s, l, t, l', lo, end) && Reordered(t, l', u, l'', lo, end)
    ensures Reordered(s, l, u, l'', lo, end)
  {
    var a, b := l'[|l|..], l''[|l'|..];
    ReplayAppend(s, a, b);
    assert l''[|l|..] == a + b;
    assert l''[..|l|] == l''[..|l'|][..|l|];
  }

  lemma ReorderedWiden<T(!new)>(s: seq<T>, l: Trace, t: seq<T>, l': Trace, lo: int, end: int, lo': int, end': int)
    requires Reordered(s, l, t, l', lo, end)
    requires 0 <= lo' <= lo && end <= end' <= |s|
    ensures Reordered(s, l, t, l', lo', end')
  {
  }

  lemma {:induction false} ReplayPerm<T(!new)>(s: seq<T>, trace: Trace, lo: int, end: int)
    requires 0 <= lo <= end <= |s| && Within(trace, lo, end)
    ensures Perm(s, Replay(s, trace), lo, end)
  {
    if trace == [] {
      PermRefl(s, lo, end);
    } else {
      var last := |trace| - 1;
      ReplayPerm(s, trace[..last], lo, end);
      var t := Replay(s, trace[..last]);
      PermExchange(t, trace[last].0, trace[last].1, lo, end);
      PermTrans(s, t, Exchange(t, trace[last].0, trace[last].1), lo, end);
    }
  }

  lemma ReorderedPerm<T(!new)>(s: seq<T>, l: Trace, t: seq<T>, l': Trace, lo: int, end: int)
    requires Reordered(s, l, t, l', lo, end)
    ensures Perm(s, t, lo, end)
  {
    ReplayPerm(s, l'[|l|..], lo, end);
  }

  ghost function Zip<T, U>(s: seq<T>, u: seq<U>): (r: seq<(T, U)>)
    requires |s| == |u|
    ensures |r| == |s|
  {
    seq(|s|, k requires 0 <= k < |s| => (s[k], u[k]))
  }

  /** A second array given the same swaps stays in step: keys never part from their companions. */
  lemma {:induction false} ReplayInStep<T, U>(s: seq<T>, u: seq<U>, trace: Trace)
    requires |s| == |u| && Within(trace, 0, |s|)
    ensures Zip(Replay(s, trace), Replay(u, trace)) == Replay(Zip(s, u), trace)
  {
    if trace != [] {
      var last := |trace| - 1;
      ReplayInStep(s, u, trace[..last]);
      var (i, j) := trace[last];
      var a, b := Replay(s, trace[..last]), Replay(u, trace[..last]);
      assert Zip(Exchange(a, i, j), Exchange(b, i, j)) == Exchange(Zip(a, b), i, j);
    }
  }

  /** The range being sorted together with the callback that reorders it. */
  class SwapTarget<T(!new)> {
    const arr: array<T>
    ghost var log: Trace

    constructor (a: array<T>)
      ensures arr == a && log == []
    {
      arr := a;
      log := [];
    }

    method Swap(i: int, j: int)
      requires 0 <= i < arr.Length && 0 <= j < arr.Length
      modifies this, arr
      ensures arr[..] == Exchange(old(arr[..]), i, j)
      ensures log == old(log) + [(i, j)]
    {
      arr[i], arr[j] := arr[j], arr[i];
      log := log + [(i, j)];
    }

    /** As `Swap`, for a caller that keeps track of everything swapped since state `s`, `l`. */
    method SwapIn(i: int, j: int, ghost s: seq<T>, ghost l: Trace, ghost lo: int, ghost end: int)
      requires Reordered(s, l, arr[..], log, lo, end)
      requires lo <= i < end && lo <= j < end && |s| == arr.Length
      modifies this, arr
      ensures arr[..] == Exchange(old(arr[..]), i, j)
      ensures Reordered(s, l, arr[..], log, lo, end)
    {
      ReorderedStep(s, l, arr[..], log, lo, end, i, j);
      Swap(i, j);
    }
  }
}
