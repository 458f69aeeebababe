/** Strict weak orders, sorted ranges and permutations of a range.
    Ranges are half-open here: `lo` is in, `end` is out. */
module Ordering {

  type Less<!T> = (T, T) -> bool

  /** What the sort family asks of its comparison: no pair is ordered both ways
      and "not smaller" is transitive. */
  ghost predicate StrictWeak<T(!new)>(lt: Less<T>) {
    && (forall x, y :: lt(x, y) ==> !lt(y, x))
    && (forall x, y, z :: !lt(x, y) && !lt(y, z) ==> !lt(x, z))
  }

  lemma NotLessRefl<T(!new)>(lt: Less<T>, x: T)
    requires StrictWeak(lt)
    ensures !lt(x, x)
  {
  }

  lemma NotLessTrans<T(!new)>(lt: Less<T>, x: T, y: T, z: T)
    requires StrictWeak(lt) && !lt(x, y) && !lt(y, z)
    ensures !lt(x, z)
  {
  }

  lemma LessAsym<T(!new)>(lt: Less<T>, x: T, y: T)
    requires StrictWeak(lt) && lt(x, y)
    ensures !lt(y, x)
  {
  }

  ghost predicate Sorted<T(!new)>(lt: Less<T>, s: seq<T>, lo: int, end: int)
    requires 0 <= lo && end <= |s|
  {
    forall p, q :: lo <= p < q < end ==> !lt(s[q], s[p])
  }

  /** Every pair of positions in [lo, end) that does not lie inside [low, high) is in order. */
  ghost predicate SortedOutside<T(!new)>(lt: Less<T>, s: seq<T>, lo: int, end: int, low: int, high: int)
    requires 0 <= lo && end <= |s|
  {
    forall p, q :: lo <= p < q < end && !(low <= p && q < high) ==> !lt(s[q], s[p])
  }

  /** Nothing in [mid, end) is smaller than anything in [lo, mid). */
  ghost predicate Split<T(!new)>(lt: Less<T>, s: seq<T>, lo: int, mid: int, end: int)
    requires 0 <= lo <= mid <= end <= |s|
  {
    forall p, q :: lo <= p < mid <= q < end ==> !lt(s[q], s[p])
  }

  /** `t` is `s` with the elements of [lo, end) reordered and nothing else changed. */
  ghost predicate Perm<T(!new)>(s: seq<T>, t: seq<T>, lo: int, end: int) {
    && |s| == |t|
    && 0 <= lo <= end <= |s|
    && multiset(s[lo..end]) == multiset(t[lo..end])
    && (forall k :: 0 <= k < |s| && !(lo <= k < end) ==> t[k] == s[k])
  }

  function Exchange<T>(s: seq<T>, i: int, j: int): (r: seq<T>)
    requires 0 <= i < |s| && 0 <= j < |s|
    ensures |r| == |s|
  {
    s[i := s[j]][j := s[i]]
  }

  lemma PermRefl<T(!new)>(s: seq<T>, lo: int, end: int)
    requires 0 <= lo <= end <= |s|
    ensures Perm(s, s, lo, end)
  {
  }

  lemma PermTrans<T(!new)>(s: seq<T>, t: seq<T>, u: seq<T>, lo: int, end: int)
    requires Perm(s, t, lo, end) && Perm(t, u, lo, end)
    ensures Perm(s, u, lo, end)
  {
  }

  lemma PermWiden<T(!new)>(s: seq<T>, t: seq<T>, lo: int, end: int, lo': int, end': int)
    requires Perm(s, t, lo, end)
    requires 0 <= lo' <= lo <= end <= end' <= |s|
    ensures Perm(s, t, lo', end')
  {
    assert s[lo'..end'] == s[lo'..lo] + s[lo..end] + s[end..end'];
    assert t[lo'..end'] == t[lo'..lo] + t[lo..end] + t[end..end'];
    assert s[lo'..lo] == t[lo'..lo];
    assert s[end..end'] == t[end..end'];
  }

  lemma PermExchange<T(!new)>(s: seq<T>, i: int, j: int, lo: int, end: int)
    requires 0 <= lo <= i < end <= |s| && lo <= j < end
    ensures Perm(s, Exchange(s, i, j), lo, end)
  {
    var t := Exchange(s, i, j);
    var a, b := s[lo..end], t[lo..end];
    assert b == a[i - lo := a[j - lo]][j - lo := a[i - lo]];
  }

  lemma PermThenExchange<T(!new)>(s: seq<T>, t: seq<T>, i: int, j: int, lo: int, end: int)
    requires Perm(s, t, lo, end) && lo <= i < end && lo <= j < end
    ensures Perm(s, Exchange(t, i, j), lo, end)
  {
    PermExchange(t, i, j, lo, end);
  }

  /** The element now at `k` was somewhere in the range before. */
  lemma PermSource<T(!new)>(s: seq<T>, t: seq<T>, lo: int, end: int, k: int) returns (k': int)
    requires Perm(s, t, lo, end) && lo <= k < end
    ensures lo <= k' < end && t[k] == s[k']
  {
    assert t[k] == t[lo..end][k - lo];
    assert t[k] in multiset(t[lo..end]);
    assert t[k] in multiset(s[lo..end]);
    assert t[k] in s[lo..end];
    var m :| 0 <= m < |s[lo..end]| && s[lo..end][m] == t[k];
    k' := lo + m;
  }

  lemma SplitPermLeft<T(!new)>(lt: Less<T>, s: seq<T>, t: seq<T>, lo: int, mid: int, end: int)
    requires 0 <= lo <= mid <= end <= |s|
    requires Split(lt, s, lo, mid, end) && Perm(s, t, lo, mid)
    ensures Split(lt, t, lo, mid, end)
  {
    forall p, q | lo <= p < mid <= q < end ensures !lt(t[q], t[p]) {
      var p' := PermSource(s, t, lo, mid, p);
    }
  }

  lemma SplitPermRight<T(!new)>(lt: Less<T>, s: seq<T>, t: seq<T>, lo: int, mid: int, end: int)
    requires 0 <= lo <= mid <= end <= |s|
    requires Split(lt, s, lo, mid, end) && Perm(s, t, mid, end)
    ensures Split(lt, t, lo, mid, end)
  {
    forall p, q | lo <= p < mid <= q < end ensures !lt(t[q], t[p]) {
      var q' := PermSource(s, t, mid, end, q);
    }
  }

  lemma SortedOutsidePerm<T(!new)>(lt: Less<T>, s: seq<T>, t: seq<T>, lo: int, end: int, low: int, high: int)
    requires 0 <= lo <= low <= high <= end <= |s|
    requires SortedOutside(lt, s, lo, end, low, high) && Perm(s, t, low, high)
    ensures SortedOutside(lt, t, lo, end, low, high)
  {
    forall p, q | lo <= p < q < end && !(low <= p && q < high) ensures !lt(t[q], t[p]) {
      if low <= p < high {
        var p' := PermSource(s, t, low, high, p);
      } else if low <= q < high {
        var q' := PermSource(s, t, low, high, q);
      }
    }
  }

  lemma SortedOutsideWhole<T(!new)>(lt: Less<T>, s: seq<T>, lo: int, end: int)
    requires 0 <= lo && end <= |s|
    ensures SortedOutside(lt, s, lo, end, lo, end)
  {
  }

  /** With at most one position left inside, the whole range is sorted. */
  lemma SortedOutsideOne<T(!new)>(lt: Less<T>, s: seq<T>, lo: int, end: int, low: int, high: int)
    requires 0 <= lo && end <= |s| && high <= low + 1
    requires SortedOutside(lt, s, lo, end, low, high)
    ensures Sorted(lt, s, lo, end)
  {
  }

  /** Sorting the left part of a split range leaves only the right part unsorted. */
  lemma SortedOutsideDropLeft<T(!new)>(lt: Less<T>, s: seq<T>, lo: int, end: int, low: int, mid: int, right: int,
      high: int)
    requires 0 <= lo <= low <= mid <= right <= high <= end <= |s|
    requires SortedOutside(lt, s, lo, end, low, high)
    requires Sorted(lt, s, low, mid) && Split(lt, s, low, mid, high) && Split(lt, s, low, right, high)
    requires right <= mid + 1
    ensures SortedOutside(lt, s, lo, end, right, high)
  {
  }

  /** Sorting the right part of a split range leaves only the left part unsorted. */
  lemma SortedOutsideDropRight<T(!new)>(lt: Less<T>, s: seq<T>, lo: int, end: int, low: int, mid: int, right: int,
      high: int)
    requires 0 <= lo <= low <= mid <= right <= high <= end <= |s|
    requires SortedOutside(lt, s, lo, end, low, high)
    requires Sorted(lt, s, right, high) && Split(lt, s, low, mid, high) && Split(lt, s, low, right, high)
    requires right <= mid + 1
    ensures SortedOutside(lt, s, lo, end, low, mid)
  {
  }
}
