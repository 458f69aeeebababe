/** How an index splits into a page and a slot on that page. */
module Paging {

  function PageIdx(i: nat, cap: nat): (p: nat)
    requires cap > 0
  {
    i / cap
  }

  function SlotIdx(i: nat, cap: nat): (s: nat)
    requires cap > 0
    ensures s < cap
  {
    i % cap
  }

  function Index(p: nat, s: nat, cap: nat): nat {
    p * cap + s
  }

  lemma MultipleGap(a: int, b: int, cap: nat)
    requires a < b
    ensures a * cap + cap <= b * cap
  {
    assert b * cap == a * cap + cap + (b - a - 1) * cap;
    assert (b - a - 1) * cap >= 0;
  }

  lemma QuotientUnique(p: int, s: int, q: int, r: int, cap: nat)
    requires 0 <= s < cap && 0 <= r < cap
    requires p * cap + s == q * cap + r
    ensures p == q && s == r
  {
    if p < q {
      MultipleGap(p, q, cap);
    } else if q < p {
      MultipleGap(q, p, cap);
    }
  }

  /** A remainder is known by its quotient. */
  lemma RemainderOf(x: int, m: nat, q: int, r: nat)
    requires r < m && x == q * m + r
    ensures x % m == r
  {
    var q', r' := x / m, x % m;
    IntDivision(x, m);
    QuotientUnique(q, r, q', r', m);
  }

  lemma IntDivision(x: int, m: nat)
    requires m > 0
    ensures x == x / m * m + x % m
  {
  }

  lemma Division(i: nat, cap: nat)
    requires cap > 0
    ensures i == PageIdx(i, cap) * cap + SlotIdx(i, cap)
  {
  }

  lemma IndexSplits(p: nat, s: nat, cap: nat)
    requires s < cap
    ensures PageIdx(Index(p, s, cap), cap) == p && SlotIdx(Index(p, s, cap), cap) == s
  {
    hide PageIdx, SlotIdx;
    var i := p * cap + s;
    Division(i, cap);
    QuotientUnique(p, s, PageIdx(i, cap), SlotIdx(i, cap), cap);
  }

  /** Every index is the index of exactly one page and slot. */
  lemma SplitUnique(i: nat, cap: nat)
    requires cap > 0
    ensures Index(PageIdx(i, cap), SlotIdx(i, cap), cap) == i
    ensures forall p: nat, s: nat :: s < cap && Index(p, s, cap) == i ==> p == PageIdx(i, cap) && s == SlotIdx(i, cap)
  {
    hide PageIdx, SlotIdx;
    Division(i, cap);
    forall p: nat, s: nat | s < cap && Index(p, s, cap) == i ensures p == PageIdx(i, cap) && s == SlotIdx(i, cap) {
      IndexSplits(p, s, cap);
    }
  }

  lemma SplitInjective(i: nat, j: nat, cap: nat)
    requires cap > 0 && PageIdx(i, cap) == PageIdx(j, cap) && SlotIdx(i, cap) == SlotIdx(j, cap)
    ensures i == j
  {
    SplitUnique(i, cap);
    SplitUnique(j, cap);
  }

  /** The pages needed for `n` slots. */
  function PageCountFor(n: nat, cap: nat): (c: nat)
    requires cap > 0
  {
    if n == 0 then 0 else PageIdx(n + cap - 1, cap)
  }

  lemma NextPage(i: nat, cap: nat)
    requires cap > 0
    ensures PageIdx(i + cap, cap) == PageIdx(i, cap) + 1
  {
    hide PageIdx, SlotIdx;
    Division(i, cap);
    assert Index(PageIdx(i, cap) + 1, SlotIdx(i, cap), cap) == i + cap;
    IndexSplits(PageIdx(i, cap) + 1, SlotIdx(i, cap), cap);
  }

  /** Exactly the slots below `n` need the pages counted for `n`, and one slot more needs the page it is on. */
  lemma PageCount(n: nat, cap: nat)
    requires cap > 0
    ensures forall i: nat :: i < n ==> PageIdx(i, cap) < PageCountFor(n, cap)
    ensures PageIdx(n, cap) <= PageCountFor(n, cap) <= PageIdx(n, cap) + 1
    ensures PageCountFor(n + 1, cap) == PageIdx(n, cap) + 1
  {
    hide PageIdx;
    NextPage(n, cap);
    if n > 0 {
      NextPage(n - 1, cap);
      Monotonic(n, n + cap - 1, cap);
      Monotonic(n + cap - 1, n + cap, cap);
      forall i: nat | i < n ensures PageIdx(i, cap) < PageCountFor(n, cap) {
        Monotonic(i, n - 1, cap);
      }
    } else {
      FirstPage(cap);
    }
  }

  lemma FirstPage(cap: nat)
    requires cap > 0
    ensures PageIdx(0, cap) == 0
  {
  }

  lemma Monotonic(i: nat, j: nat, cap: nat)
    requires i <= j && cap > 0
    ensures PageIdx(i, cap) <= PageIdx(j, cap)
  {
    hide PageIdx, SlotIdx;
    Division(i, cap);
    Division(j, cap);
    if PageIdx(i, cap) > PageIdx(j, cap) {
      MultipleGap(PageIdx(j, cap), PageIdx(i, cap), cap);
    }
  }
}
