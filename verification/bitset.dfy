/** The bit set of fixed size. */
module Bitsets {
  import opened Words
  import opened Paging
  import opened BitWords

  ghost predicate Within(i: nat, from: nat, to: int) {
    from <= i <= to
  }

  /** The positions from `from` to `to`, both included. */
  ghost function Range(from: nat, to: int): set<nat> {
    set i: nat | i <= to && Within(i, from, to)
  }

  /** All positions of a set of `n` bits. */
  ghost function Everything(n: nat): set<nat> {
    Range(0, n - 1)
  }

  ghost function SymmetricDifference(a: set<nat>, b: set<nat>): set<nat> {
    (a - b) + (b - a)
  }

  /** Words that stand for a set of positions below `n`, with nothing past it. */
  ghost predicate Represents(words: seq<nat>, W: nat, n: nat, s: set<nat>) {
    && n > 0 && Fit(words, W)
    && TailClear(words, W, n)
    && s == Members(words, W, n)
  }

  lemma RepresentsOn(words: seq<nat>, W: nat, n: nat, s: set<nat>, i: nat)
    requires Represents(words, W, n, s)
    ensures On(words, W, i) <==> i in s
    ensures i in s ==> i < n
  {
  }

  /** Words that agree with a set bit by bit stand for it. */
  lemma RepresentsIfOn(words: seq<nat>, W: nat, n: nat, s: set<nat>)
    requires n > 0 && Fit(words, W)
    requires forall i: nat :: On(words, W, i) <==> i in s
    requires forall i: nat :: i in s ==> i < n
    ensures Represents(words, W, n, s)
  {
    hide On;
  }

  lemma InWords(pos: nat, n: nat, W: nat)
    requires W > 0 && pos < n
    ensures PageIdx(pos, W) < PageCountFor(n, W)
  {
    PageCount(n, W);
  }

  lemma SetRepresents(words: seq<nat>, was: seq<nat>, W: nat, n: nat, s: set<nat>, pos: nat, value: bool)
    requires Represents(was, W, n, s) && pos < n && BitIs(words, was, W, pos, value)
    ensures Represents(words, W, n, if value then s + {pos} else s - {pos})
  {
    assert W > 0;
    hide On, Fit;
    forall i: nat ensures On(words, W, i) <==> i in (if value then s + {pos} else s - {pos}) {
      RepresentsOn(was, W, n, s, i);
    }
    RepresentsIfOn(words, W, n, if value then s + {pos} else s - {pos});
  }

  lemma RangeRepresents(words: seq<nat>, was: seq<nat>, W: nat, n: nat, s: set<nat>, from: nat, to: nat)
    requires Represents(was, W, n, s) && from <= to < n && RangeTurned(words, was, W, from, to)
    ensures Represents(words, W, n, SymmetricDifference(s, Range(from, to)))
  {
    assert W > 0;
    hide On, Fit;
    var t := SymmetricDifference(s, Range(from, to));
    forall i: nat ensures On(words, W, i) <==> i in t {
      RepresentsOn(was, W, n, s, i);
    }
    RepresentsIfOn(words, W, n, t);
  }

  lemma FlippedRepresents(words: seq<nat>, was: seq<nat>, W: nat, n: nat, s: set<nat>)
    requires Represents(was, W, n, s) && Fit(words, W)
    requires forall i: nat :: On(words, W, i) <==> i < n && !On(was, W, i)
    ensures Represents(words, W, n, Everything(n) - s)
  {
    assert W > 0;
    hide On, Fit;
    forall i: nat ensures On(words, W, i) <==> i in Everything(n) - s {
      RepresentsOn(was, W, n, s, i);
    }
    RepresentsIfOn(words, W, n, Everything(n) - s);
  }

  class Bitset {
    /** The number of addressable bits. */
    const n: nat
    /** The number of bits in a word. */
    const W: nat
    const m_data: array<nat>

    ghost predicate Valid()
      reads m_data
    {
      m_data.Length == PageCountFor(n, if W > 0 then W else 1) && Represents(m_data[..], W, n, Positions())
    }

    /** The set positions. */
    ghost function Positions(): set<nat>
      reads m_data
    {
      if W > 0 then Members(m_data[..], W, n) else {}
    }

    constructor (n: nat)
      requires n > 0
      ensures Valid() && Positions() == {} && this.n == n && this.W == (if n / 64 > 0 then 64 else 32) && fresh(m_data)
    {
      var w := if n / 64 > 0 then 64 else 32;
      this.n, this.W := n, w;
      m_data := new nat[PageCountFor(n, w)](_ => 0);
      new;
      Blank(m_data[..], w, n);
    }

    lemma Unfold()
      requires Valid()
      ensures W > 0 && n > 0 && m_data.Length == PageCountFor(n, W) && Fit(m_data[..], W)
      ensures Represents(m_data[..], W, n, Positions()) && Positions() == Members(m_data[..], W, n)
      ensures TailClear(m_data[..], W, n)
    {
    }

    lemma Fold(s: set<nat>)
      requires W > 0 && m_data.Length == PageCountFor(n, W) && Represents(m_data[..], W, n, s)
      ensures Valid() && Positions() == s
    {
    }

    /** Sets all bits. */
    method SetAll()
      requires Valid()
      modifies m_data
      ensures Valid() && Positions() == Everything(n)
    {
      hide *;
      Unfold();
      SetAllIn(m_data, W, n);
      EverythingBelow(n);
      RepresentsIfOn(m_data[..], W, n, Everything(n));
      Fold(Everything(n));
    }

    method Set(pos: nat, value: bool)
      requires Valid() && pos < n
      modifies m_data
      ensures Valid() && Positions() == if value then old(Positions()) + {pos} else old(Positions()) - {pos}
    {
      hide *;
      Unfold();
      ghost var was, s := m_data[..], Positions();
      InWords(pos, n, W);
      SetIn(m_data, W, pos, value);
      SetRepresents(m_data[..], was, W, n, s, pos, value);
      Fold(if value then s + {pos} else s - {pos});
    }

    /** Unsets one bit. */
    method Reset(pos: nat)
      requires Valid() && pos < n
      modifies m_data
      ensures Valid() && Positions() == old(Positions()) - {pos}
    {
      Set(pos, false);
    }

    /** Unsets all bits. */
    method ResetAll()
      requires Valid()
      modifies m_data
      ensures Valid() && Positions() == {}
    {
      hide *;
      Unfold();
      ghost var was := m_data[..];
      ClearWordsIn(m_data, W, m_data.Length);
      OnBelow(was, W);
      RepresentsIfOn(m_data[..], W, n, {});
      Fold({});
    }

    /** Flips all bits and keeps the rest of the last word clear. */
    method FlipAll()
      requires Valid()
      modifies m_data
      ensures Valid() && Positions() == Everything(n) - old(Positions())
    {
      hide *;
      Unfold();
      ghost var was, s := m_data[..], Positions();
      TailShape(n, W);
      if SlotIdx(n, W) != 0 {
        FlipWordsIn(m_data, W, m_data.Length - 1);
        FlipLastIn(m_data, W, n);
      } else {
        FlipWordsIn(m_data, W, m_data.Length);
      }
      OnBelow(was, W);
      FlippedRepresents(m_data[..], was, W, n, s);
      Fold(Everything(n) - s);
    }

    method Flip(pos: nat)
      requires Valid() && pos < n
      modifies m_data
      ensures Valid() && Positions() == SymmetricDifference(old(Positions()), {pos})
    {
      hide *;
      Unfold();
      ghost var was, s := m_data[..], Positions();
      InWords(pos, n, W);
      FlipIn(m_data, W, pos);
      RepresentsOn(was, W, n, s, pos);
      SetRepresents(m_data[..], was, W, n, s, pos, pos !in s);
      OneFlipped(s, pos);
      Fold(SymmetricDifference(s, {pos}));
    }

    /** Flips exactly the bits from `bitFrom` to `bitTo`. */
    method FlipRange(bitFrom: nat, bitTo: nat)
      requires Valid() && bitFrom <= bitTo < n
      modifies m_data
      ensures Valid() && Positions() == SymmetricDifference(old(Positions()), Range(bitFrom, bitTo))
    {
      hide *;
      Unfold();
      ghost var was, s := m_data[..], Positions();
      InWords(bitTo, n, W);
      FlipRangeIn(m_data, W, bitFrom, bitTo);
      RangeRepresents(m_data[..], was, W, n, s, bitFrom, bitTo);
      Fold(SymmetricDifference(s, Range(bitFrom, bitTo)));
    }

    method Test(pos: nat) returns (ok: bool)
      requires Valid() && pos < n
      ensures ok <==> pos in Positions()
    {
      hide *;
      Unfold();
      InWords(pos, n, W);
      RepresentsOn(m_data[..], W, n, Positions(), pos);
      ok := TestIn(m_data, W, pos);
    }

    method All() returns (ok: bool)
      requires Valid()
      ensures ok <==> Positions() == Everything(n)
    {
      hide *;
      Unfold();
      ok := AllIn(m_data, W, n);
      AllMeans(m_data[..], W, n, Positions());
    }

    method Any() returns (ok: bool)
      requires Valid()
      ensures ok <==> Positions() != {}
    {
      hide *;
      Unfold();
      ok := AnyIn(m_data, W, m_data.Length);
      AnyMeans(m_data[..], W, n, Positions());
    }

    method None() returns (ok: bool)
      requires Valid()
      ensures ok <==> Positions() == {}
    {
      ok := Any();
      ok := !ok;
    }

    /** Nothing is counted past the size. */
    method Count() returns (total: nat)
      requires Valid()
      ensures total == |Positions()|
    {
      hide *;
      Unfold();
      total := CountIn(m_data, W, m_data.Length);
      WordsReach(n, W);
      MembersTail(m_data[..], W, n, Index(m_data.Length, 0, W));
    }

    /** Equal words, equal sets. */
    method Equals(other: Bitset) returns (ok: bool)
      requires Valid() && other.Valid() && other.n == n && other.W == W
      ensures ok <==> Positions() == other.Positions()
    {
      hide *;
      Unfold();
      other.Unfold();
      ok := EqualIn(m_data, other.m_data, m_data.Length);
      SameWordsIffSameMembers(m_data[..], other.m_data[..], W, n);
      assert m_data[..m_data.Length] == m_data[..][..m_data.Length];
      assert other.m_data[..m_data.Length] == other.m_data[..][..m_data.Length];
    }
  }

  lemma Blank(words: seq<nat>, W: nat, n: nat)
    requires W > 0 && n > 0 && forall k :: 0 <= k < |words| ==> words[k] == 0
    ensures Represents(words, W, n, {})
  {
    hide PageIdx, SlotIdx, Bit;
    forall i: nat ensures !On(words, W, i) {
      BitZero(SlotIdx(i, W));
    }
    assert Members(words, W, n) == {};
  }

  lemma EverythingBelow(n: nat)
    ensures forall i: nat :: i in Everything(n) <==> i < n
  {
  }

  lemma OnBelow(words: seq<nat>, W: nat)
    requires W > 0
    ensures forall i: nat :: On(words, W, i) ==> PageIdx(i, W) < |words|
  {
  }

  lemma OneFlipped(s: set<nat>, pos: nat)
    ensures SymmetricDifference(s, {pos}) == if pos !in s then s + {pos} else s - {pos}
  {
  }

  lemma AllMeans(words: seq<nat>, W: nat, n: nat, s: set<nat>)
    requires Represents(words, W, n, s)
    ensures (forall i: nat :: i < n ==> On(words, W, i)) <==> s == Everything(n)
  {
    hide On;
    if s == Everything(n) {
      forall i: nat | i < n ensures On(words, W, i) {
        assert i in Everything(n);
      }
    }
  }

  lemma AnyMeans(words: seq<nat>, W: nat, n: nat, s: set<nat>)
    requires Represents(words, W, n, s)
    ensures (exists i: nat :: PageIdx(i, W) < |words| && On(words, W, i)) <==> s != {}
  {
    OnBelow(words, W);
    hide On, PageIdx;
    if s != {} {
      var i :| i in s;
      assert On(words, W, i);
    }
    forall i: nat | On(words, W, i) ensures i in s {
      RepresentsOn(words, W, n, s, i);
    }
  }

  lemma WordsReach(n: nat, W: nat)
    requires W > 0
    ensures n <= Index(PageCountFor(n, W), 0, W)
  {
    PageCount(n, W);
    hide PageIdx, SlotIdx, PageCountFor;
    if n > 0 {
      Division(n - 1, W);
      if PageIdx(n - 1, W) + 1 < PageCountFor(n, W) {
        MultipleGap(PageIdx(n - 1, W) + 1, PageCountFor(n, W), W);
      }
      MultipleStep(PageIdx(n - 1, W), W);
    }
  }
}
