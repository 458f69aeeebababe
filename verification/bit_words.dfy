/** A row of words as a set of positions, and the in-place loops the bit sets share. */
module BitWords {
  import opened Powers
  import opened Words
  import opened WordScans
  import opened Paging

  /** Every word fits its width. */
  ghost predicate Fit(words: seq<nat>, W: nat) {
    W > 0 && forall k :: 0 <= k < |words| ==> words[k] < Pow2(W)
  }

  /** Whether the bit at a position is set; positions beyond the words are clear. */
  ghost predicate On(words: seq<nat>, W: nat, i: nat)
    requires W > 0
  {
    PageIdx(i, W) < |words| && Bit(words[PageIdx(i, W)], SlotIdx(i, W))
  }

  /** The set positions below `n`. */
  ghost function Members(words: seq<nat>, W: nat, n: nat): set<nat>
    requires W > 0
  {
    set i: nat | i < n && On(words, W, i)
  }

  /** No position from `n` on is set. */
  ghost predicate TailClear(words: seq<nat>, W: nat, n: nat)
    requires W > 0
  {
    forall i: nat :: n <= i ==> !On(words, W, i)
  }

  lemma OnOneWord(words: seq<nat>, W: nat, k: nat, w: nat, i: nat)
    requires W > 0 && k < |words|
    ensures On(words[k := w], W, i) <==> if PageIdx(i, W) == k then Bit(w, SlotIdx(i, W)) else On(words, W, i)
  {
  }

  // Masks

  lemma {:induction false} Pow2Strict(j: nat, k: nat)
    requires j < k
    ensures Pow2(j) < Pow2(k)
    decreases k
  {
    if j < k - 1 {
      Pow2Strict(j, k - 1);
    }
  }

  lemma ShlOne(k: nat, W: nat)
    requires k < W
    ensures Shl(1, k, W) == Pow2(k) < Pow2(W)
  {
    Pow2Strict(k, W);
    hide Pow2;
    SmallMod(1 * Pow2(k), Pow2(W));
  }

  lemma SmallMod(x: nat, m: nat)
    requires x < m
    ensures x % m == x
  {
  }

  /** The word mask of the bits from `from` to `to`, both included. */
  function GetMask(from: nat, to: nat, W: nat): (m: nat)
    requires from <= to < W
    ensures m < Pow2(W)
  {
    var diff := to - from;
    if diff == W - 1 then Pow2(W) - 1
    else
      ShlOne(diff + 1, W);
      Shl(Shl(1, diff + 1, W) - 1, from, W)
  }

  lemma BitGetMask(from: nat, to: nat, W: nat, i: nat)
    requires from <= to < W && i < W
    ensures Bit(GetMask(from, to, W), i) <==> from <= i <= to
  {
    hide Bit;
    var diff := to - from;
    if diff == W - 1 {
      BitOnes(W, i);
    } else {
      ShlOne(diff + 1, W);
      BitShl(Pow2(diff + 1) - 1, from, W, i);
      if from <= i {
        BitOnes(diff + 1, i - from);
      }
    }
  }

  /** The low bits that belong to the last word of `n` bits; zero when the last word is full. */
  function LastMask(n: nat, W: nat): (m: nat)
    requires W > 0
    ensures m < Pow2(W)
  {
    ShlOne(SlotIdx(n, W), W);
    Shl(1, SlotIdx(n, W), W) - 1
  }

  lemma BitLastMask(n: nat, W: nat, i: nat)
    requires W > 0
    ensures Bit(LastMask(n, W), i) <==> i < SlotIdx(n, W)
    ensures LastMask(n, W) == 0 <==> SlotIdx(n, W) == 0
  {
    hide Bit;
    ShlOne(SlotIdx(n, W), W);
    BitOnes(SlotIdx(n, W), i);
    if SlotIdx(n, W) > 0 {
      Pow2Strict(0, SlotIdx(n, W));
    }
  }

  // One word

  lemma SetWord(w: nat, b: nat, W: nat)
    requires w < Pow2(W) && b < W
    ensures Or(w, Shl(1, b, W)) < Pow2(W)
    ensures forall i: nat :: Bit(Or(w, Shl(1, b, W)), i) <==> Bit(w, i) || i == b
  {
    hide Bit;
    ShlOne(b, W);
    OrFits(w, Pow2(b), W);
    forall i: nat ensures Bit(Or(w, Shl(1, b, W)), i) <==> Bit(w, i) || i == b {
      BitOr(w, Pow2(b), i);
      BitOne(b, i);
    }
  }

  lemma ClearWord(w: nat, b: nat, W: nat)
    requires w < Pow2(W) && b < W
    ensures And(w, Not(Shl(1, b, W), W)) < Pow2(W)
    ensures forall i: nat :: i < W ==> (Bit(And(w, Not(Shl(1, b, W), W)), i) <==> Bit(w, i) && i != b)
  {
    hide Bit;
    ShlOne(b, W);
    AndFits(w, Not(Pow2(b), W), W);
    forall i: nat | i < W ensures Bit(And(w, Not(Shl(1, b, W), W)), i) <==> Bit(w, i) && i != b {
      BitAnd(w, Not(Pow2(b), W), i);
      BitNot(Pow2(b), W, i);
      BitOne(b, i);
    }
  }

  lemma XorWord(w: nat, m: nat, W: nat)
    requires w < Pow2(W) && m < Pow2(W)
    ensures Xor(w, m) < Pow2(W)
    ensures forall i: nat :: Bit(Xor(w, m), i) <==> Bit(w, i) != Bit(m, i)
  {
    hide Bit;
    XorFits(w, m, W);
    forall i: nat ensures Bit(Xor(w, m), i) <==> Bit(w, i) != Bit(m, i) {
      BitXor(w, m, i);
    }
  }

  lemma TestWord(w: nat, b: nat, W: nat)
    requires w < Pow2(W) && b < W
    ensures And(w, Shl(1, b, W)) != 0 <==> Bit(w, b)
  {
    hide Bit;
    ShlOne(b, W);
    AndFits(w, Pow2(b), W);
    forall i: nat | i < W ensures Bit(And(w, Pow2(b)), i) <==> Bit(w, i) && i == b {
      BitAnd(w, Pow2(b), i);
      BitOne(b, i);
    }
    ZeroIffNoBit(And(w, Pow2(b)), W);
    assert Bit(And(w, Pow2(b)), b) <==> Bit(w, b);
  }

  // In place

  /** How `TestIn` and the writes below name a bit of the array. */
  lemma WordOf(words: seq<nat>, W: nat, pos: nat)
    requires Fit(words, W) && PageIdx(pos, W) < |words|
    ensures words[PageIdx(pos, W)] < Pow2(W)
    ensures On(words, W, pos) <==> Bit(words[PageIdx(pos, W)], SlotIdx(pos, W))
  {
  }

  /** One word rewritten so that only the bit at `pos` may differ. */
  lemma OneBit(words: seq<nat>, W: nat, pos: nat, w: nat)
    requires Fit(words, W) && PageIdx(pos, W) < |words| && w < Pow2(W)
    requires forall i: nat :: i < W && i != SlotIdx(pos, W) ==> (Bit(w, i) <==> Bit(words[PageIdx(pos, W)], i))
    ensures Fit(words[PageIdx(pos, W) := w], W)
    ensures On(words[PageIdx(pos, W) := w], W, pos) <==> Bit(w, SlotIdx(pos, W))
    ensures forall i: nat :: i != pos ==> (On(words[PageIdx(pos, W) := w], W, i) <==> On(words, W, i))
  {
    hide PageIdx, SlotIdx, Bit;
    forall i: nat | i != pos ensures On(words[PageIdx(pos, W) := w], W, i) <==> On(words, W, i) {
      if PageIdx(i, W) == PageIdx(pos, W) && SlotIdx(i, W) == SlotIdx(pos, W) {
        SplitInjective(i, pos, W);
      }
    }
  }

  /** The bit at `pos` is as asked, no other changed. */
  ghost predicate BitIs(words: seq<nat>, was: seq<nat>, W: nat, pos: nat, value: bool)
    requires W > 0
  {
    && |words| == |was| && Fit(words, W)
    && (On(words, W, pos) <==> value)
    && forall i: nat :: i != pos ==> (On(words, W, i) <==> On(was, W, i))
  }

  method SetIn(a: array<nat>, W: nat, pos: nat, value: bool)
    requires Fit(a[..], W) && PageIdx(pos, W) < a.Length
    modifies a
    ensures BitIs(a[..], old(a[..]), W, pos, value)
  {
    hide PageIdx, SlotIdx, Bit, Shl, Not, And, Or;
    ghost var was := a[..];
    var k, b := PageIdx(pos, W), SlotIdx(pos, W);
    WordOf(was, W, pos);
    if value {
      SetWord(a[k], b, W);
      a[k] := Or(a[k], Shl(1, b, W));
    } else {
      ClearWord(a[k], b, W);
      a[k] := And(a[k], Not(Shl(1, b, W), W));
    }
    assert a[..] == was[k := a[k]];
    OneBit(was, W, pos, a[k]);
  }

  method FlipIn(a: array<nat>, W: nat, pos: nat)
    requires Fit(a[..], W) && PageIdx(pos, W) < a.Length
    modifies a
    ensures BitIs(a[..], old(a[..]), W, pos, !old(On(a[..], W, pos)))
  {
    hide PageIdx, SlotIdx, Bit, Shl, Xor;
    ghost var was := a[..];
    var k, b := PageIdx(pos, W), SlotIdx(pos, W);
    WordOf(was, W, pos);
    ShlOne(b, W);
    XorWord(a[k], Shl(1, b, W), W);
    forall i: nat ensures Bit(Shl(1, b, W), i) <==> i == b {
      BitOne(b, i);
    }
    a[k] := Xor(a[k], Shl(1, b, W));
    assert a[..] == was[k := a[k]];
    OneBit(was, W, pos, a[k]);
  }

  method TestIn(a: array<nat>, W: nat, pos: nat) returns (ok: bool)
    requires Fit(a[..], W) && PageIdx(pos, W) < a.Length
    ensures ok <==> On(a[..], W, pos)
  {
    hide PageIdx, SlotIdx, Bit, Shl, And;
    WordOf(a[..], W, pos);
    TestWord(a[PageIdx(pos, W)], SlotIdx(pos, W), W);
    ok := And(a[PageIdx(pos, W)], Shl(1, SlotIdx(pos, W), W)) != 0;
  }

  /** The bits of word `k` from `lo` to `hi` turned over, no other bit changed. */
  ghost predicate Turned(words: seq<nat>, was: seq<nat>, W: nat, k: nat, lo: nat, hi: nat)
    requires W > 0
  {
    && |words| == |was| && Fit(words, W) && k < |was|
    && forall i: nat :: On(words, W, i) <==> (On(was, W, i) != (PageIdx(i, W) == k && lo <= SlotIdx(i, W) <= hi))
  }

  method TurnIn(a: array<nat>, W: nat, k: nat, lo: nat, hi: nat)
    requires Fit(a[..], W) && k < a.Length && lo <= hi < W
    modifies a
    ensures Turned(a[..], old(a[..]), W, k, lo, hi)
  {
    hide PageIdx, SlotIdx, Bit, GetMask, Xor;
    ghost var was := a[..];
    assert was[k] == a[k];
    XorWord(a[k], GetMask(lo, hi, W), W);
    ghost var m := GetMask(lo, hi, W);
    forall i: nat | i < W ensures Bit(m, i) <==> lo <= i <= hi {
      BitGetMask(lo, hi, W, i);
    }
    a[k] := Xor(a[k], GetMask(lo, hi, W));
    assert a[..] == was[k := a[k]];
  }

  method NotIn(a: array<nat>, W: nat, k: nat)
    requires Fit(a[..], W) && k < a.Length
    modifies a
    ensures Turned(a[..], old(a[..]), W, k, 0, W - 1)
  {
    hide PageIdx, SlotIdx, Bit, Not;
    ghost var was := a[..];
    assert was[k] == a[k];
    ghost var w := a[k];
    a[k] := Not(a[k], W);
    assert a[..] == was[k := a[k]];
    forall i: nat | i < W ensures Bit(Not(w, W), i) <==> !Bit(w, i) {
      BitNot(w, W, i);
    }
  }

  /** The bits from `from` to `to` turned over, no other bit changed. */
  ghost predicate RangeTurned(words: seq<nat>, was: seq<nat>, W: nat, from: nat, to: int)
    requires W > 0
  {
    && |words| == |was| && Fit(words, W)
    && forall i: nat :: On(words, W, i) <==> (On(was, W, i) != (from <= i <= to))
  }

  /** Turning over a stretch that starts where the turned range ends extends the range. */
  lemma RangeTurnedMore(words: seq<nat>, mid: seq<nat>, was: seq<nat>, W: nat, from: nat, k: nat, lo: nat, hi: nat)
    requires W > 0 && lo <= hi < W && from <= Index(k, lo, W)
    requires RangeTurned(mid, was, W, from, Index(k, lo, W) - 1) && Turned(words, mid, W, k, lo, hi)
    ensures RangeTurned(words, was, W, from, Index(k, hi, W))
  {
    hide On, Fit, PageIdx, SlotIdx, Index;
    IndexOrder(k, lo, hi, W);
    forall i: nat ensures On(words, W, i) <==> (On(was, W, i) != (from <= i <= Index(k, hi, W))) {
      InWord(i, W, k, lo, hi);
      assert On(words, W, i) <==> (On(mid, W, i) != (PageIdx(i, W) == k && lo <= SlotIdx(i, W) <= hi));
    }
  }

  lemma IndexOrder(k: nat, lo: nat, hi: nat, W: nat)
    requires lo <= hi
    ensures Index(k, lo, W) <= Index(k, hi, W)
    ensures Index(k, W, W) == Index(k + 1, 0, W)
  {
    assert (k + 1) * W == k * W + W;
  }

  /** The inclusive range flip through a first, middle and last word. */
  method FlipRangeIn(a: array<nat>, W: nat, bitFrom: nat, bitTo: nat)
    requires Fit(a[..], W) && bitFrom <= bitTo && PageIdx(bitTo, W) < a.Length
    modifies a
    ensures RangeTurned(a[..], old(a[..]), W, bitFrom, bitTo)
  {
    assert W > 0;
    hide PageIdx, SlotIdx, Index, On, Fit, Turned, Bit;
    ghost var was := a[..];
    var wordIdxFrom, wordIdxTo := PageIdx(bitFrom, W), PageIdx(bitTo, W);
    Monotonic(bitFrom, bitTo, W);
    SplitUnique(bitFrom, W);
    SplitUnique(bitTo, W);
    if wordIdxFrom == wordIdxTo {
      SameWordOrder(bitFrom, bitTo, W);
      TurnIn(a, W, wordIdxTo, SlotIdx(bitFrom, W), SlotIdx(bitTo, W));
      RangeTurnedMore(a[..], was, was, W, bitFrom, wordIdxFrom, SlotIdx(bitFrom, W), SlotIdx(bitTo, W));
    } else {
      ghost var mid := was;
      TurnIn(a, W, wordIdxFrom, SlotIdx(bitFrom, W), W - 1);
      RangeTurnedMore(a[..], mid, was, W, bitFrom, wordIdxFrom, SlotIdx(bitFrom, W), W - 1);
      WordEnd(wordIdxFrom, W);
      WordStart(bitFrom, wordIdxFrom + 1, W);
      for i := wordIdxFrom + 1 to wordIdxTo
        invariant RangeTurned(a[..], was, W, bitFrom, Index(i, 0, W) - 1) && bitFrom <= Index(i, 0, W)
      {
        mid := a[..];
        NotIn(a, W, i);
        RangeTurnedMore(a[..], mid, was, W, bitFrom, i, 0, W - 1);
        WordEnd(i, W);
      }
      mid := a[..];
      TurnIn(a, W, wordIdxTo, 0, SlotIdx(bitTo, W));
      RangeTurnedMore(a[..], mid, was, W, bitFrom, wordIdxTo, 0, SlotIdx(bitTo, W));
    }
  }

  lemma SameWordOrder(i: nat, j: nat, W: nat)
    requires W > 0 && i <= j && PageIdx(i, W) == PageIdx(j, W)
    ensures SlotIdx(i, W) <= SlotIdx(j, W)
  {
    hide PageIdx, SlotIdx;
    Division(i, W);
    Division(j, W);
  }

  lemma WordEnd(k: nat, W: nat)
    requires W > 0
    ensures Index(k, W - 1, W) == Index(k + 1, 0, W) - 1 && Index(k, 0, W) <= Index(k + 1, 0, W)
  {
    assert (k + 1) * W == k * W + W;
  }

  lemma WordStart(i: nat, k: nat, W: nat)
    requires W > 0 && PageIdx(i, W) < k
    ensures i < Index(k, 0, W)
  {
    hide PageIdx, SlotIdx;
    Division(i, W);
    MultipleGap(PageIdx(i, W), k, W);
  }

  /** A stretch of one word is a stretch of positions. */
  lemma InWord(i: nat, W: nat, k: nat, lo: nat, hi: nat)
    requires W > 0 && lo <= hi < W
    ensures PageIdx(i, W) == k && lo <= SlotIdx(i, W) <= hi <==> Index(k, lo, W) <= i <= Index(k, hi, W)
  {
    hide PageIdx, SlotIdx;
    SplitUnique(i, W);
    if Index(k, lo, W) <= i <= Index(k, hi, W) {
      var s := i - Index(k, 0, W);
      assert Index(k, s, W) == i;
    }
  }

  // Whole words

  /** Counting a word's bits counts its members. */
  lemma {:induction false} MembersUpTo(words: seq<nat>, W: nat, k: nat, b: nat)
    requires W > 0 && k < |words| && b <= W
    ensures |Members(words, W, Index(k, b, W))| == |Members(words, W, Index(k, 0, W))| + |BitSet(words[k], b)|
    decreases b
  {
    hide PageIdx, SlotIdx, Bit;
    if b == 0 {
      assert BitSet(words[k], 0) == {};
    } else {
      MembersUpTo(words, W, k, b - 1);
      BitSetTop(words[k], b);
      var i := Index(k, b - 1, W);
      IndexSplits(k, b - 1, W);
      assert Index(k, b, W) == i + 1;
      var rest := Members(words, W, i);
      assert On(words, W, i) <==> Bit(words[k], b - 1);
      if On(words, W, i) {
        assert Members(words, W, i + 1) == rest + {i};
      } else {
        assert Members(words, W, i + 1) == rest;
      }
    }
  }

  method CountIn(a: array<nat>, W: nat, items: nat) returns (total: nat)
    requires Fit(a[..], W) && items <= a.Length
    ensures total == |Members(a[..], W, Index(items, 0, W))|
  {
    hide PageIdx, SlotIdx, Bit, Index, BitSet;
    total := 0;
    MembersNone(a[..], W);
    for i := 0 to items
      invariant total == |Members(a[..], W, Index(i, 0, W))|
    {
      MembersUpTo(a[..], W, i, W);
      IndexOrder(i, 0, W, W);
      var bits := PopCnt(a[i], W);
      total := total + bits;
    }
  }

  lemma MembersNone(words: seq<nat>, W: nat)
    requires W > 0
    ensures |Members(words, W, Index(0, 0, W))| == 0
  {
    assert Members(words, W, 0) == {};
  }

  /** With a clear tail the members do not depend on how far past the size one looks. */
  lemma MembersTail(words: seq<nat>, W: nat, n: nat, m: nat)
    requires W > 0 && TailClear(words, W, n) && n <= m
    ensures Members(words, W, m) == Members(words, W, n)
  {
    hide On;
  }

  method EqualIn(a: array<nat>, b: array<nat>, items: nat) returns (ok: bool)
    requires items <= a.Length && items <= b.Length
    ensures ok <==> a[..items] == b[..items]
  {
    for i := 0 to items
      invariant a[..i] == b[..i]
    {
      if a[i] != b[i] {
        assert a[..items][i] != b[..items][i];
        return false;
      }
    }
    return true;
  }

  /** Equal words are equal sets. */
  lemma SameWordsIffSameMembers(a: seq<nat>, b: seq<nat>, W: nat, n: nat)
    requires Fit(a, W) && Fit(b, W) && TailClear(a, W, n) && TailClear(b, W, n)
    requires PageCountFor(n, W) <= |a| && PageCountFor(n, W) <= |b|
    ensures a[..PageCountFor(n, W)] == b[..PageCountFor(n, W)] <==> Members(a, W, n) == Members(b, W, n)
  {
    var items := PageCountFor(n, W);
    PageCount(n, W);
    hide PageIdx, SlotIdx, Bit, PageCountFor;
    if a[..items] == b[..items] {
      forall i: nat | i < n ensures On(a, W, i) == On(b, W, i) {
        assert a[..items][PageIdx(i, W)] == b[..items][PageIdx(i, W)];
      }
    }
    if Members(a, W, n) == Members(b, W, n) {
      forall k | 0 <= k < items ensures a[k] == b[k] {
        forall i | 0 <= i < W ensures Bit(a[k], i) == Bit(b[k], i) {
          var at := Index(k, i, W);
          IndexSplits(k, i, W);
          assert On(a, W, at) == On(b, W, at) by {
            assert at < n ==> (at in Members(a, W, n) <==> at in Members(b, W, n));
          }
        }
        SameBits(a[k], b[k], W);
      }
    }
  }

  method FlipWordsIn(a: array<nat>, W: nat, items: nat)
    requires Fit(a[..], W) && items <= a.Length
    modifies a
    ensures Fit(a[..], W)
    ensures forall i: nat :: On(a[..], W, i) <==> (On(old(a[..]), W, i) != (PageIdx(i, W) < items))
  {
    assert W > 0;
    hide PageIdx, SlotIdx, Bit, On, Fit;
    ghost var was := a[..];
    for k := 0 to items
      invariant Fit(a[..], W)
      invariant forall i: nat :: On(a[..], W, i) <==> (On(was, W, i) != (PageIdx(i, W) < k))
    {
      ghost var mid := a[..];
      NotIn(a, W, k);
      forall i: nat ensures On(a[..], W, i) <==> (On(was, W, i) != (PageIdx(i, W) < k + 1)) {
        assert On(a[..], W, i) <==> (On(mid, W, i) != (PageIdx(i, W) == k && 0 <= SlotIdx(i, W) <= W - 1));
      }
    }
  }

  // The last word

  /** Where the positions below the size end: inside the last word, or with it. */
  lemma TailShape(n: nat, W: nat)
    requires W > 0 && n > 0
    ensures PageCountFor(n, W) == if SlotIdx(n, W) != 0 then PageIdx(n, W) + 1 else PageIdx(n, W)
    ensures PageCountFor(n, W) > 0
    ensures forall i: nat :: i < n <==>
      PageIdx(i, W) < PageIdx(n, W) || (PageIdx(i, W) == PageIdx(n, W) && SlotIdx(i, W) < SlotIdx(n, W))
  {
    PageCount(n, W);
    PageCount(n - 1, W);
    assert PageCountFor(n, W) == PageIdx(n - 1, W) + 1;
    hide PageIdx, SlotIdx, PageCountFor;
    Division(n, W);
    forall i: nat ensures i < n <==>
      PageIdx(i, W) < PageIdx(n, W) || (PageIdx(i, W) == PageIdx(n, W) && SlotIdx(i, W) < SlotIdx(n, W))
    {
      PlaceOrder(i, n, W);
    }
    PlaceOrder(n - 1, n, W);
    if SlotIdx(n, W) == 0 {
      NextPlace(n - 1, W);
    } else {
      NextPlace(n - 1, W);
    }
  }

  lemma PlaceOrder(i: nat, n: nat, W: nat)
    requires W > 0
    ensures i < n <==>
      PageIdx(i, W) < PageIdx(n, W) || (PageIdx(i, W) == PageIdx(n, W) && SlotIdx(i, W) < SlotIdx(n, W))
  {
    hide PageIdx, SlotIdx;
    Division(i, W);
    Division(n, W);
    if PageIdx(i, W) < PageIdx(n, W) {
      MultipleGap(PageIdx(i, W), PageIdx(n, W), W);
    } else if PageIdx(i, W) > PageIdx(n, W) {
      MultipleGap(PageIdx(n, W), PageIdx(i, W), W);
    }
  }

  lemma NextPlace(i: nat, W: nat)
    requires W > 0
    ensures if SlotIdx(i, W) + 1 < W
      then PageIdx(i + 1, W) == PageIdx(i, W) && SlotIdx(i + 1, W) == SlotIdx(i, W) + 1
      else PageIdx(i + 1, W) == PageIdx(i, W) + 1 && SlotIdx(i + 1, W) == 0
  {
    hide PageIdx, SlotIdx;
    Division(i, W);
    if SlotIdx(i, W) + 1 < W {
      assert Index(PageIdx(i, W), SlotIdx(i, W) + 1, W) == i + 1;
      IndexSplits(PageIdx(i, W), SlotIdx(i, W) + 1, W);
    } else {
      MultipleStep(PageIdx(i, W), W);
      assert Index(PageIdx(i, W) + 1, 0, W) == i + 1;
      IndexSplits(PageIdx(i, W) + 1, 0, W);
    }
  }

  lemma MultipleStep(p: nat, W: nat)
    ensures (p + 1) * W == p * W + W
  {
  }

  method FillWordsIn(a: array<nat>, W: nat, items: nat)
    requires Fit(a[..], W) && items <= a.Length
    modifies a
    ensures Fit(a[..], W)
    ensures forall i: nat :: On(a[..], W, i) <==> (PageIdx(i, W) < items || On(old(a[..]), W, i))
  {
    hide PageIdx, SlotIdx, Bit;
    ghost var was := a[..];
    for k := 0 to items
      invariant Fit(a[..], W)
      invariant forall i: nat :: On(a[..], W, i) <==> (PageIdx(i, W) < k || On(was, W, i))
    {
      ghost var mid := a[..];
      a[k] := Pow2(W) - 1;
      assert a[..] == mid[k := a[k]];
      forall i: nat ensures On(a[..], W, i) <==> (PageIdx(i, W) < k + 1 || On(was, W, i)) {
        OnOneWord(mid, W, k, Pow2(W) - 1, i);
        BitOnes(W, SlotIdx(i, W));
      }
    }
  }

  method ClearWordsIn(a: array<nat>, W: nat, items: nat)
    requires Fit(a[..], W) && items <= a.Length
    modifies a
    ensures Fit(a[..], W)
    ensures forall i: nat :: On(a[..], W, i) <==> (PageIdx(i, W) >= items && On(old(a[..]), W, i))
  {
    hide PageIdx, SlotIdx, Bit;
    ghost var was := a[..];
    for k := 0 to items
      invariant Fit(a[..], W)
      invariant forall i: nat :: On(a[..], W, i) <==> (PageIdx(i, W) >= k && On(was, W, i))
    {
      ghost var mid := a[..];
      a[k] := 0;
      assert a[..] == mid[k := 0];
      forall i: nat ensures On(a[..], W, i) <==> (PageIdx(i, W) >= k + 1 && On(was, W, i)) {
        OnOneWord(mid, W, k, 0, i);
        BitZero(SlotIdx(i, W));
      }
    }
  }

  /** Exactly the positions below the size are set, in the words the size needs; other words are as before. */
  method SetAllIn(a: array<nat>, W: nat, n: nat)
    requires Fit(a[..], W) && n > 0 && PageCountFor(n, W) <= a.Length && TailClear(a[..], W, n)
    modifies a
    ensures Fit(a[..], W)
    ensures forall i: nat :: On(a[..], W, i) <==> i < n
  {
    hide PageIdx, SlotIdx, Bit, PageCountFor, LastMask, Fit;
    ghost var was := a[..];
    assert W > 0 by { FitWidth(was, W); }
    TailShape(n, W);
    var item_count := PageCountFor(n, W);
    var lastItemMask := LastMask(n, W);
    BitLastMask(n, W, 0);
    if lastItemMask != 0 {
      FillWordsIn(a, W, item_count - 1);
      ghost var mid := a[..];
      a[item_count - 1] := lastItemMask;
      assert a[..] == mid[item_count - 1 := lastItemMask];
      FitOne(mid, W, item_count - 1, lastItemMask);
      forall i: nat ensures On(a[..], W, i) <==> i < n {
        OnOneWord(mid, W, item_count - 1, lastItemMask, i);
        BitLastMask(n, W, SlotIdx(i, W));
      }
    } else {
      FillWordsIn(a, W, item_count);
    }
  }

  lemma FitWidth(words: seq<nat>, W: nat)
    requires Fit(words, W)
    ensures W > 0
  {
  }

  lemma FitOne(words: seq<nat>, W: nat, k: nat, w: nat)
    requires Fit(words, W) && k < |words| && w < Pow2(W)
    ensures Fit(words[k := w], W)
  {
  }

  /** The last word turned over and cut to the size. */
  method FlipLastIn(a: array<nat>, W: nat, n: nat)
    requires Fit(a[..], W) && n > 0 && SlotIdx(n, W) != 0 && PageIdx(n, W) < a.Length
    modifies a
    ensures Fit(a[..], W)
    ensures forall i: nat :: On(a[..], W, i) <==>
      if PageIdx(i, W) == PageIdx(n, W) then SlotIdx(i, W) < SlotIdx(n, W) && !On(old(a[..]), W, i)
      else On(old(a[..]), W, i)
  {
    hide PageIdx, SlotIdx, Bit, LastMask, Not, And;
    ghost var was := a[..];
    var k := PageIdx(n, W);
    assert was[k] == a[k];
    ghost var w := And(Not(a[k], W), LastMask(n, W));
    AndFits(Not(a[k], W), LastMask(n, W), W);
    a[k] := And(Not(a[k], W), LastMask(n, W));
    assert a[..] == was[k := w];
    forall i: nat ensures On(a[..], W, i) <==>
      if PageIdx(i, W) == k then SlotIdx(i, W) < SlotIdx(n, W) && !On(was, W, i) else On(was, W, i)
    {
      OnOneWord(was, W, k, w, i);
      BitAnd(Not(was[k], W), LastMask(n, W), SlotIdx(i, W));
      BitNot(was[k], W, SlotIdx(i, W));
      BitLastMask(n, W, SlotIdx(i, W));
    }
  }

  /** All bits below `k` are set. */
  ghost predicate Filled(w: nat, k: nat) {
    forall i: nat :: i < k ==> Bit(w, i)
  }

  lemma FullWord(w: nat, W: nat)
    requires w < Pow2(W)
    ensures w == Pow2(W) - 1 <==> Filled(w, W)
  {
    hide Bit;
    var ones := Pow2(W) - 1;
    forall i: nat | i < W ensures Bit(ones, i) {
      BitOnes(W, i);
    }
    assert Filled(ones, W);
    if Filled(w, W) {
      SameBits(w, ones, W);
    }
  }

  lemma CoversMask(w: nat, n: nat, W: nat)
    requires W > 0 && w < Pow2(W)
    ensures And(w, LastMask(n, W)) == LastMask(n, W) <==> Filled(w, SlotIdx(n, W))
  {
    hide Bit, And, LastMask, SlotIdx;
    var m := LastMask(n, W);
    AndFits(w, m, W);
    forall i: nat ensures Bit(And(w, m), i) <==> Bit(w, i) && i < SlotIdx(n, W) {
      BitAnd(w, m, i);
      BitLastMask(n, W, i);
    }
    forall i: nat ensures Bit(m, i) <==> i < SlotIdx(n, W) {
      BitLastMask(n, W, i);
    }
    if Filled(w, SlotIdx(n, W)) {
      SameBits(And(w, m), m, W);
    }
  }

  /** Whether the first words are all ones. */
  method FullWordsIn(a: array<nat>, W: nat, items: nat) returns (ok: bool)
    requires Fit(a[..], W) && items <= a.Length
    ensures ok <==> forall i: nat :: PageIdx(i, W) < items ==> On(a[..], W, i)
  {
    hide PageIdx, SlotIdx, Bit;
    for k := 0 to items
      invariant forall i: nat :: PageIdx(i, W) < k ==> On(a[..], W, i)
    {
      assert a[..][k] == a[k];
      FullWord(a[k], W);
      if a[k] != Pow2(W) - 1 {
        ghost var b: nat :| b < W && !Bit(a[k], b);
        IndexSplits(k, b, W);
        assert !On(a[..], W, Index(k, b, W));
        return false;
      }
      forall i: nat | PageIdx(i, W) < k + 1 ensures On(a[..], W, i) {
        assert PageIdx(i, W) == k ==> Bit(a[k], SlotIdx(i, W));
      }
    }
    return true;
  }

  /** Whether the masked part of the last word is all ones. */
  method FullLastIn(a: array<nat>, W: nat, n: nat) returns (ok: bool)
    requires Fit(a[..], W) && PageIdx(n, W) < a.Length
    ensures ok <==> forall i: nat :: PageIdx(i, W) == PageIdx(n, W) && SlotIdx(i, W) < SlotIdx(n, W) ==> On(a[..], W, i)
  {
    hide PageIdx, SlotIdx, Bit, LastMask, And;
    var k := PageIdx(n, W);
    assert a[..][k] == a[k];
    CoversMask(a[k], n, W);
    ok := And(a[k], LastMask(n, W)) == LastMask(n, W);
    if ok {
      forall i: nat | PageIdx(i, W) == k && SlotIdx(i, W) < SlotIdx(n, W) ensures On(a[..], W, i) {
        assert Bit(a[k], SlotIdx(i, W));
      }
    } else {
      ghost var b: nat :| b < SlotIdx(n, W) && !Bit(a[k], b);
      IndexSplits(k, b, W);
      assert !On(a[..], W, Index(k, b, W));
    }
  }

  /** Whether every position below the size is set. */
  method AllIn(a: array<nat>, W: nat, n: nat) returns (ok: bool)
    requires Fit(a[..], W) && n > 0 && PageCountFor(n, W) <= a.Length
    ensures ok <==> forall i: nat :: i < n ==> On(a[..], W, i)
  {
    assert W > 0 by { FitWidth(a[..], W); }
    hide PageIdx, SlotIdx, On, PageCountFor, Fit;
    TailShape(n, W);
    var item_count := PageCountFor(n, W);
    if SlotIdx(n, W) != 0 {
      ok := FullWordsIn(a, W, item_count - 1);
      if ok {
        ok := FullLastIn(a, W, n);
      }
    } else {
      ok := FullWordsIn(a, W, item_count);
    }
  }

  /** Whether any position is set in the first words. */
  method AnyIn(a: array<nat>, W: nat, items: nat) returns (ok: bool)
    requires Fit(a[..], W) && items <= a.Length
    ensures ok <==> exists i: nat :: PageIdx(i, W) < items && On(a[..], W, i)
  {
    hide PageIdx, SlotIdx, Bit;
    for k := 0 to items
      invariant forall i: nat :: PageIdx(i, W) < k ==> !On(a[..], W, i)
    {
      assert a[..][k] == a[k];
      ZeroIffNoBit(a[k], W);
      if a[k] != 0 {
        ghost var b: nat :| b < W && Bit(a[k], b);
        IndexSplits(k, b, W);
        assert On(a[..], W, Index(k, b, W));
        return true;
      }
      forall i: nat | PageIdx(i, W) < k + 1 ensures !On(a[..], W, i) {
        assert PageIdx(i, W) == k ==> !Bit(a[k], SlotIdx(i, W));
      }
    }
    return false;
  }
}
