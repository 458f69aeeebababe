/** The bit set that grows: its words may reach past its size, and must be clear there. */
module DynamicBitsets {
  import opened Words
  import opened Paging
  import opened BitWords
  import opened Bitsets

  /** The first `k` words, and zeros behind them. */
  function Copied(words: seq<nat>, k: nat, m: nat): (r: seq<nat>)
    requires k <= |words| && k <= m
    ensures |r| == m
  {
    words[..k] + seq(m - k, _ => 0)
  }

  lemma OnCopied(words: seq<nat>, W: nat, k: nat, m: nat)
    requires Fit(words, W) && k <= |words| && k <= m
    ensures Fit(Copied(words, k, m), W)
    ensures forall i: nat :: On(Copied(words, k, m), W, i) <==> PageIdx(i, W) < k && On(words, W, i)
  {
    hide PageIdx, SlotIdx, Bit;
    var r := Copied(words, k, m);
    forall i: nat ensures On(r, W, i) <==> PageIdx(i, W) < k && On(words, W, i) {
      if k <= PageIdx(i, W) < m {
        BitZero(SlotIdx(i, W));
      }
    }
  }

  /** Copying the words the size needs keeps the set. */
  lemma CopiedRepresents(words: seq<nat>, W: nat, n: nat, s: set<nat>, k: nat, m: nat)
    requires Represents(words, W, n, s) && PageCountFor(n, W) <= k <= |words| && k <= m
    ensures Represents(Copied(words, k, m), W, n, s)
  {
    OnCopied(words, W, k, m);
    PageCount(n, W);
    hide PageIdx, On, PageCountFor, Fit, Copied;
    forall i: nat ensures On(Copied(words, k, m), W, i) <==> i in s {
      RepresentsOn(words, W, n, s, i);
    }
    RepresentsIfOn(Copied(words, k, m), W, n, s);
  }

  /** The words the size needs, which are all an iterator looks at, stand for the whole set. */
  lemma ItemsRepresent(words: seq<nat>, W: nat, n: nat, s: set<nat>)
    requires Represents(words, W, n, s) && PageCountFor(n, W) <= |words|
    ensures Represents(words[..PageCountFor(n, W)], W, n, s)
  {
    var k := PageCountFor(n, W);
    CopiedRepresents(words, W, n, s, k, k);
    assert Copied(words, k, k) == words[..k];
  }

  /** A larger size only makes more clear positions addressable. */
  lemma LargerRepresents(words: seq<nat>, W: nat, n: nat, s: set<nat>, m: nat)
    requires Represents(words, W, n, s) && n <= m
    ensures Represents(words, W, m, s)
  {
    MembersTail(words, W, n, m);
    hide On;
  }

  /** What is left of a set, and when nothing is left past the new size. */
  lemma CutRepresents(words: seq<nat>, W: nat, n: nat, s: set<nat>, m: nat)
    requires Represents(words, W, n, s) && m > 0
    ensures var items := PageCountFor(m, W);
      var k := if |words| < items then |words| else items;
      var cut := Copied(words, k, items);
      && Fit(cut, W)
      && Members(cut, W, m) == (set i | i in s && i < m)
      && (TailClear(cut, W, m) <==> forall i :: i in s && m <= i ==> Index(items, 0, W) <= i)
  {
    var items := PageCountFor(m, W);
    var k := if |words| < items then |words| else items;
    var cut := Copied(words, k, items);
    OnCopied(words, W, k, items);
    OnBelow(words, W);
    PageCount(m, W);
    hide PageIdx, On, PageCountFor, Fit, Copied, Index;
    forall i: nat ensures On(cut, W, i) <==> i in s && PageIdx(i, W) < items {
      RepresentsOn(words, W, n, s, i);
    }
    forall i: nat ensures PageIdx(i, W) < items <==> i < Index(items, 0, W) {
      PlaceOrder(i, Index(items, 0, W), W);
      IndexSplits(items, 0, W);
    }
    if TailClear(cut, W, m) {
      forall i | i in s && m <= i ensures Index(items, 0, W) <= i {
        assert !On(cut, W, i);
      }
    }
  }

  /** Capacity in bits against words. */
  lemma EnoughWords(n: nat, words: nat, W: nat)
    requires W > 0
    ensures n <= Index(words, 0, W) <==> PageCountFor(n, W) <= words
  {
    WordsReach(n, W);
    hide PageIdx, SlotIdx;
    if n > 0 {
      PageCount(n - 1, W);
      Division(n - 1, W);
      var p := PageIdx(n - 1, W);
      assert PageCountFor(n, W) == p + 1;
      hide PageCountFor;
      if words <= p {
        if words < p {
          MultipleGap(words, p, W);
        }
      } else if p + 1 < words {
        MultipleGap(p + 1, words, W);
      }
    }
  }

  /** Allocates words, copies the first `k` over and clears the rest. */
  method CopyWords(old_: array<nat>, k: nat, m: nat) returns (a: array<nat>)
    requires k <= old_.Length && k <= m
    ensures fresh(a) && a[..] == Copied(old_[..], k, m)
  {
    a := new nat[m](_ => 0);
    for i := 0 to k
      invariant forall j :: 0 <= j < i ==> a[j] == old_[j]
      invariant forall j :: i <= j < m ==> a[j] == 0
    {
      a[i] := old_[i];
    }
  }

  class DBitset {
    /** The number of bits in a word. */
    const W: nat
    var m_pData: array?<nat>
    var m_cnt: nat
    var m_cap: nat

    /** The set positions. */
    ghost function Positions(): set<nat>
      reads this, m_pData
    {
      if m_pData != null && W > 0 then Members(m_pData[..], W, m_cnt) else {}
    }

    ghost predicate Allocated()
      reads this, m_pData
    {
      && W > 0 && m_pData != null && m_cap == Index(m_pData.Length, 0, W) && 0 < m_cnt <= m_cap
      && Fit(m_pData[..], W)
    }

    /** Storage covers the size, and nothing is set past the size, in the spare words neither. */
    ghost predicate Valid()
      reads this, m_pData
    {
      Allocated() && Represents(m_pData[..], W, m_cnt, Positions())
    }

    /** Before the first allocation. */
    ghost predicate Unallocated()
      reads this
    {
      W > 0 && m_pData == null && m_cap == 0
    }

    constructor (W: nat, reserveBits: nat)
      requires W > 0
      ensures Valid() && Positions() == {} && m_cnt == 1 && fresh(m_pData) && this.W == W
      ensures m_cap == Index(PageCountFor(if reserveBits < 1 then 1 else reserveBits, W), 0, W) >= reserveBits
    {
      this.W := W;
      m_pData, m_cnt, m_cap := null, 1, 0;
      new;
      Reserve(reserveBits);
    }

    lemma Unfold()
      requires Valid()
      ensures W > 0 && m_pData != null && m_cap == Index(m_pData.Length, 0, W) && 0 < m_cnt <= m_cap
      ensures Fit(m_pData[..], W) && Represents(m_pData[..], W, m_cnt, Positions()) && TailClear(m_pData[..], W, m_cnt)
      ensures PageCountFor(m_cnt, W) <= m_pData.Length && Positions() == Members(m_pData[..], W, m_cnt)
    {
      EnoughWords(m_cnt, m_pData.Length, W);
    }

    lemma Fold(s: set<nat>)
      requires W > 0 && m_pData != null && m_cap == Index(m_pData.Length, 0, W)
        && PageCountFor(m_cnt, W) <= m_pData.Length
      requires Represents(m_pData[..], W, m_cnt, s)
      ensures Valid() && Positions() == s
    {
      EnoughWords(m_cnt, m_pData.Length, W);
    }

    method Items() returns (items: nat)
      requires W > 0
      ensures items == PageCountFor(m_cnt, W)
    {
      ItemsRound(m_cnt, W);
      items := (m_cnt + W - 1) / W;
    }

    /** Grows the size to `bitsWanted` if it is smaller, and the storage only if the size does not fit. */
    method TryGrow(bitsWanted: nat)
      requires Valid() || (Unallocated() && bitsWanted > 0)
      modifies this
      ensures Valid() && m_cnt == (if bitsWanted > old(m_cnt) then bitsWanted else old(m_cnt))
      ensures Positions() == old(Positions())
      ensures if m_cnt <= old(m_cap) then m_pData == old(m_pData) && m_cap == old(m_cap)
        else fresh(m_pData) && m_cap == Index(PageCountFor(m_cnt, W), 0, W)
    {
      hide *;
      ghost var s := Positions();
      var itemsOld := 0;
      if m_pData != null {
        NotUnallocated();
        Unfold();
        itemsOld := Items();
        if bitsWanted > m_cnt {
          LargerRepresents(m_pData[..], W, m_cnt, s, bitsWanted);
        }
      } else {
        IsUnallocated();
      }
      ghost var was := m_cnt;
      if bitsWanted > m_cnt {
        m_cnt := bitsWanted;
      }
      if m_cnt <= m_cap {
        EnoughWords(m_cnt, m_pData.Length, W);
        Fold(s);
        return;
      }
      var itemsNew := Items();
      m_cap := Index(itemsNew, 0, W);
      if m_pData == null {
        m_pData := new nat[itemsNew](_ => 0);
        Blank(m_pData[..], W, m_cnt);
      } else {
        FewerItems(was, m_cnt, W);
        CopiedGrown(m_pData[..], W, was, m_cnt, s, itemsOld, itemsNew);
        m_pData := CopyWords(m_pData, itemsOld, itemsNew);
      }
      Fold(s);
    }

    lemma NotUnallocated()
      requires m_pData != null && (Valid() || Unallocated())
      ensures Valid()
    {
    }

    lemma IsUnallocated()
      requires m_pData == null && (Valid() || Unallocated())
      ensures W > 0 && m_cap == 0 && Positions() == {} && !Valid()
    {
    }

    /** Grows the storage only. */
    method Reserve(bitsWanted: nat)
      requires Valid() || (Unallocated() && m_cnt == 1)
      modifies this
      ensures Valid() && m_cnt == old(m_cnt) && Positions() == old(Positions())
      ensures m_cap >= bitsWanted && m_cap >= old(m_cap)
      ensures if bitsWanted <= old(m_cap) && 1 <= old(m_cap) then m_pData == old(m_pData) && m_cap == old(m_cap)
        else fresh(m_pData) && m_cap == Index(PageCountFor(if bitsWanted < 1 then 1 else bitsWanted, W), 0, W)
    {
      hide *;
      ghost var s := Positions();
      var wanted := if bitsWanted < 1 then 1 else bitsWanted;
      if m_pData != null {
        NotUnallocated();
        Unfold();
      } else {
        IsUnallocated();
      }
      if wanted <= m_cap {
        return;
      }
      ItemsRound(wanted, W);
      var itemsNew := (wanted + W - 1) / W;
      WordsReach(wanted, W);
      if m_pData == null {
        m_pData := new nat[itemsNew](_ => 0);
        Blank(m_pData[..], W, m_cnt);
        FewerItems(m_cnt, wanted, W);
      } else {
        // The capacity is exceeded, so the number of words always differs.
        EnoughWords(wanted, m_pData.Length, W);
        var itemsOld2 := Items();
        CopiedRepresents(m_pData[..], W, m_cnt, s, itemsOld2, itemsNew);
        m_pData := CopyWords(m_pData, itemsOld2, itemsNew);
      }
      m_cap := Index(itemsNew, 0, W);
      Fold(s);
    }

    /**
     * Changes the size, and the storage to what the size needs. Bits past the new size are dropped with their
     * words, but those in the last word that is kept stay set: the result is sound exactly when there are none.
     */
    method Resize(bitsWanted: nat)
      requires Valid() || (Unallocated() && m_cnt == 0)
      modifies this
      ensures m_cnt == (if bitsWanted < 1 then 1 else bitsWanted)
      ensures Allocated() && (m_pData == old(m_pData) || fresh(m_pData))
      ensures m_cap == if m_cnt == old(m_cnt) then old(m_cap) else Index(PageCountFor(m_cnt, W), 0, W)
      ensures Positions() == set i | i in old(Positions()) && i < m_cnt
      ensures Valid() <==> forall i :: i in old(Positions()) && m_cnt <= i ==> Index(PageCountFor(m_cnt, W), 0, W) <= i
    {
      hide *;
      ghost var s := Positions();
      var wanted := if bitsWanted < 1 then 1 else bitsWanted;
      if m_pData != null {
        NotUnallocated();
        Unfold();
        AllBelow(m_pData[..], W, m_cnt, s);
      } else {
        IsUnallocated();
      }
      if wanted == m_cnt {
        AllocatedIf();
        return;
      }
      var itemsOld := if m_pData == null then 0 else m_pData.Length;
      ItemsRound(wanted, W);
      var itemsNew := (wanted + W - 1) / W;
      WordsReach(wanted, W);
      if m_pData == null {
        m_pData := new nat[itemsNew](_ => 0);
        Blank(m_pData[..], W, wanted);
        FitOf(m_pData[..], W, wanted);
        m_cap := Index(itemsNew, 0, W);
      } else if itemsOld != itemsNew {
        var itemsToCopy := if itemsOld < itemsNew then itemsOld else itemsNew;
        CutRepresents(m_pData[..], W, m_cnt, s, wanted);
        m_pData := CopyWords(m_pData, itemsToCopy, itemsNew);
        m_cap := Index(itemsNew, 0, W);
      } else {
        CutRepresents(m_pData[..], W, m_cnt, s, wanted);
        CopiedWhole(m_pData[..]);
      }
      m_cnt := wanted;
      AllocatedIf();
      ValidIff();
    }

    lemma AllocatedIf()
      requires W > 0 && m_pData != null && m_cap == Index(m_pData.Length, 0, W) && 0 < m_cnt <= m_cap
        && Fit(m_pData[..], W)
      ensures Allocated() && Positions() == Members(m_pData[..], W, m_cnt)
    {
    }

    lemma ValidIff()
      requires Allocated()
      ensures m_pData != null && (Valid() <==> TailClear(m_pData[..], W, m_cnt))
    {
    }

    /** Sets or clears one bit; in both cases the size grows to reach it. */
    method Set(pos: nat, value: bool)
      requires Valid() || Unallocated()
      modifies this, m_pData
      ensures Valid() && m_cnt == (if pos + 1 > old(m_cnt) then pos + 1 else old(m_cnt))
      ensures Positions() == if value then old(Positions()) + {pos} else old(Positions()) - {pos}
      ensures m_pData == old(m_pData) || fresh(m_pData)
    {
      hide *;
      ghost var s := Positions();
      TryGrow(pos + 1);
      Unfold();
      ghost var was := m_pData[..];
      InWords(pos, m_cnt, W);
      SetIn(m_pData, W, pos, value);
      SetRepresents(m_pData[..], was, W, m_cnt, s, pos, value);
      Fold(if value then s + {pos} else s - {pos});
    }

    method SetAll()
      requires Valid()
      modifies m_pData
      ensures Valid() && Positions() == Everything(m_cnt)
    {
      hide *;
      Unfold();
      SetAllIn(m_pData, W, m_cnt);
      EverythingBelow(m_cnt);
      RepresentsIfOn(m_pData[..], W, m_cnt, Everything(m_cnt));
      Fold(Everything(m_cnt));
    }

    /**
     * Flips all bits. When the size is a whole number of words one word too many is flipped: it must exist, and
     * it leaves a whole word set past the size.
     */
    method FlipAll()
      requires Valid() && (SlotIdx(m_cnt, W) == 0 ==> m_cnt < m_cap)
      modifies m_pData
      ensures Allocated() && Positions() == Everything(m_cnt) - old(Positions())
      ensures Valid() <==> SlotIdx(m_cnt, W) != 0
      ensures SlotIdx(m_cnt, W) == 0 ==>
        m_pData != null && forall i: nat :: m_cnt <= i < m_cnt + W ==> On(m_pData[..], W, i)
    {
      hide *;
      Unfold();
      ghost var was, s := m_pData[..], Positions();
      TailShape(m_cnt, W);
      var item_count := Items();
      if SlotIdx(m_cnt, W) != 0 {
        FlipWordsIn(m_pData, W, item_count - 1);
        FlipLastIn(m_pData, W, m_cnt);
        OnBelow(was, W);
        forall i: nat ensures On(m_pData[..], W, i) <==> i < m_cnt && !On(was, W, i) {
          RepresentsOn(was, W, m_cnt, s, i);
        }
        FlippedRepresents(m_pData[..], was, W, m_cnt, s);
        Fold(Everything(m_cnt) - s);
        IsAllocated();
      } else {
        EnoughWords(m_cnt + 1, m_pData.Length, W);
        TailShape(m_cnt + 1, W);
        NextPlace(m_cnt, W);
        OneMoreWord(m_cnt, W);
        FlipWordsIn(m_pData, W, item_count + 1);
        AllocatedIf();
        ValidIff();
        OverFlipped(m_pData[..], was, W, m_cnt, s);
      }
    }

    lemma IsAllocated()
      requires Valid()
      ensures Allocated()
    {
    }

    method Flip(pos: nat)
      requires Valid() && pos < m_cnt
      modifies m_pData
      ensures Valid() && Positions() == SymmetricDifference(old(Positions()), {pos})
    {
      hide *;
      Unfold();
      ghost var was, s := m_pData[..], Positions();
      InWords(pos, m_cnt, W);
      FlipIn(m_pData, W, pos);
      RepresentsOn(was, W, m_cnt, s, pos);
      SetRepresents(m_pData[..], was, W, m_cnt, s, pos, pos !in s);
      OneFlipped(s, pos);
      Fold(SymmetricDifference(s, {pos}));
    }

    /** Flips exactly the bits from `bitFrom` to `bitTo`. */
    method FlipRange(bitFrom: nat, bitTo: nat)
      requires Valid() && bitFrom <= bitTo < m_cnt
      modifies m_pData
      ensures Valid() && Positions() == SymmetricDifference(old(Positions()), Range(bitFrom, bitTo))
    {
      hide *;
      Unfold();
      ghost var was, s := m_pData[..], Positions();
      InWords(bitTo, m_cnt, W);
      FlipRangeIn(m_pData, W, bitFrom, bitTo);
      RangeRepresents(m_pData[..], was, W, m_cnt, s, bitFrom, bitTo);
      Fold(SymmetricDifference(s, Range(bitFrom, bitTo)));
    }

    method Reset(pos: nat)
      requires Valid() && pos < m_cnt
      modifies m_pData
      ensures Valid() && Positions() == old(Positions()) - {pos}
    {
      hide *;
      Unfold();
      ghost var was, s := m_pData[..], Positions();
      InWords(pos, m_cnt, W);
      SetIn(m_pData, W, pos, false);
      SetRepresents(m_pData[..], was, W, m_cnt, s, pos, false);
      Fold(s - {pos});
    }

    method Test(pos: nat) returns (ok: bool)
      requires Valid() && pos < m_cnt
      ensures ok <==> pos in Positions()
    {
      hide *;
      Unfold();
      InWords(pos, m_cnt, W);
      RepresentsOn(m_pData[..], W, m_cnt, Positions(), pos);
      ok := TestIn(m_pData, W, pos);
    }

    method All() returns (ok: bool)
      requires Valid()
      ensures ok <==> Positions() == Everything(m_cnt)
    {
      hide *;
      Unfold();
      ok := AllIn(m_pData, W, m_cnt);
      AllMeans(m_pData[..], W, m_cnt, Positions());
    }

    /** Nothing is counted past the size. */
    method Count() returns (total: nat)
      requires Valid()
      ensures total == |Positions()|
    {
      hide *;
      Unfold();
      var item_count := Items();
      total := CountIn(m_pData, W, item_count);
      WordsReach(m_cnt, W);
      MembersTail(m_pData[..], W, m_cnt, Index(item_count, 0, W));
    }

    /** On sets of the same size, equal words are equal sets. */
    method Equals(other: DBitset) returns (ok: bool)
      requires Valid() && other.Valid() && other.m_cnt == m_cnt && other.W == W
      ensures ok <==> Positions() == other.Positions()
    {
      hide *;
      Unfold();
      other.Unfold();
      var item_count := Items();
      ok := EqualIn(m_pData, other.m_pData, item_count);
      SameWordsIffSameMembers(m_pData[..], other.m_pData[..], W, m_cnt);
      assert m_pData[..item_count] == m_pData[..][..item_count];
      assert other.m_pData[..item_count] == other.m_pData[..][..item_count];
    }
  }

  lemma AllBelow(words: seq<nat>, W: nat, n: nat, s: set<nat>)
    requires Represents(words, W, n, s)
    ensures forall i :: i in s ==> i < n
  {
  }

  lemma FitOf(words: seq<nat>, W: nat, n: nat)
    requires Represents(words, W, n, {})
    ensures Fit(words, W) && Members(words, W, n) == {} && TailClear(words, W, n)
  {
  }

  lemma CopiedWhole(words: seq<nat>)
    ensures Copied(words, |words|, |words|) == words
  {
  }

  lemma OneMoreWord(n: nat, W: nat)
    requires W > 0 && n > 0 && SlotIdx(n, W) == 0
    ensures forall i: nat :: PageIdx(i, W) < PageCountFor(n, W) + 1 <==> i < n + W
  {
    TailShape(n, W);
    NextPage(n, W);
    hide PageIdx, SlotIdx, PageCountFor;
    Division(n, W);
    MultipleStep(PageIdx(n, W), W);
    IndexSplits(PageIdx(n, W) + 1, 0, W);
    forall i: nat ensures PageIdx(i, W) < PageCountFor(n, W) + 1 <==> i < n + W {
      PlaceOrder(i, n + W, W);
    }
  }

  lemma OverFlipped(words: seq<nat>, was: seq<nat>, W: nat, n: nat, s: set<nat>)
    requires Represents(was, W, n, s)
    requires forall i: nat :: On(words, W, i) <==> (On(was, W, i) != (i < n + W))
    ensures Members(words, W, n) == Everything(n) - s
    ensures !TailClear(words, W, n) && forall i: nat :: n <= i < n + W ==> On(words, W, i)
  {
    assert W > 0;
    hide On;
    forall i: nat ensures On(words, W, i) <==> ((i in s) != (i < n + W)) {
      RepresentsOn(was, W, n, s, i);
    }
    assert On(words, W, n);
  }

  lemma ItemsRound(n: nat, W: nat)
    requires W > 0
    ensures (n + W - 1) / W == PageCountFor(n, W)
  {
    if n == 0 {
      SmallQuotient(W - 1, W);
    }
  }

  lemma SmallQuotient(x: nat, W: nat)
    requires x < W
    ensures x / W == 0
  {
  }

  lemma FewerItems(n: nat, m: nat, W: nat)
    requires W > 0 && n <= m
    ensures PageCountFor(n, W) <= PageCountFor(m, W)
  {
    if n > 0 {
      Monotonic(n + W - 1, m + W - 1, W);
    }
  }

  lemma CopiedGrown(words: seq<nat>, W: nat, n: nat, m: nat, s: set<nat>, k: nat, items: nat)
    requires Represents(words, W, n, s) && n <= m && PageCountFor(n, W) == k <= |words| && k <= items
    ensures Represents(Copied(words, k, items), W, m, s)
  {
    CopiedRepresents(words, W, n, s, k, items);
    LargerRepresents(Copied(words, k, items), W, n, s, m);
  }
}
