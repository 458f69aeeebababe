/** The bit set iterator: word scans that find the next or previous wanted bit, and whole iterations. */
module BitsetIterators {
  import opened Common
  import opened Powers
  import opened Words
  import opened WordScans
  import opened Paging
  import opened BitWords
  import opened Bitsets

  /** Positions are 32-bit: one less than zero is the largest. */
  function Wrap(x: int): (r: nat)
    ensures r < WRAP
  {
    x % WRAP
  }

  /** The words as the iterator sees them. */
  ghost function Seen(words: seq<nat>, W: nat, inverse: bool): (r: seq<nat>)
    requires Fit(words, W)
    ensures |r| == |words|
  {
    seq(|words|, k requires 0 <= k < |words| => if inverse then Not(words[k], W) else words[k])
  }

  lemma SeenOn(words: seq<nat>, W: nat, inverse: bool)
    requires Fit(words, W)
    ensures Fit(Seen(words, W, inverse), W)
    ensures forall i: nat :: On(Seen(words, W, inverse), W, i) <==>
      PageIdx(i, W) < |words| && (On(words, W, i) != inverse)
  {
    hide PageIdx, SlotIdx, Bit, Not;
    var r := Seen(words, W, inverse);
    forall i: nat ensures On(r, W, i) <==> PageIdx(i, W) < |words| && (On(words, W, i) != inverse) {
      if PageIdx(i, W) < |words| {
        BitNot(words[PageIdx(i, W)], W, SlotIdx(i, W));
      }
    }
  }

  /** `q` is the first wanted position after `pos`, or `pos` itself when there is none. */
  ghost predicate NextIs(its: seq<nat>, W: nat, pos: nat, q: nat)
    requires W > 0
  {
    if q == pos then forall i: nat :: pos < i ==> !On(its, W, i)
    else pos < q && On(its, W, q) && forall i: nat :: pos < i < q ==> !On(its, W, i)
  }

  /** `q` is the last wanted position before `pos`, or `pos` itself when there is none. */
  ghost predicate PrevIs(its: seq<nat>, W: nat, pos: nat, q: nat)
    requires W > 0
  {
    if q == pos then forall i: nat :: i < pos ==> !On(its, W, i)
    else q < pos && On(its, W, q) && forall i: nat :: q < i < pos ==> !On(its, W, i)
  }

  /** What the upward scan still has to look at: this word's bits after `pos`, and all later words. */
  ghost predicate ScansUp(its: seq<nat>, W: nat, pos: nat, k: nat, word: nat)
    requires W > 0
  {
    && k < |its| && word < Pow2(W)
    && (forall i: nat :: PageIdx(i, W) == k ==> (Bit(word, SlotIdx(i, W)) <==> On(its, W, i) && pos < i))
    && (forall i: nat :: PageIdx(i, W) < k && pos < i ==> !On(its, W, i))
    && PageIdx(pos, W) <= k
  }

  lemma StartsUp(its: seq<nat>, W: nat, pos: nat, word: nat)
    requires Fit(its, W) && PageIdx(pos, W) < |its|
    requires word == if SlotIdx(pos, W) + 1 < W
      then And(its[PageIdx(pos, W)], Not(LowMask(SlotIdx(pos, W) + 1, W), W)) else 0
    ensures ScansUp(its, W, pos, PageIdx(pos, W), word)
  {
    hide PageIdx, SlotIdx, Bit, Not, And, LowMask;
    var k, s := PageIdx(pos, W), SlotIdx(pos, W);
    if s + 1 < W {
      AndFits(its[k], Not(LowMask(s + 1, W), W), W);
    }
    forall i: nat | PageIdx(i, W) == k ensures Bit(word, SlotIdx(i, W)) <==> On(its, W, i) && pos < i {
      PlaceOrder(pos, i, W);
      if s + 1 < W {
        BitAnd(its[k], Not(LowMask(s + 1, W), W), SlotIdx(i, W));
        BitNot(LowMask(s + 1, W), W, SlotIdx(i, W));
        BitLowMask(s + 1, W, SlotIdx(i, W));
      } else {
        BitZero(SlotIdx(i, W));
      }
    }
    forall i: nat | PageIdx(i, W) < k ensures i <= pos {
      PlaceOrder(i, pos, W);
    }
  }

  lemma FoundUp(its: seq<nat>, W: nat, pos: nat, k: nat, word: nat, b: nat)
    requires Fit(its, W) && ScansUp(its, W, pos, k, word)
    requires b < W && Bit(word, b) && forall i: nat :: i < b ==> !Bit(word, i)
    ensures Index(k, b, W) != pos && NextIs(its, W, pos, Index(k, b, W))
  {
    hide PageIdx, SlotIdx, Bit, On;
    var q := Index(k, b, W);
    IndexSplits(k, b, W);
    forall i: nat | pos < i < q ensures !On(its, W, i) {
      PlaceOrder(i, q, W);
    }
  }

  lemma NextWordUp(its: seq<nat>, W: nat, pos: nat, k: nat)
    requires Fit(its, W) && ScansUp(its, W, pos, k, 0)
    ensures k + 1 < |its| ==> ScansUp(its, W, pos, k + 1, its[k + 1])
    ensures k + 1 >= |its| ==> NextIs(its, W, pos, pos)
  {
    hide PageIdx, SlotIdx, Bit;
    forall i: nat | PageIdx(i, W) < k + 1 && pos < i ensures !On(its, W, i) {
      BitZero(SlotIdx(i, W));
    }
    forall i: nat | PageIdx(i, W) == k + 1 ensures pos < i {
      PlaceOrder(pos, i, W);
    }
  }

  /** The mask of the bits below `k`, as the scans build it. */
  function LowMask(k: nat, W: nat): (m: nat)
    requires k < W
    ensures m < Pow2(W)
  {
    ShlOne(k, W);
    Shl(1, k, W) - 1
  }

  lemma BitLowMask(k: nat, W: nat, i: nat)
    requires k < W
    ensures Bit(LowMask(k, W), i) <==> i < k
  {
    ShlOne(k, W);
    BitOnes(k, i);
  }

  /** What the downward scan still has to look at: this word's bits before `pos`, and all earlier words. */
  ghost predicate ScansDown(its: seq<nat>, W: nat, pos: nat, k: nat, word: nat)
    requires W > 0
  {
    && k < |its| && word < Pow2(W)
    && (forall i: nat :: PageIdx(i, W) == k ==> (Bit(word, SlotIdx(i, W)) <==> On(its, W, i) && i < pos))
    && (forall i: nat :: PageIdx(i, W) > k && i < pos ==> !On(its, W, i))
    && PageIdx(pos, W) >= k
  }

  lemma StartsDown(its: seq<nat>, W: nat, pos: nat, word: nat)
    requires Fit(its, W) && PageIdx(pos, W) < |its|
    requires word == And(its[PageIdx(pos, W)], LowMask(SlotIdx(pos, W), W))
    ensures ScansDown(its, W, pos, PageIdx(pos, W), word)
  {
    hide PageIdx, SlotIdx, Bit, And, LowMask;
    var k, s := PageIdx(pos, W), SlotIdx(pos, W);
    AndFits(its[k], LowMask(s, W), W);
    forall i: nat | PageIdx(i, W) == k ensures Bit(word, SlotIdx(i, W)) <==> On(its, W, i) && i < pos {
      PlaceOrder(i, pos, W);
      BitAnd(its[k], LowMask(s, W), SlotIdx(i, W));
      BitLowMask(s, W, SlotIdx(i, W));
    }
    forall i: nat | PageIdx(i, W) > k ensures pos <= i {
      PlaceOrder(i, pos, W);
    }
  }

  lemma FoundDown(its: seq<nat>, W: nat, pos: nat, k: nat, word: nat, b: nat)
    requires Fit(its, W) && ScansDown(its, W, pos, k, word)
    requires b < W && Bit(word, b) && forall i: nat :: b < i < W ==> !Bit(word, i)
    ensures Index(k, b, W) != pos && PrevIs(its, W, pos, Index(k, b, W))
  {
    hide PageIdx, SlotIdx, Bit, On;
    var q := Index(k, b, W);
    IndexSplits(k, b, W);
    forall i: nat | q < i < pos ensures !On(its, W, i) {
      PlaceOrder(q, i, W);
    }
  }

  lemma NextWordDown(its: seq<nat>, W: nat, pos: nat, k: nat)
    requires Fit(its, W) && ScansDown(its, W, pos, k, 0)
    ensures k > 0 ==> ScansDown(its, W, pos, k - 1, its[k - 1])
    ensures k == 0 ==> PrevIs(its, W, pos, pos)
  {
    hide PageIdx, SlotIdx, Bit;
    forall i: nat | PageIdx(i, W) >= k && i < pos ensures !On(its, W, i) {
      BitZero(SlotIdx(i, W));
    }
    forall i: nat | k > 0 && PageIdx(i, W) == k - 1 ensures i < pos {
      PlaceOrder(i, pos, W);
    }
  }

  lemma SeenWord(words: seq<nat>, W: nat, inverse: bool, k: nat)
    requires Fit(words, W) && k < |words|
    ensures words[k] < Pow2(W)
    ensures Seen(words, W, inverse)[k] == if inverse then Not(words[k], W) else words[k]
    ensures Seen(words, W, inverse)[k] < Pow2(W) && Fit(Seen(words, W, inverse), W)
  {
    SeenOn(words, W, inverse);
  }

  // Where iterations start and end

  /** Past the size either nothing is wanted or all that the words still hold. */
  ghost predicate TailOn(its: seq<nat>, W: nat, n: nat)
    requires W > 0
  {
    On(its, W, n)
  }

  ghost predicate Uniform(its: seq<nat>, W: nat, n: nat)
    requires W > 0
  {
    TailClear(its, W, n) || TailOn(its, W, n)
  }

  ghost predicate AnyWanted(its: seq<nat>, W: nat, n: nat)
    requires W > 0
  {
    exists i: nat :: i < n && On(its, W, i)
  }

  /** The first wanted position, or the size. */
  ghost predicate BeginIs(its: seq<nat>, W: nat, n: nat, b: nat)
    requires W > 0
  {
    b <= n && (b < n ==> On(its, W, b)) && forall i: nat :: i < b ==> !On(its, W, i)
  }

  /** One past the last wanted position, or the size. */
  ghost predicate EndIs(its: seq<nat>, W: nat, n: nat, e: nat)
    requires W > 0
  {
    if AnyWanted(its, W, n) then 0 < e <= n && On(its, W, e - 1) && forall i: nat :: e <= i < n ==> !On(its, W, i)
    else e == n
  }

  /** The last wanted position, or the last position. */
  ghost predicate ReverseBeginIs(its: seq<nat>, W: nat, n: nat, b: nat)
    requires W > 0
  {
    if AnyWanted(its, W, n) then b < n && On(its, W, b) && forall i: nat :: b < i < n ==> !On(its, W, i)
    else b == n - 1
  }

  /** One before the first wanted position; that is one past it for the first word's tail when nothing is wanted. */
  ghost predicate ReverseEndIs(its: seq<nat>, W: nat, n: nat, e: nat)
    requires W > 0
  {
    if AnyWanted(its, W, n) then
      exists m: nat :: m < n && On(its, W, m) && (forall i: nat :: i < m ==> !On(its, W, i)) && e == Wrap(m - 1)
    else if TailOn(its, W, n) then e == n - 1
    else e == WRAP - 1
  }

  lemma BeginFound(its: seq<nat>, W: nat, n: nat, q: nat)
    requires W > 0 && n > 0 && Uniform(its, W, n) && !On(its, W, 0) && NextIs(its, W, 0, q)
    ensures BeginIs(its, W, n, if q == 0 then n else q)
    ensures q > 0 ==> q <= n && (q == n ==> !AnyWanted(its, W, n) && TailOn(its, W, n)) && (q < n ==> On(its, W, q))
    ensures q == 0 ==> !AnyWanted(its, W, n) && !TailOn(its, W, n)
  {
    hide On;
  }

  lemma EndFound(its: seq<nat>, W: nat, n: nat, q: nat)
    requires W > 0 && n > 0 && !On(its, W, n - 1) && PrevIs(its, W, n - 1, q)
    ensures EndIs(its, W, n, if q == n - 1 then n else q + 1)
    ensures ReverseBeginIs(its, W, n, q)
  {
    hide On;
    if q < n - 1 {
      assert AnyWanted(its, W, n);
    }
  }

  lemma ReverseEndFound(its: seq<nat>, W: nat, n: nat, q: nat)
    requires W > 0 && 0 < n < WRAP && Uniform(its, W, n) && !On(its, W, 0) && NextIs(its, W, 0, q)
    ensures ReverseEndIs(its, W, n, if q == 0 then WRAP - 1 else q - 1)
  {
    BeginFound(its, W, n, q);
    hide On, Uniform, NextIs;
    if 0 < q < n {
      assert AnyWanted(its, W, n);
      assert Wrap(q - 1) == q - 1;
      assert q < n && On(its, W, q) && forall i: nat :: i < q ==> !On(its, W, i);
    }
  }

  lemma ReverseEndFirst(its: seq<nat>, W: nat, n: nat)
    requires W > 0 && 0 < n && On(its, W, 0)
    ensures ReverseEndIs(its, W, n, WRAP - 1)
  {
    hide On;
    assert AnyWanted(its, W, n);
    assert Wrap(0 - 1) == WRAP - 1;
    assert forall i: nat :: i < 0 ==> !On(its, W, i);
  }

  lemma LastOn(its: seq<nat>, W: nat, n: nat)
    requires W > 0 && n > 0 && On(its, W, n - 1)
    ensures EndIs(its, W, n, n) && ReverseBeginIs(its, W, n, n - 1)
  {
    hide On;
    assert AnyWanted(its, W, n);
  }

  // Whole iterations

  /** The positions met so far: those wanted below `p` and the size, in increasing order. */
  ghost predicate Ascended(visited: seq<nat>, its: seq<nat>, W: nat, n: nat, p: nat)
    requires W > 0
  {
    && (forall j, k :: 0 <= j < k < |visited| ==> visited[j] < visited[k])
    && (forall i: nat :: i in visited <==> i < n && i < p && On(its, W, i))
  }

  /** Where a forward iteration can stand: on a wanted position, at the end, or lost past the size. */
  ghost predicate StandsForward(its: seq<nat>, W: nat, n: nat, e: nat, p: nat)
    requires W > 0
  {
    if p < n then On(its, W, p) || (p == e && TailClear(its, W, n))
    else p == e || (TailOn(its, W, n) && AnyWanted(its, W, n) && e < n)
  }

  /** The forward iteration ends at its end exactly when it does not run on into a set tail. */
  ghost predicate Stops(its: seq<nat>, W: nat, n: nat)
    requires W > 0 && n > 0
  {
    TailClear(its, W, n) || !AnyWanted(its, W, n) || On(its, W, n - 1)
  }

  lemma ForwardBegins(its: seq<nat>, W: nat, n: nat, e: nat, p: nat)
    requires W > 0 && n > 0 && Uniform(its, W, n) && BeginIs(its, W, n, p) && EndIs(its, W, n, e)
    ensures Ascended([], its, W, n, p) && StandsForward(its, W, n, e, p)
  {
    hide On;
  }

  lemma ForwardStep(its: seq<nat>, W: nat, n: nat, e: nat, visited: seq<nat>, p: nat, q: nat)
    requires W > 0 && n > 0 && Uniform(its, W, n) && EndIs(its, W, n, e)
    requires Ascended(visited, its, W, n, p) && StandsForward(its, W, n, e, p) && p < n && p != e
    requires NextIs(its, W, p, q)
    ensures var p' := if q == p then p + 1 else q;
      p < p' && Ascended(visited + [p], its, W, n, p') && StandsForward(its, W, n, e, p')
  {
    hide On;
    assert On(its, W, p);
    var p' := if q == p then p + 1 else q;
    var now := visited + [p];
    forall i: nat ensures i in now <==> i < n && i < p' && On(its, W, i) {
      assert i in now <==> i in visited || i == p;
    }
    forall j, k | 0 <= j < k < |now| ensures now[j] < now[k] {
      if k == |visited| {
        assert visited[j] in visited;
      }
    }
  }

  lemma ForwardEnds(its: seq<nat>, W: nat, n: nat, e: nat, visited: seq<nat>, p: nat)
    requires W > 0 && n > 0 && Uniform(its, W, n) && EndIs(its, W, n, e)
    requires Ascended(visited, its, W, n, p) && StandsForward(its, W, n, e, p) && (p == e || p >= n)
    ensures Stops(its, W, n) <==> p == e
    ensures forall i :: i in visited <==> i in Members(its, W, n)
    ensures forall j, k :: 0 <= j < k < |visited| ==> visited[j] < visited[k]
  {
    hide On;
  }

  /** What a reverse iteration meets: the wanted positions, or every one when nothing at all is wanted. */
  ghost predicate Met(its: seq<nat>, W: nat, n: nat, i: nat)
    requires W > 0
  {
    i < n && (On(its, W, i) || (!AnyWanted(its, W, n) && !TailOn(its, W, n)))
  }

  /** A position as a number that goes below zero: the largest 32-bit position stands for -1. */
  function Below(p: nat): int {
    if p == WRAP - 1 then -1 else p
  }

  ghost predicate Descended(visited: seq<nat>, its: seq<nat>, W: nat, n: nat, p: nat)
    requires W > 0
  {
    && (forall j, k :: 0 <= j < k < |visited| ==> visited[j] > visited[k])
    && (forall i: nat :: i in visited <==> Below(p) < i && Met(its, W, n, i))
  }

  ghost predicate StandsReverse(its: seq<nat>, W: nat, n: nat, e: nat, p: nat)
    requires W > 0
  {
    p == e || Met(its, W, n, p)
  }

  lemma ReverseBegins(its: seq<nat>, W: nat, n: nat, e: nat, p: nat)
    requires W > 0 && 0 < n < WRAP && ReverseBeginIs(its, W, n, p) && ReverseEndIs(its, W, n, e)
    ensures Descended([], its, W, n, p) && StandsReverse(its, W, n, e, p)
  {
    hide On;
  }

  lemma ReverseStep(its: seq<nat>, W: nat, n: nat, e: nat, visited: seq<nat>, p: nat, q: nat)
    requires W > 0 && 0 < n < WRAP && ReverseEndIs(its, W, n, e)
    requires Descended(visited, its, W, n, p) && StandsReverse(its, W, n, e, p) && p != e
    requires PrevIs(its, W, p, q)
    ensures p < n && var p' := if q == p then Wrap(p - 1) else q;
      && Below(p') < Below(p)
      && Descended(visited + [p], its, W, n, p') && StandsReverse(its, W, n, e, p')
  {
    hide On;
    var p' := if q == p then Wrap(p - 1) else q;
    assert Below(p') == if q == p then p - 1 else q;
    var now := visited + [p];
    if AnyWanted(its, W, n) {
      var m: nat :| m < n && On(its, W, m) && (forall i: nat :: i < m ==> !On(its, W, i)) && e == Wrap(m - 1);
      assert Below(e) == m - 1;
    }
    forall i: nat ensures i in now <==> Below(p') < i && Met(its, W, n, i) {
      assert i in now <==> i in visited || i == p;
    }
    forall j, k | 0 <= j < k < |now| ensures now[j] > now[k] {
      if k == |visited| {
        assert visited[j] in visited;
      }
    }
  }

  lemma ReverseEnds(its: seq<nat>, W: nat, n: nat, e: nat, visited: seq<nat>)
    requires W > 0 && 0 < n < WRAP && ReverseEndIs(its, W, n, e) && Descended(visited, its, W, n, e)
    ensures forall i :: i in visited <==> Met(its, W, n, i)
    ensures forall j, k :: 0 <= j < k < |visited| ==> visited[j] > visited[k]
  {
    hide On;
    if AnyWanted(its, W, n) {
      var m: nat :| m < n && On(its, W, m) && (forall i: nat :: i < m ==> !On(its, W, i)) && e == Wrap(m - 1);
      assert Below(e) == m - 1;
    }
  }

  /** An iterator over the words of a set of `size` bits that nobody changes meanwhile. */
  class BitsetIterator {
    const words: seq<nat>
    const W: nat
    const size: nat
    const inverse: bool
    var m_pos: nat

    ghost predicate Valid() {
      && Fit(words, W) && 0 < size < WRAP
      && |words| == PageCountFor(size, W)
    }

    ghost function Its(): seq<nat>
      requires Fit(words, W)
    {
      Seen(words, W, inverse)
    }

    constructor (words: seq<nat>, W: nat, size: nat, inverse: bool)
      requires Fit(words, W) && 0 < size < WRAP && |words| == PageCountFor(size, W)
      ensures Valid() && this.words == words && this.W == W && this.size == size && this.inverse == inverse
    {
      this.words, this.W, this.size, this.inverse := words, W, size, inverse;
      m_pos := 0;
    }

    method Item(wordIdx: nat) returns (w: nat)
      requires Fit(words, W) && wordIdx < |words|
      ensures w == Its()[wordIdx] < Pow2(W)
    {
      SeenWord(words, W, inverse, wordIdx);
      w := if inverse then Not(words[wordIdx], W) else words[wordIdx];
    }

    method FindNextSetBit(pos: nat) returns (q: nat)
      requires Fit(words, W) && PageIdx(pos, W) < |words|
      ensures NextIs(Its(), W, pos, q)
    {
      ghost var its := Its();
      SeenOn(words, W, inverse);
      hide *;
      FitWidth(its, W);
      var wordIndex, word := PageIdx(pos, W), 0;
      var posInWord := SlotIdx(pos, W) + 1;
      if posInWord < W {
        var mask := LowMask(posInWord, W);
        var w := Item(wordIndex);
        word := And(w, Not(mask, W));
      }
      StartsUp(its, W, pos, word);
      while true
        invariant wordIndex < |words| && ScansUp(its, W, pos, wordIndex, word)
        decreases |words| - wordIndex
      {
        UpWord(its, W, pos, wordIndex, word);
        if word != 0 {
          var f := Ffs(word, W);
          FoundUp(its, W, pos, wordIndex, word, f - 1);
          Positions(wordIndex, f - 1, W);
          return wordIndex * W + f - 1;
        }
        NextWordUp(its, W, pos, wordIndex);
        wordIndex := wordIndex + 1;
        if wordIndex >= |words| {
          return pos;
        }
        word := Item(wordIndex);
      }
    }

    method FindPrevSetBit(pos: nat) returns (q: nat)
      requires Fit(words, W) && PageIdx(pos, W) < |words|
      ensures PrevIs(Its(), W, pos, q)
    {
      ghost var its := Its();
      SeenOn(words, W, inverse);
      hide *;
      FitWidth(its, W);
      var wordIndex := PageIdx(pos, W);
      var mask := LowMask(SlotIdx(pos, W), W);
      var word := Item(wordIndex);
      word := And(word, mask);
      StartsDown(its, W, pos, word);
      while true
        invariant 0 <= wordIndex < |words| && ScansDown(its, W, pos, wordIndex, word)
        decreases wordIndex
      {
        DownWord(its, W, pos, wordIndex, word);
        if word != 0 {
          var c := Ctz(word, W);
          FoundDown(its, W, pos, wordIndex, word, W - 1 - c);
          Positions(wordIndex, W - 1 - c, W);
          return W * (wordIndex + 1) - c - 1;
        }
        NextWordDown(its, W, pos, wordIndex);
        if wordIndex == 0 {
          return pos;
        }
        wordIndex := wordIndex - 1;
        word := Item(wordIndex);
      }
    }

    /** What the iterator was made for: the wanted positions end at the size, or go on to the end of the words. */
    ghost predicate Ready() {
      Valid() && Uniform(Its(), W, size)
    }

    lemma ReadyFacts()
      requires Ready()
      ensures Fit(words, W) && Fit(Its(), W) && W > 0 && 0 < size < WRAP && Uniform(Its(), W, size)
      ensures forall pos: nat :: pos < size ==> PageIdx(pos, W) < |words|
    {
      SeenOn(words, W, inverse);
      PageCount(size, W);
    }

    method CheckBit(pos: nat) returns (ok: bool)
      requires Fit(words, W) && PageIdx(pos, W) < |words|
      ensures ok <==> On(Its(), W, pos)
    {
      var k, b := PageIdx(pos, W), SlotIdx(pos, W);
      SeenOn(words, W, inverse);
      hide PageIdx, SlotIdx, Bit, And, Shl, Not, Seen;
      TestWord(words[k], b, W);
      var test := And(words[k], Shl(1, b, W)) != 0;
      assert test <==> On(words, W, pos);
      ok := if inverse then !test else test;
    }

    /**
     * The constructor of the forward iterator. From 0 upwards it gives the first wanted position, from the size
     * downwards the end; from elsewhere the next wanted position, or one past the one before.
     */
    method ConstructForward(pos: nat, fwd: bool) returns (ghost q: nat)
      requires Ready() && (fwd ==> PageIdx(pos, W) < |words|)
      modifies this`m_pos
      ensures fwd && pos == 0 ==> BeginIs(Its(), W, size, m_pos)
      ensures fwd && pos > 0 ==> NextIs(Its(), W, pos, q) && m_pos == if q == pos then size else q
      ensures !fwd && pos >= size - 1 ==> EndIs(Its(), W, size, m_pos)
      ensures !fwd && pos < size - 1 ==> PrevIs(Its(), W, pos, q) && m_pos == if q == pos then size else q + 1
    {
      hide *;
      ReadyFacts();
      q := pos;
      if fwd {
        m_pos := pos;
        var first := CheckBit(0);
        if pos != 0 || !first {
          var newPos := FindNextSetBit(m_pos);
          q := newPos;
          if pos == 0 {
            BeginFound(Its(), W, size, newPos);
          }
          m_pos := if newPos == m_pos then size else newPos;
        } else {
          BeginFirst(Its(), W, size);
        }
      } else {
        var lastBit := size - 1;
        var p := if pos >= size then size - 1 else pos;
        var last := CheckBit(p);
        if p != lastBit || !last {
          var newPos := FindPrevSetBit(p);
          q := newPos;
          if p == lastBit {
            EndFound(Its(), W, size, newPos);
          }
          m_pos := if newPos == p then size else newPos + 1;
        } else {
          LastOn(Its(), W, size);
          m_pos := p + 1;
        }
      }
    }

    /**
     * The constructor of the reverse iterator. From 0 upwards it gives the sentinel, from the size downwards the last
     * wanted position; from elsewhere one before the next wanted position, or the one before.
     */
    method ConstructReverse(pos: nat, fwd: bool) returns (ghost q: nat)
      requires Ready() && (fwd ==> PageIdx(pos, W) < |words|)
      modifies this`m_pos
      ensures fwd && pos == 0 ==> ReverseEndIs(Its(), W, size, m_pos)
      ensures fwd && pos > 0 ==> NextIs(Its(), W, pos, q) && m_pos == if q == pos then WRAP - 1 else q - 1
      ensures !fwd && pos >= size - 1 ==> ReverseBeginIs(Its(), W, size, m_pos)
      ensures !fwd && pos < size - 1 ==> PrevIs(Its(), W, pos, q) && m_pos == if q == pos then size - 1 else q
    {
      hide *;
      ReadyFacts();
      q := pos;
      if fwd {
        m_pos := pos;
        var first := CheckBit(0);
        if pos != 0 || !first {
          var newPos := FindNextSetBit(m_pos);
          q := newPos;
          NextAbove(Its(), W, pos, newPos);
          if pos == 0 {
            ReverseEndFound(Its(), W, size, newPos);
          }
          m_pos := if newPos == m_pos then WRAP - 1 else newPos - 1;
        } else {
          ReverseEndFirst(Its(), W, size);
          WrapBelowZero();
          m_pos := Wrap(pos - 1);
        }
      } else {
        var lastBit := size - 1;
        var p := if pos >= size then size - 1 else pos;
        var last := CheckBit(p);
        if p != lastBit || !last {
          var newPos := FindPrevSetBit(p);
          q := newPos;
          if p == lastBit {
            EndFound(Its(), W, size, newPos);
          }
          m_pos := if newPos == p then size - 1 else newPos;
        } else {
          LastOn(Its(), W, size);
          m_pos := p;
        }
      }
    }

    /** Forward `operator++`. */
    method NextForward() returns (ghost q: nat)
      requires Ready() && m_pos < size
      modifies this`m_pos
      ensures NextIs(Its(), W, old(m_pos), q)
      ensures m_pos == if q == old(m_pos) then old(m_pos) + 1 else q
    {
      hide *;
      ReadyFacts();
      var newPos := FindNextSetBit(m_pos);
      q := newPos;
      if newPos == m_pos {
        newPos := newPos + 1;
      }
      m_pos := newPos;
    }

    /** Reverse `operator++`. */
    method NextReverse() returns (ghost q: nat)
      requires Ready() && (m_pos < size || m_pos == WRAP - 1)
      modifies this`m_pos
      ensures old(m_pos) == WRAP - 1 ==> m_pos == WRAP - 1
      ensures old(m_pos) < size ==> PrevIs(Its(), W, old(m_pos), q)
      ensures old(m_pos) < size ==> m_pos == if q == old(m_pos) then Wrap(old(m_pos) as int - 1) else q
    {
      hide *;
      ReadyFacts();
      q := 0;
      if m_pos == WRAP - 1 {
        return;
      }
      var newPos := FindPrevSetBit(m_pos);
      q := newPos;
      if newPos == m_pos {
        newPos := Wrap(newPos as int - 1);
      }
      m_pos := newPos;
    }

    /**
     * From begin to end. All wanted positions are met in increasing order; the end is then reached exactly when
     * `Stops`, otherwise the next position lies past the size.
     */
    method IterateForward() returns (visited: seq<nat>, ended: bool)
      requires Ready()
      modifies this`m_pos
      ensures W > 0 && forall i :: i in visited <==> i in Members(Its(), W, size)
      ensures forall j, k :: 0 <= j < k < |visited| ==> visited[j] < visited[k]
      ensures size > 0 && (ended <==> Stops(Its(), W, size)) && (!ended ==> m_pos >= size)
    {
      hide *;
      ReadyFacts();
      ghost var u;
      u := ConstructForward(size, false);
      var end := m_pos;
      u := ConstructForward(0, true);
      visited := [];
      ghost var its := Its();
      ForwardBegins(its, W, size, end, m_pos);
      while m_pos != end
        invariant Ascended(visited, its, W, size, m_pos) && StandsForward(its, W, size, end, m_pos)
        decreases size - m_pos
      {
        if m_pos >= size {
          ForwardEnds(its, W, size, end, visited, m_pos);
          return visited, false;
        }
        ghost var p := m_pos;
        ghost var was := visited;
        visited := visited + [m_pos];
        ghost var q := NextForward();
        ForwardStep(its, W, size, end, was, p, q);
      }
      ForwardEnds(its, W, size, end, visited, m_pos);
      return visited, true;
    }

    /** From last to first. When nothing is wanted and the tail is clear, every position is met all the same. */
    method IterateReverse() returns (visited: seq<nat>)
      requires Ready()
      modifies this`m_pos
      ensures W > 0 && forall i :: i in visited <==> Met(Its(), W, size, i)
      ensures forall j, k :: 0 <= j < k < |visited| ==> visited[j] > visited[k]
    {
      hide *;
      ReadyFacts();
      ghost var u;
      u := ConstructReverse(0, true);
      var end := m_pos;
      u := ConstructReverse(size, false);
      visited := [];
      ghost var its := Its();
      ReverseBegins(its, W, size, end, m_pos);
      while m_pos != end
        invariant Descended(visited, its, W, size, m_pos) && StandsReverse(its, W, size, end, m_pos)
        decreases Below(m_pos) + 1
      {
        MetBelow(its, W, size, m_pos, end);
        ghost var p := m_pos;
        ghost var was := visited;
        visited := visited + [m_pos];
        ghost var q := NextReverse();
        ReverseStep(its, W, size, end, was, p, q);
      }
      ReverseEnds(its, W, size, end, visited);
    }
  }

  lemma MetBelow(its: seq<nat>, W: nat, n: nat, p: nat, e: nat)
    requires W > 0 && n < WRAP && StandsReverse(its, W, n, e, p) && p != e
    ensures p < n && Below(p) == p
  {
  }

  /** For a set: the wanted positions are its members, or its non-members, and when iterations are exact. */
  lemma SetIterations(words: seq<nat>, W: nat, n: nat, s: set<nat>, inverse: bool)
    requires Represents(words, W, n, s) && |words| == PageCountFor(n, W)
    ensures var its := Seen(words, W, inverse);
      && Uniform(its, W, n)
      && Members(its, W, n) == (if inverse then Everything(n) - s else s)
      && (TailOn(its, W, n) <==> inverse && SlotIdx(n, W) != 0)
  {
    SeenOn(words, W, inverse);
    TailShape(n, W);
    hide PageIdx, SlotIdx, On, PageCountFor, Seen, Fit;
    var its := Seen(words, W, inverse);
    forall i: nat ensures i < n && On(its, W, i) <==> i < n && ((i in s) != inverse) {
      RepresentsOn(words, W, n, s, i);
    }
    RepresentsOn(words, W, n, s, n);
    EverythingBelow(n);
    if !(inverse && SlotIdx(n, W) != 0) {
      forall i: nat | n <= i ensures !On(its, W, i) {
        RepresentsOn(words, W, n, s, i);
      }
    }
  }

  /** Forward over a set is always exact. */
  lemma ForwardStops(words: seq<nat>, W: nat, n: nat, s: set<nat>)
    requires Represents(words, W, n, s) && |words| == PageCountFor(n, W)
    ensures Stops(Seen(words, W, false), W, n)
  {
    SetIterations(words, W, n, s, false);
  }

  /** Forward over the complement ends exactly when there is no rest of a word, or the set is full or lacks its last
      position. */
  lemma InverseStopsIff(words: seq<nat>, W: nat, n: nat, s: set<nat>)
    requires Represents(words, W, n, s) && |words| == PageCountFor(n, W)
    ensures Stops(Seen(words, W, true), W, n) <==> SlotIdx(n, W) == 0 || s == Everything(n) || n - 1 !in s
  {
    SetIterations(words, W, n, s, true);
    var its := Seen(words, W, true);
    hide PageIdx, SlotIdx, On, PageCountFor, Seen, Fit;
    EverythingBelow(n);
    assert forall i: nat :: i < n && On(its, W, i) <==> i in Members(its, W, n);
    assert On(its, W, n - 1) <==> n - 1 !in s;
    if !AnyWanted(its, W, n) {
      assert forall i: nat :: i < n ==> i in s by {
        assert forall i: nat :: i < n && i !in s ==> i in Members(its, W, n);
      }
      RepresentsBelow(words, W, n, s);
    }
  }

  lemma RepresentsBelow(words: seq<nat>, W: nat, n: nat, s: set<nat>)
    requires Represents(words, W, n, s)
    ensures forall i :: i in s ==> i < n
  {
  }

  /** Backward is exact exactly when something is wanted or a rest of a word is; else every position is met. */
  lemma ReverseExactIff(words: seq<nat>, W: nat, n: nat, s: set<nat>, inverse: bool)
    requires Represents(words, W, n, s) && |words| == PageCountFor(n, W)
    ensures var wanted := if inverse then Everything(n) - s else s;
      && ((forall i: nat :: Met(Seen(words, W, inverse), W, n, i) <==> i in wanted)
        <==> wanted != {} || (inverse && SlotIdx(n, W) != 0))
      && (wanted == {} && !(inverse && SlotIdx(n, W) != 0) ==>
        forall i: nat :: Met(Seen(words, W, inverse), W, n, i) <==> i < n)
  {
    SetIterations(words, W, n, s, inverse);
    var its := Seen(words, W, inverse);
    var wanted := if inverse then Everything(n) - s else s;
    hide PageIdx, SlotIdx, On, PageCountFor, Seen, Fit;
    assert forall i: nat :: i < n && On(its, W, i) <==> i in Members(its, W, n);
    assert AnyWanted(its, W, n) <==> wanted != {} by {
      if wanted != {} {
        var i :| i in wanted;
        assert i in Members(its, W, n);
      }
    }
    if wanted == {} && !(inverse && SlotIdx(n, W) != 0) {
      assert Met(its, W, n, 0) && 0 !in wanted;
    }
  }

  lemma NextAbove(its: seq<nat>, W: nat, pos: nat, q: nat)
    requires W > 0 && NextIs(its, W, pos, q)
    ensures pos <= q
  {
  }

  lemma WrapBelowZero()
    ensures Wrap(0 - 1) == WRAP - 1
  {
  }

  lemma BeginFirst(its: seq<nat>, W: nat, n: nat)
    requires W > 0 && n > 0 && On(its, W, 0)
    ensures BeginIs(its, W, n, 0)
  {
  }

  lemma Positions(k: nat, b: nat, W: nat)
    ensures Index(k, b, W) == k * W + b
    ensures b < W ==> Index(k, b, W) == W * (k + 1) - (W - 1 - b) - 1
  {
    assert W * (k + 1) == k * W + W;
  }

  lemma UpWord(its: seq<nat>, W: nat, pos: nat, k: nat, word: nat)
    requires W > 0 && ScansUp(its, W, pos, k, word)
    ensures word < Pow2(W)
  {
  }

  lemma DownWord(its: seq<nat>, W: nat, pos: nat, k: nat, word: nat)
    requires W > 0 && ScansDown(its, W, pos, k, word)
    ensures word < Pow2(W)
  {
  }
}