/** The portable loops that count and find set bits of a word. */
module WordScans {
  import opened Powers
  import opened Words

  /** The positions of the set bits below `width`. */
  ghost function BitSet(w: nat, width: nat): set<nat> {
    set i: nat | i < width && Bit(w, i)
  }

  function PopCount(w: nat): nat {
    if w == 0 then 0 else w % 2 + PopCount(w / 2)
  }

  lemma {:induction false} PopCountStep(w: nat, width: nat)
    requires width > 0
    ensures |BitSet(w, width)| == w % 2 + |BitSet(w / 2, width - 1)|
    decreases width
  {
    BitSetTop(w, width);
    if width > 1 {
      BitSetTop(w / 2, width - 1);
      PopCountStep(w, width - 1);
    } else {
      assert BitSet(w, 0) == {} && BitSet(w / 2, 0) == {};
    }
  }

  lemma BitSetTop(w: nat, width: nat)
    requires width > 0
    ensures |BitSet(w, width)| == |BitSet(w, width - 1)| + if Bit(w, width - 1) then 1 else 0
  {
    var rest := BitSet(w, width - 1);
    if Bit(w, width - 1) {
      assert BitSet(w, width) == rest + {width - 1};
    } else {
      assert BitSet(w, width) == rest;
    }
  }

  lemma {:induction false} PopCountIsSize(w: nat, width: nat)
    requires w < Pow2(width)
    ensures PopCount(w) == |BitSet(w, width)|
    decreases width
  {
    if width == 0 {
      assert BitSet(w, width) == {};
    } else {
      PopCountStep(w, width);
      PopCountIsSize(w / 2, width - 1);
    }
  }

  /** Clearing the lowest set bit lowers the count by one. */
  lemma {:induction false} ClearLowest(w: nat)
    requires w > 0
    ensures And(w, w - 1) < w
    ensures PopCount(And(w, w - 1)) == PopCount(w) - 1
  {
    AndHalf(w, w - 1);
    var r := And(w, w - 1);
    hide And;
    if w % 2 == 1 {
      assert (w - 1) / 2 == w / 2;
      AndSame(w / 2);
    } else {
      assert (w - 1) / 2 == w / 2 - 1;
      ClearLowest(w / 2);
    }
    assert r % 2 == 0;
  }

  lemma {:induction false} AndSame(a: nat)
    ensures And(a, a) == a
  {
    if a > 0 {
      AndSame(a / 2);
    }
  }

  method PopCnt(w: nat, width: nat) returns (bitsSet: nat)
    requires w < Pow2(width)
    ensures bitsSet == |BitSet(w, width)|
  {
    PopCountIsSize(w, width);
    var value := w;
    bitsSet := 0;
    while value != 0
      invariant bitsSet + PopCount(value) == PopCount(w)
    {
      ClearLowest(value);
      value := And(value, value - 1);
      bitsSet := bitsSet + 1;
    }
  }

  /** The test both upward scans make. */
  lemma TestLowest(w: nat, index: nat)
    ensures And(Shr(w, index), 1) == 0 <==> !Bit(w, index)
  {
    var x := Shr(w, index);
    BitShr(w, index, 0);
    AndZero(x / 2);
    assert And(x, 1) == if x == 0 then 0 else x % 2;
  }

  lemma {:induction false} AndZero(a: nat)
    ensures And(a, 0) == 0
  {
    if a > 0 {
      AndZero(a / 2);
    }
  }

  ghost predicate IsLowest(w: nat, low: nat) {
    Bit(w, low) && forall i: nat :: i < low ==> !Bit(w, i)
  }

  ghost predicate IsHighest(w: nat, high: nat) {
    Bit(w, high) && forall i: nat :: high < i ==> !Bit(w, i)
  }

  /** The position of the lowest set bit. */
  function LowestBit(w: nat): (low: nat)
    requires w > 0
  {
    if w % 2 == 1 then 0 else 1 + LowestBit(w / 2)
  }

  /** The position of the highest set bit. */
  function HighestBit(w: nat): (high: nat)
    requires w > 0
  {
    if w == 1 then 0 else 1 + HighestBit(w / 2)
  }

  lemma {:induction false} LowestBitIs(w: nat)
    requires w > 0
    ensures IsLowest(w, LowestBit(w))
  {
    var low := LowestBit(w);
    if w % 2 == 0 {
      LowestBitIs(w / 2);
      assert Bit(w, low);
      forall i: nat | i < low ensures !Bit(w, i) {
        if i > 0 {
          assert !Bit(w / 2, i - 1);
        }
      }
    }
  }

  lemma {:induction false} HighestBitIs(w: nat)
    requires w > 0
    ensures IsHighest(w, HighestBit(w))
  {
    var high := HighestBit(w);
    if w == 1 {
      forall i: nat | 0 < i ensures !Bit(w, i) {
        BitZero(i - 1);
      }
    } else {
      HighestBitIs(w / 2);
      assert Bit(w, high);
      forall i: nat | high < i ensures !Bit(w, i) {
        assert !Bit(w / 2, i - 1);
      }
    }
  }

  /** The scans find the bits named here. */
  lemma ScanIsLowest(w: nat, i: nat)
    requires w > 0 && IsLowest(w, i)
    ensures i == LowestBit(w)
  {
    LowestBitIs(w);
    hide Bit;
  }

  lemma ScanIsHighest(w: nat, i: nat, width: nat)
    requires 0 < w < Pow2(width) && i < width && Bit(w, i) && forall j: nat :: i < j < width ==> !Bit(w, j)
    ensures i == HighestBit(w)
  {
    HighestBitIs(w);
    var high := HighestBit(w);
    if high >= width {
      BitHigh(w, width, high);
    }
    hide Bit;
  }

  /** The clear bits above the highest set bit. */
  function LeadingZeros(w: nat, width: nat): int {
    if w == 0 then width else width - 1 - HighestBit(w)
  }

  /** The clear bits below the lowest set bit. */
  function TrailingZeros(w: nat, width: nat): nat {
    if w == 0 then width else LowestBit(w)
  }

  /** For the word 1 of 32 bits the two counts differ by 31, and each scan returns the other's. */
  lemma ScansOfOne()
    ensures TrailingZeros(1, 32) == 0 && LeadingZeros(1, 32) == 31
  {
  }

  /**
   * Documented as the number of leading zeros; it counts the zeros below the lowest set bit, which is the documented
   * number exactly for zero and for words with as many clear bits at either end.
   */
  method Clz(value: nat, width: nat) returns (index: nat)
    requires value < Pow2(width)
    ensures index <= width && (index == width <==> value == 0)
    ensures value != 0 ==> Bit(value, index) && forall i: nat :: i < index ==> !Bit(value, i)
    ensures index == TrailingZeros(value, width)
    ensures index == LeadingZeros(value, width) <==> value == 0 || LowestBit(value) + HighestBit(value) == width - 1
  {
    if value == 0 {
      return width;
    }
    ghost var some := SomeBit(value, width);
    index := 0;
    TestLowest(value, 0);
    while And(Shr(value, index), 1) == 0
      invariant index <= some
      invariant forall i: nat :: i < index ==> !Bit(value, i)
      decreases some - index
    {
      TestLowest(value, index);
      index := index + 1;
    }
    TestLowest(value, index);
    assert IsLowest(value, index);
    ScanIsLowest(value, index);
  }

  /** One more than the position of the lowest set bit, or zero. */
  method Ffs(value: nat, width: nat) returns (position: nat)
    requires value < Pow2(width)
    ensures position <= width && (position == 0 <==> value == 0)
    ensures value != 0 ==> Bit(value, position - 1) && forall i: nat :: i < position - 1 ==> !Bit(value, i)
  {
    if value == 0 {
      return 0;
    }
    ghost var some := SomeBit(value, width);
    var index := 0;
    while And(Shr(value, index), 1) == 0
      invariant index <= some
      invariant forall i: nat :: i < index ==> !Bit(value, i)
      decreases some - index
    {
      TestLowest(value, index);
      index := index + 1;
    }
    TestLowest(value, index);
    return index + 1;
  }

  lemma TestHighest(w: nat, index: nat, width: nat)
    requires index < width
    ensures And(Shl(w, index, width), Pow2(width - 1)) == 0 <==> !Bit(w, width - 1 - index)
  {
    var x := Shl(w, index, width);
    var top := Pow2(width - 1);
    BitShl(w, index, width, width - 1);
    AndFits(x, top, width);
    hide Bit, And, Shl;
    forall i: nat | i < width ensures Bit(And(x, top), i) <==> i == width - 1 && Bit(x, i) {
      BitAnd(x, top, i);
      BitOne(width - 1, i);
    }
    ZeroIffNoBit(And(x, top), width);
    assert And(x, top) == 0 <==> !Bit(And(x, top), width - 1);
  }

  /**
   * Documented as the number of trailing zeros; it counts the zeros above the highest set bit, with the same
   * exceptions.
   */
  method Ctz(value: nat, width: nat) returns (index: nat)
    requires value < Pow2(width) && width > 0
    ensures index <= width && (index == width <==> value == 0)
    ensures value != 0 ==>
      Bit(value, width - 1 - index) && forall i: nat :: width - 1 - index < i < width ==> !Bit(value, i)
    ensures index == LeadingZeros(value, width)
    ensures index == TrailingZeros(value, width) <==> value == 0 || LowestBit(value) + HighestBit(value) == width - 1
  {
    if value == 0 {
      return width;
    }
    ghost var some := SomeBit(value, width);
    index := 0;
    while And(Shl(value, index, width), Pow2(width - 1)) == 0
      invariant index <= width - 1 - some
      invariant forall i: nat :: width - 1 - index < i < width ==> !Bit(value, i)
      decreases width - index
    {
      TestHighest(value, index, width);
      index := index + 1;
    }
    TestHighest(value, index, width);
    ScanIsHighest(value, width - 1 - index, width);
  }
}
