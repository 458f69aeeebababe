/** Blocks of one to eight bits packed into bytes, and the swap of two bits of a mask. */
module BitViews {
  import opened Powers
  import opened Words
  import opened Paging
  import opened BitWords

  /** The number the bits from `pos` on spell. */
  ghost function BlockAt(bytes: seq<nat>, pos: nat, bits: nat): (r: nat)
    ensures r < Pow2(bits)
    decreases bits
  {
    if bits == 0 then 0 else (if On(bytes, 8, pos) then 1 else 0) + 2 * BlockAt(bytes, pos + 1, bits - 1)
  }

  lemma {:induction false} BitBlockAt(bytes: seq<nat>, pos: nat, bits: nat, j: nat)
    ensures Bit(BlockAt(bytes, pos, bits), j) <==> j < bits && On(bytes, 8, pos + j)
    decreases bits
  {
    hide On;
    if bits == 0 {
      BitZero(j);
    } else if j > 0 {
      assert BlockAt(bytes, pos, bits) / 2 == BlockAt(bytes, pos + 1, bits - 1);
      BitBlockAt(bytes, pos + 1, bits - 1, j - 1);
    }
  }

  /** A word with the bits of a block is the block. */
  lemma IsBlock(bytes: seq<nat>, pos: nat, bits: nat, r: nat)
    requires forall j: nat :: Bit(r, j) <==> j < bits && On(bytes, 8, pos + j)
    ensures r == BlockAt(bytes, pos, bits)
  {
    hide On, BlockAt;
    FitsIfNoHighBit(r, bits);
    var b := BlockAt(bytes, pos, bits);
    forall j | 0 <= j < bits ensures Bit(r, j) == Bit(b, j) {
      BitBlockAt(bytes, pos, bits, j);
    }
    SameBits(r, b, bits);
  }

  /** The block holds the value, and no bit outside it changed. */
  ghost predicate Stored(bytes: seq<nat>, was: seq<nat>, pos: nat, bits: nat, value: nat) {
    && |bytes| == |was| && Fit(bytes, 8)
    && forall i: nat :: On(bytes, 8, i) <==> if pos <= i < pos + bits then Bit(value, i - pos) else On(was, 8, i)
  }

  lemma {:induction false} SameBlock(bytes: seq<nat>, was: seq<nat>, pos: nat, bits: nat)
    requires forall i: nat :: pos <= i < pos + bits ==> (On(bytes, 8, i) <==> On(was, 8, i))
    ensures BlockAt(bytes, pos, bits) == BlockAt(was, pos, bits)
    decreases bits
  {
    hide On;
    if bits > 0 {
      SameBlock(bytes, was, pos + 1, bits - 1);
    }
  }

  /** What was stored is read back, and blocks that do not overlap it read as before. */
  lemma ReadBack(bytes: seq<nat>, was: seq<nat>, pos: nat, bits: nat, value: nat)
    requires Stored(bytes, was, pos, bits, value) && value < Pow2(bits)
    ensures BlockAt(bytes, pos, bits) == value
    ensures forall q: nat, width: nat :: q + width <= pos || pos + bits <= q ==>
      BlockAt(bytes, q, width) == BlockAt(was, q, width)
  {
    hide On, BlockAt, Fit;
    forall j: nat ensures Bit(value, j) <==> j < bits && On(bytes, 8, pos + j) {
      assert On(bytes, 8, pos + j) <==> if j < bits then Bit(value, j) else On(was, 8, pos + j);
      if j >= bits {
        BitHigh(value, bits, j);
      }
    }
    IsBlock(bytes, pos, bits, value);
    forall q: nat, width: nat | q + width <= pos || pos + bits <= q
      ensures BlockAt(bytes, q, width) == BlockAt(was, q, width)
    {
      SameBlock(bytes, was, q, width);
    }
  }

  /** The largest value of a block. */
  function MaxValue(bits: nat): (m: nat)
    requires bits <= 8
    ensures m < Pow2(bits)
  {
    ShlOne(bits, 32);
    Shl(1, bits, 32) - 1
  }

  lemma BitMaxValue(bits: nat, i: nat)
    requires bits <= 8
    ensures Bit(MaxValue(bits), i) <==> i < bits
  {
    ShlOne(bits, 32);
    BitOnes(bits, i);
  }

  /** The byte a block starts in, as `Set` writes it. */
  function FirstByte(byte: nat, idxBit: nat, bits: nat, value: nat): (r: nat)
    requires idxBit < 8 && bits <= 8
    ensures r < Pow2(8)
  {
    Or(And(byte, Not(Shl(MaxValue(bits), idxBit, 32), 32)), Shl(value, idxBit, 32)) % Pow2(8)
  }

  lemma BitFirstByte(byte: nat, idxBit: nat, bits: nat, value: nat, i: nat)
    requires idxBit < 8 && bits <= 8 && byte < Pow2(8) && value < Pow2(bits) && i < 8
    ensures Bit(FirstByte(byte, idxBit, bits, value), i) <==>
      if idxBit <= i < idxBit + bits then Bit(value, i - idxBit) else Bit(byte, i)
  {
    hide Bit, Not, Shl, And, Or, MaxValue, Pow2;
    var high := Shl(MaxValue(bits), idxBit, 32);
    BitModPow2(Or(And(byte, Not(high, 32)), Shl(value, idxBit, 32)), 8, i);
    BitOr(And(byte, Not(high, 32)), Shl(value, idxBit, 32), i);
    BitAnd(byte, Not(high, 32), i);
    BitNot(high, 32, i);
    BitShl(MaxValue(bits), idxBit, 32, i);
    BitShl(value, idxBit, 32, i);
    if idxBit <= i {
      BitMaxValue(bits, i - idxBit);
      if i - idxBit >= bits {
        BitHigh(value, bits, i - idxBit);
      }
    }
  }

  lemma ShrFits(x: nat, k: nat, width: nat)
    requires x < Pow2(width)
    ensures Shr(x, k) < Pow2(width)
  {
  }

  /** The byte a block runs over into, as `Set` writes it. */
  function SecondByte(byte: nat, shift: nat, bits: nat, value: nat): (r: nat)
    requires bits <= 8
    ensures r < Pow2(8)
  {
    Pow2Monotonic(bits, 32);
    ShrFits(MaxValue(bits), shift, 32);
    Or(And(byte, Not(Shr(MaxValue(bits), shift), 32)), Shr(value, shift)) % Pow2(8)
  }

  lemma BitSecondByte(byte: nat, shift: nat, bits: nat, value: nat, i: nat)
    requires bits <= 8 && byte < Pow2(8) && value < Pow2(bits) && i < 8
    ensures Bit(SecondByte(byte, shift, bits, value), i) <==>
      if i + shift < bits then Bit(value, i + shift) else Bit(byte, i)
  {
    hide Bit, Not, Shr, And, Or, MaxValue, Pow2;
    Pow2Monotonic(bits, 32);
    ShrFits(MaxValue(bits), shift, 32);
    var low := Shr(MaxValue(bits), shift);
    BitModPow2(Or(And(byte, Not(low, 32)), Shr(value, shift)), 8, i);
    BitOr(And(byte, Not(low, 32)), Shr(value, shift), i);
    BitAnd(byte, Not(low, 32), i);
    BitNot(low, 32, i);
    BitShr(MaxValue(bits), shift, i);
    BitShr(value, shift, i);
    BitMaxValue(bits, i + shift);
    if i + shift >= bits {
      BitHigh(value, bits, i + shift);
    }
  }

  class BitView {
    /** The number of bits of a block. */
    const bits: nat
    const m_data: array<nat>

    constructor (bits: nat, data: array<nat>)
      ensures this.bits == bits && m_data == data
    {
      this.bits, m_data := bits, data;
    }

    /** Whether a block lies inside the bytes. */
    ghost predicate Covers(bitPosition: nat)
      reads m_data
    {
      1 <= bits <= 8 && Fit(m_data[..], 8) && bitPosition + bits <= 8 * m_data.Length
    }

    method Set(bitPosition: nat, value: nat)
      requires Covers(bitPosition) && value < Pow2(bits)
      modifies m_data
      ensures Stored(m_data[..], old(m_data[..]), bitPosition, bits, value)
      ensures BlockAt(m_data[..], bitPosition, bits) == value
    {
      var idxByte, idxBit := PageIdx(bitPosition, 8), SlotIdx(bitPosition, 8);
      ghost var was := m_data[..];
      Division(bitPosition, 8);
      hide PageIdx, SlotIdx, Bit, FirstByte, SecondByte, On, BlockAt, Stored;
      assert was[idxByte] == m_data[idxByte];
      m_data[idxByte] := FirstByte(m_data[idxByte], idxBit, bits, value);
      assert m_data[..] == was[idxByte := m_data[idxByte]];
      var overlaps := idxBit + bits > 8;
      if overlaps {
        var shift2 := 8 - idxBit;
        m_data[idxByte + 1] := SecondByte(m_data[idxByte + 1], shift2, bits, value);
      }
      WrittenBytes(m_data[..], was, bitPosition, bits, value);
      ReadBack(m_data[..], was, bitPosition, bits, value);
    }

    method Get(bitPosition: nat) returns (r: nat)
      requires Covers(bitPosition)
      ensures r == BlockAt(m_data[..], bitPosition, bits) < Pow2(bits)
    {
      var idxByte, idxBit := PageIdx(bitPosition, 8), SlotIdx(bitPosition, 8);
      ghost var bytes := m_data[..];
      Division(bitPosition, 8);
      hide PageIdx, SlotIdx, Bit, And, Or, Shl, Shr, On, BlockAt, MaxValue;
      assert bytes[idxByte] == m_data[idxByte];
      var byte1 := And(Shr(m_data[idxByte], idxBit), MaxValue(bits));
      r := byte1;
      var overlaps := idxBit + bits > 8;
      if overlaps {
        var shift2 := 8 - idxBit;
        var mask2 := Shr(MaxValue(bits), shift2);
        assert bytes[idxByte + 1] == m_data[idxByte + 1];
        var byte2 := Shl(And(m_data[idxByte + 1], mask2), shift2, 32) % Pow2(8);
        r := Or(byte1, byte2);
      }
      ReadBytes(bytes, bitPosition, bits, r);
    }
  }

  /** Where a bit of a block lies. */
  lemma BlockPlace(pos: nat, j: nat)
    requires j < 8
    ensures if SlotIdx(pos, 8) + j < 8
      then PageIdx(pos + j, 8) == PageIdx(pos, 8) && SlotIdx(pos + j, 8) == SlotIdx(pos, 8) + j
      else PageIdx(pos + j, 8) == PageIdx(pos, 8) + 1 && SlotIdx(pos + j, 8) == SlotIdx(pos, 8) + j - 8
  {
  }

  lemma WrittenBytes(bytes: seq<nat>, was: seq<nat>, pos: nat, bits: nat, value: nat)
    requires Fit(was, 8) && 1 <= bits <= 8 && pos + bits <= 8 * |was| && value < Pow2(bits)
    requires PageIdx(pos, 8) < |was| && (SlotIdx(pos, 8) + bits > 8 ==> PageIdx(pos, 8) + 1 < |was|)
    requires var k, s := PageIdx(pos, 8), SlotIdx(pos, 8);
      var first := was[k := FirstByte(was[k], s, bits, value)];
      bytes == if s + bits > 8 then first[k + 1 := SecondByte(was[k + 1], 8 - s, bits, value)] else first
    ensures Stored(bytes, was, pos, bits, value)
  {
    hide Bit, FirstByte, SecondByte;
    var k, s := PageIdx(pos, 8), SlotIdx(pos, 8);
    forall i: nat ensures On(bytes, 8, i) <==> if pos <= i < pos + bits then Bit(value, i - pos) else On(was, 8, i) {
      Division(i, 8);
      Division(pos, 8);
      if PageIdx(i, 8) == k {
        BitFirstByte(was[k], s, bits, value, SlotIdx(i, 8));
      } else if s + bits > 8 && PageIdx(i, 8) == k + 1 {
        BitSecondByte(was[k + 1], 8 - s, bits, value, SlotIdx(i, 8));
      }
    }
  }

  lemma ReadBytes(bytes: seq<nat>, pos: nat, bits: nat, r: nat)
    requires Fit(bytes, 8) && 1 <= bits <= 8 && pos + bits <= 8 * |bytes|
    requires PageIdx(pos, 8) < |bytes| && (SlotIdx(pos, 8) + bits > 8 ==> PageIdx(pos, 8) + 1 < |bytes|)
    requires var k, s := PageIdx(pos, 8), SlotIdx(pos, 8);
      var first := And(Shr(bytes[k], s), MaxValue(bits));
      r == if s + bits > 8
        then Or(first, Shl(And(bytes[k + 1], Shr(MaxValue(bits), 8 - s)), 8 - s, 32) % Pow2(8))
        else first
    ensures r == BlockAt(bytes, pos, bits)
  {
    hide Bit, And, Or, Shl, Shr, MaxValue, BlockAt, On, PageIdx, SlotIdx;
    forall j: nat ensures Bit(r, j) <==> j < bits && On(bytes, 8, pos + j) {
      FirstBit(bytes, pos, bits, j);
      if SlotIdx(pos, 8) + bits > 8 {
        SecondBit(bytes, pos, bits, j);
        var k, s := PageIdx(pos, 8), SlotIdx(pos, 8);
        BitOr(And(Shr(bytes[k], s), MaxValue(bits)),
          Shl(And(bytes[k + 1], Shr(MaxValue(bits), 8 - s)), 8 - s, 32) % Pow2(8), j);
      }
    }
    IsBlock(bytes, pos, bits, r);
  }

  /** What the byte a block starts in contributes. */
  lemma FirstBit(bytes: seq<nat>, pos: nat, bits: nat, j: nat)
    requires Fit(bytes, 8) && 1 <= bits <= 8 && PageIdx(pos, 8) < |bytes|
    ensures Bit(And(Shr(bytes[PageIdx(pos, 8)], SlotIdx(pos, 8)), MaxValue(bits)), j) <==>
      j < bits && SlotIdx(pos, 8) + j < 8 && On(bytes, 8, pos + j)
  {
    hide Bit, And, Shr, MaxValue, PageIdx, SlotIdx, Pow2;
    var k, s := PageIdx(pos, 8), SlotIdx(pos, 8);
    BitAnd(Shr(bytes[k], s), MaxValue(bits), j);
    BitMaxValue(bits, j);
    BitShr(bytes[k], s, j);
    if s + j >= 8 {
      BitHigh(bytes[k], 8, s + j);
    }
    if j < bits {
      BlockPlace(pos, j);
    }
  }

  /** What the byte a block runs over into contributes. */
  lemma SecondBit(bytes: seq<nat>, pos: nat, bits: nat, j: nat)
    requires Fit(bytes, 8) && 1 <= bits <= 8 && PageIdx(pos, 8) + 1 < |bytes| && SlotIdx(pos, 8) + bits > 8
    ensures var k, s := PageIdx(pos, 8), SlotIdx(pos, 8);
      Bit(Shl(And(bytes[k + 1], Shr(MaxValue(bits), 8 - s)), 8 - s, 32) % Pow2(8), j) <==>
      j < bits && s + j >= 8 && On(bytes, 8, pos + j)
  {
    hide Bit, And, Shl, Shr, MaxValue, PageIdx, SlotIdx, Pow2;
    var k, s := PageIdx(pos, 8), SlotIdx(pos, 8);
    var low := Shr(MaxValue(bits), 8 - s);
    BitModPow2(Shl(And(bytes[k + 1], low), 8 - s, 32), 8, j);
    BitShl(And(bytes[k + 1], low), 8 - s, 32, j);
    if 8 - s <= j {
      BitAnd(bytes[k + 1], low, j - (8 - s));
      BitShr(MaxValue(bits), 8 - s, j - (8 - s));
      BitMaxValue(bits, j);
      if j < bits {
        BlockPlace(pos, j);
      }
    }
  }

  // Swapping two bits

  ghost predicate BitsSwapped(r: nat, mask: nat, left: nat, right: nat) {
    forall i: nat :: Bit(r, i) <==> Bit(mask, if i == left then right else if i == right then left else i)
  }

  /**
   * The two bits change places exactly when they are equal or both lie in the lowest byte, for masks of any width;
   * of two
   * unequal bits exactly those in the lowest byte are turned over.
   */
  method SwapBits(mask: nat, width: nat, left: nat, right: nat) returns (r: nat)
    requires mask < Pow2(width) && width >= 8 && left < 32 && right < 32
    ensures r < Pow2(width)
    ensures BitsSwapped(r, mask, left, right) <==> Bit(mask, left) == Bit(mask, right) || (left < 8 && right < 8)
    ensures forall i: nat :: Bit(r, i) <==>
      Bit(mask, i) != (i < 8 && (i == left || i == right) && Bit(mask, left) != Bit(mask, right))
  {
    var b0, b1 := And(Shr(mask, left), 1), And(Shr(mask, right), 1);
    var bxor := Xor(b0, b1);
    var m := Or(Shl(bxor, left, 32), Shl(bxor, right, 32));
    r := Xor(mask, m % Pow2(8));
    Pow2Monotonic(8, width);
    XorFits(mask, m % Pow2(8), width);
    SwapMask(mask, left, right, bxor);
    hide Bit, And, Or, Shl, Shr, Xor;
    forall i: nat
      ensures Bit(r, i) <==> Bit(mask, i) != (i < 8 && (i == left || i == right) && Bit(mask, left) != Bit(mask, right))
    {
      BitXor(mask, m % Pow2(8), i);
      BitModPow2(m, 8, i);
      BitOr(Shl(bxor, left, 32), Shl(bxor, right, 32), i);
      BitShl(bxor, left, 32, i);
      BitShl(bxor, right, 32, i);
    }
    SwappedIff(r, mask, left, right);
  }

  lemma SwapMask(mask: nat, left: nat, right: nat, bxor: nat)
    requires bxor == Xor(And(Shr(mask, left), 1), And(Shr(mask, right), 1))
    ensures forall i: nat :: Bit(bxor, i) <==> i == 0 && Bit(mask, left) != Bit(mask, right)
  {
    hide Bit, And, Shr, Xor;
    forall i: nat ensures Bit(bxor, i) <==> i == 0 && Bit(mask, left) != Bit(mask, right) {
      BitXor(And(Shr(mask, left), 1), And(Shr(mask, right), 1), i);
      BitAnd(Shr(mask, left), 1, i);
      BitAnd(Shr(mask, right), 1, i);
      BitShr(mask, left, i);
      BitShr(mask, right, i);
      BitOne(0, i);
    }
  }

  lemma SwappedIff(r: nat, mask: nat, left: nat, right: nat)
    requires forall i: nat :: Bit(r, i) <==>
      Bit(mask, i) != (i < 8 && (i == left || i == right) && Bit(mask, left) != Bit(mask, right))
    ensures BitsSwapped(r, mask, left, right) <==> Bit(mask, left) == Bit(mask, right) || (left < 8 && right < 8)
  {
    hide Bit;
    if BitsSwapped(r, mask, left, right) {
      assert Bit(r, left) <==> Bit(mask, right);
      assert Bit(r, right) <==> Bit(mask, left);
    }
  }
}
