/** Unsigned machine words of any width as numbers, and the operators on them, bit by bit. */
module Words {
  import opened Powers

  /** The bit at position `i`, counted from the least significant one. */
  predicate Bit(w: nat, i: nat) {
    if i == 0 then w % 2 == 1 else Bit(w / 2, i - 1)
  }

  function And(a: nat, b: nat): nat {
    if a == 0 then 0 else (a % 2) * (b % 2) + 2 * And(a / 2, b / 2)
  }

  function Or(a: nat, b: nat): nat
    decreases a + b
  {
    if a == 0 && b == 0 then 0 else (if a % 2 == 1 || b % 2 == 1 then 1 else 0) + 2 * Or(a / 2, b / 2)
  }

  function Xor(a: nat, b: nat): nat
    decreases a + b
  {
    if a == 0 && b == 0 then 0 else (if a % 2 != b % 2 then 1 else 0) + 2 * Xor(a / 2, b / 2)
  }

  /** All bits of a `width`-bit word turned over. */
  function Not(a: nat, width: nat): (r: nat)
    requires a < Pow2(width)
    ensures r < Pow2(width)
  {
    Pow2(width) - 1 - a
  }

  /** A left shift drops what leaves the word. */
  function Shl(a: nat, k: nat, width: nat): (r: nat)
    ensures r < Pow2(width)
  {
    a * Pow2(k) % Pow2(width)
  }

  function Shr(a: nat, k: nat): (r: nat)
    ensures r <= a
  {
    if k == 0 then a else Shr(a / 2, k - 1)
  }

  lemma AndHalf(a: nat, b: nat)
    ensures And(a, b) / 2 == And(a / 2, b / 2)
    ensures And(a, b) % 2 == if a % 2 == 1 && b % 2 == 1 then 1 else 0
  {
    assert (a % 2) * (b % 2) == if a % 2 == 1 then b % 2 else 0;
  }

  lemma {:induction false} BitAnd(a: nat, b: nat, i: nat)
    ensures Bit(And(a, b), i) <==> Bit(a, i) && Bit(b, i)
    decreases i
  {
    AndHalf(a, b);
    hide And;
    if i > 0 {
      BitAnd(a / 2, b / 2, i - 1);
    }
  }

  lemma OrHalf(a: nat, b: nat)
    ensures Or(a, b) / 2 == Or(a / 2, b / 2)
    ensures Or(a, b) % 2 == if a % 2 == 1 || b % 2 == 1 then 1 else 0
  {
  }

  lemma XorHalf(a: nat, b: nat)
    ensures Xor(a, b) / 2 == Xor(a / 2, b / 2)
    ensures Xor(a, b) % 2 == if a % 2 != b % 2 then 1 else 0
  {
  }

  lemma {:induction false} BitOr(a: nat, b: nat, i: nat)
    ensures Bit(Or(a, b), i) <==> Bit(a, i) || Bit(b, i)
    decreases i
  {
    OrHalf(a, b);
    hide Or;
    if i > 0 {
      BitOr(a / 2, b / 2, i - 1);
    }
  }

  lemma {:induction false} BitXor(a: nat, b: nat, i: nat)
    ensures Bit(Xor(a, b), i) <==> Bit(a, i) != Bit(b, i)
    decreases i
  {
    XorHalf(a, b);
    hide Xor;
    if i > 0 {
      BitXor(a / 2, b / 2, i - 1);
    }
  }

  lemma {:induction false} BitZero(i: nat)
    ensures !Bit(0, i)
  {
    if i > 0 {
      BitZero(i - 1);
    }
  }

  lemma {:induction false} BitNot(a: nat, width: nat, i: nat)
    requires a < Pow2(width) && i < width
    ensures Bit(Not(a, width), i) <==> !Bit(a, i)
    decreases i
  {
    var r := Not(a, width);
    assert r % 2 != a % 2;
    if i > 0 {
      assert r / 2 == Not(a / 2, width - 1);
      BitNot(a / 2, width - 1, i - 1);
    }
  }

  /** A number fits a word exactly when it has no bit above it. */
  lemma {:induction false} BitHigh(a: nat, width: nat, i: nat)
    requires a < Pow2(width) && width <= i
    ensures !Bit(a, i)
    decreases i
  {
    if width == 0 {
      BitZero(i);
    } else {
      BitHigh(a / 2, width - 1, i - 1);
    }
  }

  lemma {:induction false} FitsIfNoHighBit(a: nat, width: nat)
    requires forall i :: width <= i ==> !Bit(a, i)
    ensures a < Pow2(width)
    decreases a
  {
    if a > 0 {
      if width == 0 {
        assert !Bit(a, 0);
        forall i: nat ensures !Bit(a / 2, i) {
          assert !Bit(a, i + 1);
        }
        FitsIfNoHighBit(a / 2, 0);
      } else {
        forall i: nat | width - 1 <= i ensures !Bit(a / 2, i) {
          assert !Bit(a, i + 1);
        }
        FitsIfNoHighBit(a / 2, width - 1);
      }
    } else {
      assert Pow2(width) > 0;
    }
  }

  /** Words with the same bits are the same word. */
  lemma {:induction false} SameBits(a: nat, b: nat, width: nat)
    requires a < Pow2(width) && b < Pow2(width)
    requires forall i :: 0 <= i < width ==> Bit(a, i) == Bit(b, i)
    ensures a == b
    decreases width
  {
    if width > 0 {
      assert Bit(a, 0) == Bit(b, 0);
      forall i | 0 <= i < width - 1 ensures Bit(a / 2, i) == Bit(b / 2, i) {
        assert Bit(a, i + 1) == Bit(b, i + 1);
      }
      SameBits(a / 2, b / 2, width - 1);
    }
  }

  lemma {:induction false} BitShr(a: nat, k: nat, i: nat)
    ensures Bit(Shr(a, k), i) <==> Bit(a, i + k)
    decreases k
  {
    if k > 0 {
      BitShr(a / 2, k - 1, i);
    }
  }

  lemma NextMultiple(p: nat, q: int, r: int)
    requires q < r
    ensures p * q + p <= p * r
  {
    assert p * r == p * q + p + p * (r - q - 1);
    assert p * (r - q - 1) >= 0;
  }

  lemma Quotient(q: int, r: int, q': int, r': int, p: nat)
    requires 0 <= r < p && 0 <= r' < p && p * q + r == p * q' + r'
    ensures q == q'
  {
    if q < q' {
      NextMultiple(p, q, q');
    } else if q > q' {
      NextMultiple(p, q', q);
    }
  }

  lemma {:induction false} BitTimesPow2(a: nat, k: nat, i: nat)
    ensures Bit(a * Pow2(k), i) <==> i >= k && Bit(a, i - k)
    decreases k
  {
    if k > 0 {
      var p := Pow2(k - 1);
      assert a * Pow2(k) == 2 * (a * p);
      if i > 0 {
        BitTimesPow2(a, k - 1, i - 1);
      }
    }
  }

  lemma {:induction false} BitModPow2(a: nat, width: nat, i: nat)
    ensures Bit(a % Pow2(width), i) <==> i < width && Bit(a, i)
    decreases width
  {
    if i >= width {
      BitHigh(a % Pow2(width), width, i);
    } else {
      var p := Pow2(width - 1);
      ModHalf(a, p);
      if i > 0 {
        BitModPow2(a / 2, width - 1, i - 1);
      }
    }
  }

  lemma ModHalf(a: nat, p: nat)
    requires p > 0
    ensures a % (2 * p) / 2 == a / 2 % p && a % (2 * p) % 2 == a % 2
  {
    var q := a / (2 * p);
    var r := a % (2 * p);
    assert a == 2 * (p * q) + r;
    assert a / 2 == p * q + r / 2;
    var h := a / 2;
    assert h == p * (h / p) + h % p;
    Quotient(q, r / 2, h / p, h % p, p);
    assert p * q == p * (h / p);
  }

  lemma BitShl(a: nat, k: nat, width: nat, i: nat)
    ensures Bit(Shl(a, k, width), i) <==> k <= i < width && Bit(a, i - k)
  {
    BitModPow2(a * Pow2(k), width, i);
    BitTimesPow2(a, k, i);
  }

  /** A word with one bit set. */
  lemma BitOne(k: nat, i: nat)
    ensures Bit(Pow2(k), i) <==> i == k
  {
    BitTimesPow2(1, k, i);
    if i > k {
      BitHigh(1, 1, i - k);
    }
  }

  /** A word with all bits below `k` set. */
  lemma {:induction false} BitOnes(k: nat, i: nat)
    ensures Bit(Pow2(k) - 1, i) <==> i < k
    decreases k
  {
    if k == 0 {
      BitZero(i);
    } else if i > 0 {
      assert (Pow2(k) - 1) / 2 == Pow2(k - 1) - 1;
      BitOnes(k - 1, i - 1);
    }
  }

  lemma AndFits(a: nat, b: nat, width: nat)
    requires a < Pow2(width) || b < Pow2(width)
    ensures And(a, b) < Pow2(width)
  {
    forall i: nat | width <= i ensures !Bit(And(a, b), i) {
      BitAnd(a, b, i);
      if a < Pow2(width) {
        BitHigh(a, width, i);
      } else {
        BitHigh(b, width, i);
      }
    }
    FitsIfNoHighBit(And(a, b), width);
  }

  lemma OrFits(a: nat, b: nat, width: nat)
    requires a < Pow2(width) && b < Pow2(width)
    ensures Or(a, b) < Pow2(width)
  {
    forall i: nat | width <= i ensures !Bit(Or(a, b), i) {
      BitOr(a, b, i);
      BitHigh(a, width, i);
      BitHigh(b, width, i);
    }
    FitsIfNoHighBit(Or(a, b), width);
  }

  lemma XorFits(a: nat, b: nat, width: nat)
    requires a < Pow2(width) && b < Pow2(width)
    ensures Xor(a, b) < Pow2(width)
  {
    forall i: nat | width <= i ensures !Bit(Xor(a, b), i) {
      BitXor(a, b, i);
      BitHigh(a, width, i);
      BitHigh(b, width, i);
    }
    FitsIfNoHighBit(Xor(a, b), width);
  }

  lemma {:induction false} SomeBit(a: nat, width: nat) returns (i: nat)
    requires 0 < a < Pow2(width)
    ensures i < width && Bit(a, i)
    decreases width
  {
    if a % 2 == 1 {
      i := 0;
    } else {
      var j := SomeBit(a / 2, width - 1);
      i := j + 1;
    }
  }

  /** A word is zero exactly when it has no bit. */
  lemma ZeroIffNoBit(a: nat, width: nat)
    requires a < Pow2(width)
    ensures a == 0 <==> forall i: nat :: i < width ==> !Bit(a, i)
  {
    if a == 0 {
      forall i: nat | i < width ensures !Bit(a, i) {
        BitZero(i);
      }
    } else {
      var k := SomeBit(a, width);
      assert exists i: nat :: i < width && Bit(a, i);
    }
  }
}
