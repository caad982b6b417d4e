/** Bitwise operators on natural numbers, bit by bit, and the arithmetic facts the codecs rely on. */
module Bits {
  import opened Wire

  function Pow2(k: nat): (r: nat)
    ensures r >= 1
  {
    if k == 0 then 1 else 2 * Pow2(k - 1)
  }

  lemma {:induction false} Pow2Add(i: nat, j: nat)
    ensures Pow2(i + j) == Pow2(i) * Pow2(j)
  {
    if i > 0 {
      Pow2Add(i - 1, j);
      assert 2 * (Pow2(i - 1) * Pow2(j)) == (2 * Pow2(i - 1)) * Pow2(j);
    }
  }

  function Or(x: nat, y: nat): (r: nat)
    decreases x + y
  {
    if x == 0 then y else if y == 0 then x
    else 2 * Or(x / 2, y / 2) + (if x % 2 == 1 || y % 2 == 1 then 1 else 0)
  }

  function Xor(x: nat, y: nat): (r: nat)
    decreases x + y
  {
    if x == 0 then y else if y == 0 then x
    else 2 * Xor(x / 2, y / 2) + (x + y) % 2
  }

  // One unfolding that holds whether or not an argument is zero; induction would only get in the way.
  lemma {:induction false} XorStep(x: nat, y: nat)
    ensures Xor(x, y) == 2 * Xor(x / 2, y / 2) + (x + y) % 2
  {
    if x == 0 {
      assert Xor(0, y / 2) == y / 2;
    } else if y == 0 {
      assert Xor(x / 2, 0) == x / 2;
    }
  }

  /** Or of disjoint parts is addition: the low `k` bits of `x` against a multiple of 2^k. */
  lemma {:induction false} OrDisjoint(x: nat, y: nat, k: nat)
    requires x < Pow2(k)
    ensures Or(x, y * Pow2(k)) == x + y * Pow2(k)
  {
    if x == 0 || y == 0 || k == 0 {
      assert 0 * Pow2(k) == 0;
    } else {
      var z := y * Pow2(k);
      var half := y * Pow2(k - 1);
      assert z == 2 * half;
      OrDisjoint(x / 2, y, k - 1);
      assert half > 0;
    }
  }

  lemma {:induction false} XorSelfInverse(x: nat, y: nat)
    ensures Xor(Xor(x, y), y) == x
    decreases x + y
  {
    if x != 0 || y != 0 {
      var z, half, low := Xor(x, y), Xor(x / 2, y / 2), (x + y) % 2;
      assert z == 2 * half + low by { XorStep(x, y); }
      assert z / 2 == half;
      assert Xor(z, y) == 2 * Xor(half, y / 2) + (z + y) % 2 by { XorStep(z, y); }
      XorSelfInverse(x / 2, y / 2);
      SameParity(x, y, half);
    }
  }

  lemma SameParity(x: nat, y: nat, half: nat)
    ensures (2 * half + (x + y) % 2 + y) % 2 == x % 2
  {
  }

  lemma {:induction false} XorBound(x: nat, y: nat, k: nat)
    requires x < Pow2(k) && y < Pow2(k)
    ensures Xor(x, y) < Pow2(k)
  {
    if k > 0 {
      XorStep(x, y);
      XorBound(x / 2, y / 2, k - 1);
    }
  }

  /** Xor with all ones is the complement: what `^x` and `-1 ^ x` do on `k`-bit words. */
  lemma {:induction false} XorOnes(x: nat, k: nat)
    requires x < Pow2(k)
    ensures Xor(x, Pow2(k) - 1) == Pow2(k) - 1 - x
  {
    if k > 0 {
      var ones := Pow2(k) - 1;
      XorStep(x, ones);
      assert ones / 2 == Pow2(k - 1) - 1 && ones % 2 == 1;
      XorOnes(x / 2, k - 1);
    }
  }

  /** The low `k` bits of `x` in the opposite order (`bits.Reverse32` for k = 32). */
  function Reverse(x: nat, k: nat): (r: nat) {
    if k == 0 then 0 else (x % 2) * Pow2(k - 1) + Reverse(x / 2, k - 1)
  }

  lemma {:induction false} ReverseBound(x: nat, k: nat)
    ensures Reverse(x, k) < Pow2(k)
  {
    if k > 0 {
      ReverseBound(x / 2, k - 1);
      Bit(x % 2, Pow2(k - 1));
    }
  }

  lemma Bit(bit: nat, p: nat)
    requires bit < 2
    ensures bit * p == if bit == 0 then 0 else p
  {
  }

  // Reversing a word whose top bit is split off.
  lemma {:induction false} ReverseTop(top: nat, y: nat, k: nat)
    requires top < 2 && y < Pow2(k)
    ensures Reverse(top * Pow2(k) + y, k + 1) == top + 2 * Reverse(y, k)
  {
    Bit(top, Pow2(k));
    if k == 0 {
      assert Reverse(top, 1) == (top % 2) * Pow2(0) + Reverse(top / 2, 0);
    } else {
      var p := Pow2(k - 1);
      assert Pow2(k) == 2 * p;
      Bit(top, p);
      Bit(y % 2, p);
      Bit(y % 2, Pow2(k));
      var z := top * Pow2(k) + y;
      assert z % 2 == y % 2 && z / 2 == top * p + y / 2;
      ReverseTop(top, y / 2, k - 1);
      assert Reverse(z, k + 1) == (y % 2) * Pow2(k) + Reverse(z / 2, k);
      assert Reverse(y, k) == (y % 2) * p + Reverse(y / 2, k - 1);
    }
  }

  /** Reversal is its own inverse on `k`-bit words. */
  lemma {:induction false} ReverseInvolution(x: nat, k: nat)
    requires x < Pow2(k)
    ensures Reverse(Reverse(x, k), k) == x
  {
    if k > 0 {
      ReverseBound(x / 2, k - 1);
      ReverseTop(x % 2, Reverse(x / 2, k - 1), k - 1);
      ReverseInvolution(x / 2, k - 1);
    }
  }

  // ---------------------------------------------------------------- one bit at a time

  /** Bit `i` of `x`. */
  function BitOf(x: nat, i: nat): (r: nat)
    ensures r < 2
  {
    (x / Pow2(i)) % 2
  }

  // The bits of a number are its parity and the bits of its half.
  lemma BitShift(x: nat, i: nat)
    ensures BitOf(x, 0) == x % 2
    ensures i > 0 ==> BitOf(x, i) == BitOf(x / 2, i - 1)
  {
    assert Pow2(0) == 1;
    if i > 0 {
      DivStep(x, 2, Pow2(i - 1));
    }
  }

  /** `|` sets a bit exactly when one of the operands has it. */
  lemma {:induction false} OrBits(x: nat, y: nat, i: nat)
    ensures BitOf(Or(x, y), i) == if BitOf(x, i) == 1 || BitOf(y, i) == 1 then 1 else 0
    decreases i
  {
    hide BitOf;
    if x == 0 || y == 0 {
      NoBits(i);
    } else {
      assert Or(x, y) / 2 == Or(x / 2, y / 2);
      BitShift(x, i);
      BitShift(y, i);
      BitShift(Or(x, y), i);
      if i > 0 {
        OrBits(x / 2, y / 2, i - 1);
      }
    }
  }

  lemma NoBits(i: nat)
    ensures BitOf(0, i) == 0
  {
  }

  /** `^` sets a bit exactly when the operands differ there. */
  lemma {:induction false} XorBits(x: nat, y: nat, i: nat)
    ensures BitOf(Xor(x, y), i) == if BitOf(x, i) != BitOf(y, i) then 1 else 0
    decreases i
  {
    hide BitOf, Xor;
    XorStep(x, y);
    assert Xor(x, y) / 2 == Xor(x / 2, y / 2);
    BitShift(x, i);
    BitShift(y, i);
    BitShift(Xor(x, y), i);
    if i > 0 {
      XorBits(x / 2, y / 2, i - 1);
    }
  }

  /** Reversal exchanges bit `i` and bit `k - 1 - i`. */
  lemma {:induction false} ReverseBits(x: nat, k: nat, i: nat)
    requires i < k
    ensures BitOf(Reverse(x, k), i) == BitOf(x, k - 1 - i)
    decreases k
  {
    hide BitOf, Pow2;
    ReverseBound(x / 2, k - 1);
    BitShift(x, k - 1 - i);
    if i == k - 1 {
      TopBit(x % 2, Reverse(x / 2, k - 1), k - 1);
    } else {
      ReverseBits(x / 2, k - 1, i);
      ManyAbove(x % 2, Reverse(x / 2, k - 1), k - 1, i);
    }
  }

  lemma TopBit(top: nat, low: nat, k: nat)
    requires top < 2 && low < Pow2(k)
    ensures BitOf(top * Pow2(k) + low, k) == top
  {
    DivIs(top * Pow2(k) + low, Pow2(k), top, low);
  }

  lemma Twice(x: nat, y: nat)
    ensures 2 * (x * y) == (2 * x) * y
  {
  }

  /** Words of `k` bits that agree bit by bit are equal. */
  lemma {:induction false} SameBits(x: nat, y: nat, k: nat)
    requires x < Pow2(k) && y < Pow2(k) && forall i :: 0 <= i < k ==> BitOf(x, i) == BitOf(y, i)
    ensures x == y
  {
    hide BitOf;
    if k > 0 {
      BitShift(x, 0);
      BitShift(y, 0);
      forall i | 0 <= i < k - 1
        ensures BitOf(x / 2, i) == BitOf(y / 2, i)
      {
        BitShift(x, i + 1);
        BitShift(y, i + 1);
        assert BitOf(x, i + 1) == BitOf(y, i + 1);
      }
      SameBits(x / 2, y / 2, k - 1);
      assert BitOf(x, 0) == BitOf(y, 0);
    }
  }

  /** The bits below `k` are those of the remainder modulo 2^k. */
  lemma LowBits(x: nat, k: nat, i: nat)
    requires i < k
    ensures BitOf(x % Pow2(k), i) == BitOf(x, i)
  {
    hide BitOf, Pow2;
    ManyAbove(x / Pow2(k), x % Pow2(k), k, i);
  }

  lemma ManyAbove(q: nat, low: nat, k: nat, i: nat)
    requires i < k
    ensures BitOf(q * Pow2(k) + low, i) == BitOf(low, i)
  {
    var p, above := Pow2(i), Pow2(k - i - 1);
    assert Pow2(k) == (2 * above) * p by {
      Pow2Add(k - i - 1, i);
      assert Pow2(k) == 2 * Pow2(k - 1);
      Twice(above, p);
    }
    hide Pow2;
    EvenAbove(q, above, p, low);
  }

  lemma EvenAbove(q: nat, above: nat, p: nat, low: nat)
    requires p > 0
    ensures ((q * ((2 * above) * p) + low) / p) % 2 == (low / p) % 2
  {
    var t, c, r := q * above, low / p, low % p;
    Regrouped(q, above, p);
    assert q * ((2 * above) * p) + low == (2 * t + c) * p + r;
    DivIs(q * ((2 * above) * p) + low, p, 2 * t + c, r);
  }

  lemma Regrouped(q: nat, above: nat, p: nat)
    ensures q * ((2 * above) * p) == (2 * (q * above)) * p
  {
    assert q * (above * p) == (q * above) * p;
    assert (2 * above) * p == 2 * (above * p);
    assert q * (2 * (above * p)) == 2 * (q * (above * p));
  }
}
