/** Unsigned integers bit by bit; bit 0 is the lowest. */
module Bits {

  function Pow2(n: nat): (p: nat)
    ensures p >= 1
  {
    if n == 0 then 1 else 2 * Pow2(n - 1)
  }

  function And(x: nat, y: nat): nat {
    if x == 0 then 0 else (if x % 2 == 1 && y % 2 == 1 then 1 else 0) + 2 * And(x / 2, y / 2)
  }

  function Or(x: nat, y: nat): nat
    decreases x + y
  {
    if x == 0 && y == 0 then 0
    else (if x % 2 == 1 || y % 2 == 1 then 1 else 0) + 2 * Or(x / 2, y / 2)
  }

  /** The complement in a word of `width` bits. */
  function Not(width: nat, x: nat): nat
    requires x < Pow2(width)
  {
    Pow2(width) - 1 - x
  }

  function ShiftRight(x: nat, n: nat): nat {
    if n == 0 then x else ShiftRight(x / 2, n - 1)
  }

  predicate Bit(x: nat, i: nat) {
    ShiftRight(x, i) % 2 == 1
  }

  lemma BitShift(x: nat, i: nat)
    ensures Bit(x, i + 1) == Bit(x / 2, i)
  {
  }

  /** The bits of a word as the digits of its value. */
  lemma {:induction false} BitMeaning(x: nat, i: nat)
    ensures Bit(x, i) <==> x / Pow2(i) % 2 == 1
  {
    if i > 0 {
      BitShift(x, i - 1);
      BitMeaning(x / 2, i - 1);
      DivideTwice(x, Pow2(i - 1));
    }
  }

  lemma DivideTwice(x: nat, p: nat)
    requires p > 0
    ensures x / (2 * p) == x / 2 / p
  {
    var q, r := x / 2 / p, x / 2 % p;
    var e := x % 2;
    assert x == 2 * (p * q + r) + e && 2 * r + e < 2 * p;
    Associate(p, q);
    QuotientIs(x, 2 * p, q, 2 * r + e);
  }

  lemma Associate(p: nat, q: nat)
    ensures 2 * (p * q) == (2 * p) * q
  {
  }

  lemma QuotientIs(x: nat, d: nat, q: nat, r: nat)
    requires r < d && x == d * q + r
    ensures x / d == q
  {
    if q + 1 <= x / d {
      MultiplyMonotone(d, q + 1, x / d);
    } else if x / d + 1 <= q {
      MultiplyMonotone(d, x / d + 1, q);
    }
  }

  lemma MultiplyMonotone(d: nat, i: nat, j: nat)
    requires i <= j
    ensures d * i <= d * j
  {
  }

  /** The operators, bit by bit. */
  lemma {:induction false} AndByBit(x: nat, y: nat, i: nat)
    ensures Bit(And(x, y), i) <==> Bit(x, i) && Bit(y, i)
    decreases i
  {
    AndHalves(x, y);
    if i > 0 {
      BitShift(x, i - 1);
      BitShift(y, i - 1);
      BitShift(And(x, y), i - 1);
      AndByBit(x / 2, y / 2, i - 1);
    }
  }

  lemma {:induction false} OrByBit(x: nat, y: nat, i: nat)
    ensures Bit(Or(x, y), i) <==> Bit(x, i) || Bit(y, i)
    decreases i
  {
    assert Or(x, y) == (if x % 2 == 1 || y % 2 == 1 then 1 else 0) + 2 * Or(x / 2, y / 2);
    if i > 0 {
      BitShift(x, i - 1);
      BitShift(y, i - 1);
      BitShift(Or(x, y), i - 1);
      OrByBit(x / 2, y / 2, i - 1);
    }
  }

  lemma {:induction false} NotByBit(width: nat, x: nat, i: nat)
    requires i < width && x < Pow2(width)
    ensures Bit(Not(width, x), i) <==> !Bit(x, i)
    decreases i
  {
    HalfNot(width, x);
    if i > 0 {
      BitShift(x, i - 1);
      BitShift(Not(width, x), i - 1);
      NotByBit(width - 1, x / 2, i - 1);
    }
  }

  lemma Pow2Values()
    ensures Pow2(1) == 2 && Pow2(2) == 4 && Pow2(30) == 0x4000_0000 && Pow2(31) == 0x8000_0000
    ensures Pow2(32) == 0x1_0000_0000
  {
    assert Pow2(8) == 0x100;
    assert Pow2(16) == 0x1_0000;
    assert Pow2(24) == 0x100_0000;
  }

  lemma {:induction false} Pow2Monotone(i: nat, j: nat)
    requires i <= j
    ensures Pow2(i) <= Pow2(j)
    ensures i < j ==> 2 * Pow2(i) <= Pow2(j)
    decreases j
  {
    if i < j {
      Pow2Monotone(i, j - 1);
    }
  }

  lemma AndHalves(x: nat, m: nat)
    ensures And(x, m) == (if x % 2 == 1 && m % 2 == 1 then 1 else 0) + 2 * And(x / 2, m / 2)
  {
  }

  lemma {:induction false} AndBound(x: nat, y: nat)
    ensures And(x, y) <= x && And(x, y) <= y
  {
    if x != 0 {
      AndBound(x / 2, y / 2);
    }
  }

  lemma {:induction false} AndAgain(x: nat, m: nat)
    ensures And(And(x, m), m) == And(x, m)
  {
    if x != 0 {
      AndAgain(x / 2, m / 2);
      AndHalves(x, m);
      AndHalves(And(x, m), m);
    }
  }

  lemma {:induction false} OrOfDisjoint(x: nat, y: nat)
    requires And(x, y) == 0
    ensures Or(x, y) == x + y
    decreases x + y
  {
    if x != 0 || y != 0 {
      assert And(x / 2, y / 2) == 0;
      OrOfDisjoint(x / 2, y / 2);
    }
  }

  lemma HalfNot(width: nat, m: nat)
    requires 0 < width && m < Pow2(width)
    ensures m / 2 < Pow2(width - 1)
    ensures Not(width, m) % 2 == 1 - m % 2 && Not(width, m) / 2 == Not(width - 1, m / 2)
  {
  }

  /** What a mask selects and what its complement holds have no bit in common. */
  lemma {:induction false} MaskedAndComplement(width: nat, x: nat, m: nat)
    requires m < Pow2(width)
    ensures And(And(x, m), Not(width, m)) == 0
    decreases width
  {
    AndBound(x, m);
    if width > 0 && x != 0 {
      HalfNot(width, m);
      MaskedAndComplement(width - 1, x / 2, m / 2);
      var e := if x % 2 == 1 && m % 2 == 1 then 1 else 0;
      assert And(x, m) % 2 == e && And(x, m) / 2 == And(x / 2, m / 2);
    }
  }

  // Masks

  /** No one-bit below a zero-bit. */
  ghost predicate Contiguous(width: nat, m: nat) {
    forall i, j :: 0 <= i < j < width && Bit(m, i) ==> Bit(m, j)
  }

  /** The high bits from `low` upward are set. */
  ghost predicate HighBitsSet(width: nat, m: nat, low: nat) {
    forall i :: low <= i < width ==> Bit(m, i)
  }

  lemma {:induction false} HighBitsSetMeansLarge(width: nat, m: nat, low: nat)
    requires low <= width && m < Pow2(width) && HighBitsSet(width, m, low)
    ensures Not(width, m) < Pow2(low)
    decreases width
  {
    if width > 0 {
      HalfNot(width, m);
      assert low == 0 ==> Bit(m, 0);
      var low' := if low == 0 then 0 else low - 1;
      forall i | low' <= i < width - 1 ensures Bit(m / 2, i) {
        BitShift(m, i);
        assert Bit(m, i + 1);
      }
      HighBitsSetMeansLarge(width - 1, m / 2, low');
    }
  }

  lemma {:induction false} ClearBitMeansSmall(width: nat, m: nat, i: nat)
    requires i < width && m < Pow2(width) && !Bit(m, i)
    ensures Not(width, m) >= Pow2(i)
    decreases width
  {
    HalfNot(width, m);
    if i > 0 {
      BitShift(m, i - 1);
      ClearBitMeansSmall(width - 1, m / 2, i - 1);
    }
  }

  /** The word of `width` bits with ones from `low` upward. */
  function HighOnes(width: nat, low: nat): (m: nat)
    requires low <= width
    ensures m == Pow2(width) - Pow2(low) && m < Pow2(width)
  {
    if width == 0 then 0
    else if low == 0 then 2 * HighOnes(width - 1, 0) + 1
    else 2 * HighOnes(width - 1, low - 1)
  }

  lemma {:induction false} BitsOfHighOnes(width: nat, low: nat, i: nat)
    requires low <= width && i < width
    ensures Bit(HighOnes(width, low), i) <==> low <= i
    decreases width
  {
    var m := HighOnes(width, low);
    if i > 0 {
      BitShift(m, i - 1);
      BitsOfHighOnes(width - 1, if low == 0 then 0 else low - 1, i - 1);
    }
  }

  /** Every contiguous mask has this form. */
  lemma {:induction false} ContiguousIsHighOnes(width: nat, m: nat) returns (low: nat)
    requires m < Pow2(width) && Contiguous(width, m)
    ensures low <= width && m == HighOnes(width, low)
    decreases width
  {
    if width == 0 {
      low := 0;
    } else {
      forall i, j | 0 <= i < j < width - 1 && Bit(m / 2, i) ensures Bit(m / 2, j) {
        BitShift(m, i);
        BitShift(m, j);
        assert Bit(m, i + 1) ==> Bit(m, j + 1);
      }
      HalfNot(width, m);
      var low' := ContiguousIsHighOnes(width - 1, m / 2);
      if m % 2 == 0 {
        low := low' + 1;
      } else {
        low := 0;
        forall i | 0 <= i < width ensures Bit(m, i) {
          assert Bit(m, 0);
        }
        HighBitsSetMeansLarge(width, m, 0);
      }
    }
  }

  lemma HighOnesIsContiguous(width: nat, low: nat)
    requires low <= width
    ensures Contiguous(width, HighOnes(width, low))
  {
    var m := HighOnes(width, low);
    forall i, j | 0 <= i < j < width && Bit(m, i) ensures Bit(m, j) {
      BitsOfHighOnes(width, low, i);
      BitsOfHighOnes(width, low, j);
    }
  }

  lemma {:induction false} AndAllOnes(width: nat, x: nat)
    requires x < Pow2(width)
    ensures And(x, HighOnes(width, 0)) == x
    decreases width
  {
    if width > 0 && x != 0 {
      AndAllOnes(width - 1, x / 2);
    }
  }

  /** Two words agree under a contiguous mask exactly when they lie in the same aligned block. */
  lemma {:induction false} SameBlock(width: nat, low: nat, a: nat, x: nat)
    requires low <= width && a < Pow2(width) && x < Pow2(width)
    ensures var m := HighOnes(width, low);
            And(x, m) == And(a, m) <==> And(a, m) <= x < And(a, m) + Pow2(low)
    decreases width
  {
    if low == 0 {
      AndAllOnes(width, a);
      AndAllOnes(width, x);
    } else {
      SameBlock(width - 1, low - 1, a / 2, x / 2);
    }
  }

  /** Under a mask that is not contiguous, the range from the selected block's first word to its last
      holds a word that the mask sends elsewhere. */
  lemma {:induction false} GapInRange(width: nat, n: nat, m: nat) returns (x: nat)
    requires m < Pow2(width) && !Contiguous(width, m) && And(n, m) == n
    ensures n < x < n + Not(width, m) && And(x, m) != n
    decreases width
  {
    var i, j :| 0 <= i < j < width && Bit(m, i) && !Bit(m, j);
    HalfNot(width, m);
    BitShift(m, j - 1);
    AndHalves(n, m);
    if m % 2 == 0 {
      BitShift(m, i - 1);
      assert Bit(m / 2, i - 1) && !Bit(m / 2, j - 1);
      var x' := GapInRange(width - 1, n / 2, m / 2);
      x := 2 * x';
      AndHalves(x, m);
    } else {
      ClearBitMeansSmall(width - 1, m / 2, j - 1);
      x := GapUnderOddMask(width, n, m);
    }
  }

  lemma GapUnderOddMask(width: nat, n: nat, m: nat) returns (x: nat)
    requires m < Pow2(width) && m % 2 == 1 && And(n, m) == n && Not(width, m) >= 2
    ensures n < x < n + Not(width, m) && And(x, m) != n
  {
    AndBound(n, m);
    x := if n % 2 == 0 then n + 1 else n + 2 * (Not(width, m) / 2) - 1;
    AndHalves(x, m);
  }
}
