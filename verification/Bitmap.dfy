/** Bitwise operations on natural numbers, and a bitmap read as the ascending list of its set bits. */
module Bitmap {
  import opened Arithmetic

  function Pow2(n: nat): (r: nat)
    ensures r > 0
  {
    if n == 0 then 1 else 2 * Pow2(n - 1)
  }

  function And(x: nat, y: nat): (r: nat)
    ensures r <= x && r <= y
  {
    if x == 0 || y == 0 then 0 else 2 * And(x / 2, y / 2) + (if x % 2 == 1 && y % 2 == 1 then 1 else 0)
  }

  function Or(x: nat, y: nat): nat
    decreases x + y
  {
    if x == 0 then y
    else if y == 0 then x
    else 2 * Or(x / 2, y / 2) + (if x % 2 == 1 || y % 2 == 1 then 1 else 0)
  }

  function Xor(x: nat, y: nat): nat
    decreases x + y
  {
    if x == 0 then y
    else if y == 0 then x
    else 2 * Xor(x / 2, y / 2) + (if x % 2 != y % 2 then 1 else 0)
  }

  predicate Bit(x: nat, b: nat)
    decreases b
  {
    if b == 0 then x % 2 == 1 else Bit(x / 2, b - 1)
  }

  lemma {:induction false} ZeroBit(b: nat)
    ensures !Bit(0, b)
    decreases b
  {
    if b > 0 {
      ZeroBit(b - 1);
    }
  }

  lemma {:induction false} OrBit(x: nat, y: nat, b: nat)
    ensures Bit(Or(x, y), b) <==> Bit(x, b) || Bit(y, b)
    decreases b
  {
    if x == 0 || y == 0 {
      ZeroBit(b);
    } else if b > 0 {
      OrBit(x / 2, y / 2, b - 1);
    }
  }

  lemma {:induction false} XorBit(x: nat, y: nat, b: nat)
    ensures Bit(Xor(x, y), b) <==> Bit(x, b) != Bit(y, b)
    decreases b
  {
    if x == 0 || y == 0 {
      ZeroBit(b);
    } else if b > 0 {
      XorBit(x / 2, y / 2, b - 1);
    }
  }

  lemma {:induction false} BitHigh(x: nat, n: nat, b: nat)
    requires x < Pow2(n) && b >= n
    ensures !Bit(x, b)
    decreases n
  {
    if n == 0 {
      ZeroBit(b);
    } else {
      BitHigh(x / 2, n - 1, b - 1);
    }
  }

  lemma {:induction false} BitMod(x: nat, n: nat, b: nat)
    ensures Bit(x % Pow2(n), b) <==> b < n && Bit(x, b)
    decreases n
  {
    if n == 0 {
      ZeroBit(b);
    } else {
      var m := Pow2(n - 1);
      HalfRemainder(x, m);
      assert x % Pow2(n) / 2 == x / 2 % m && x % Pow2(n) % 2 == x % 2;
      if b > 0 {
        BitMod(x / 2, n - 1, b - 1);
      }
    }
  }

  lemma {:induction false} BitShift(x: nat, n: nat, b: nat)
    ensures Bit(Quotient(x, Pow2(n)), b) <==> Bit(x, b + n)
    decreases n
  {
    if n > 0 {
      HalfQuotient(x, Pow2(n - 1));
      BitShift(x / 2, n - 1, b);
    }
  }

  lemma {:induction false} HalfQuotient(x: nat, m: nat)
    requires m > 0
    ensures x / (2 * m) == x / 2 / m
  {
    var q, r := x / 2 / m, x / 2 % m;
    assert x / 2 == q * m + r && x == 2 * (x / 2) + x % 2;
    assert x == q * (2 * m) + (2 * r + x % 2);
    DivUnique(x, q, 2 * r + x % 2, 2 * m);
  }

  lemma {:induction false} BitDouble(x: nat, b: nat)
    ensures Bit(2 * x, b) <==> b > 0 && Bit(x, b - 1)
  {
    assert 2 * x / 2 == x && 2 * x % 2 == 0;
  }

  lemma {:induction false} BitTimes16(x: nat, b: nat)
    ensures Bit(x * 16, b) <==> b >= 4 && Bit(x, b - 4)
  {
    BitDouble(8 * x, b);
    if b > 0 {
      BitDouble(4 * x, b - 1);
    }
    if b > 1 {
      BitDouble(2 * x, b - 2);
    }
    if b > 2 {
      BitDouble(x, b - 3);
    }
  }

  lemma {:induction false} AndOdd(x: nat, y: nat)
    ensures And(x, 2 * y + 1) == 2 * And(x / 2, y) + x % 2
  {
    assert (2 * y + 1) / 2 == y && (2 * y + 1) % 2 == 1;
  }

  /** A mask of low bits takes the remainder. */
  lemma {:induction false} AndMask(x: nat, n: nat)
    ensures And(x, Pow2(n) - 1) == x % Pow2(n)
    decreases n
  {
    if n > 0 {
      var m := Pow2(n - 1);
      AndMask(x / 2, n - 1);
      AndOdd(x, m - 1);
      HalfRemainder(x, m);
    }
  }

  lemma {:induction false} HalfRemainder(x: nat, m: nat)
    requires m > 0
    ensures x % (2 * m) == 2 * (x / 2 % m) + x % 2
  {
    var q, r := x / 2 / m, x / 2 % m;
    assert x / 2 == q * m + r && x == 2 * (x / 2) + x % 2;
    assert x == q * (2 * m) + (2 * r + x % 2);
    DivUnique(x, q, 2 * r + x % 2, 2 * m);
  }

  /** Count of trailing zeros. */
  function Ctz(x: nat): nat
    requires x > 0
  {
    if x % 2 == 1 then 0 else 1 + Ctz(x / 2)
  }

  /** The positions of the set bits, lowest first, counted from `k`. */
  function LevelsFrom(x: nat, k: nat): (r: seq<nat>)
    ensures x == 0 <==> |r| == 0
    ensures x > 0 ==> r[0] == k + Ctz(x)
    decreases x
  {
    if x == 0 then []
    else if x % 2 == 1 then [k] + LevelsFrom(x / 2, k + 1)
    else LevelsFrom(x / 2, k + 1)
  }

  function Levels(x: nat): seq<nat> { LevelsFrom(x, 0) }

  lemma {:induction false} LevelsAscend(x: nat, k: nat)
    ensures forall i, j :: 0 <= i < j < |LevelsFrom(x, k)| ==> LevelsFrom(x, k)[i] < LevelsFrom(x, k)[j]
    ensures forall i :: 0 <= i < |LevelsFrom(x, k)| ==> k <= LevelsFrom(x, k)[i]
    decreases x
  {
    if x > 0 {
      LevelsAscend(x / 2, k + 1);
    }
  }

  lemma {:induction false} LevelsBelow(x: nat, n: nat, k: nat)
    requires x < Pow2(n)
    ensures forall i :: 0 <= i < |LevelsFrom(x, k)| ==> LevelsFrom(x, k)[i] < n + k
    decreases x
  {
    if x > 0 {
      LevelsBelow(x / 2, n - 1, k + 1);
    }
  }

  lemma {:induction false} AndSelf(x: nat)
    ensures And(x, x) == x
  {
    if x > 0 {
      AndSelf(x / 2);
    }
  }

  lemma {:induction false} DoubleLevels(y: nat, k: nat)
    ensures LevelsFrom(2 * y, k) == LevelsFrom(y, k + 1)
  {
    assert 2 * y / 2 == y && 2 * y % 2 == 0;
  }

  /** The value of `x & (x - 1)`, one halving at a time. */
  lemma {:induction false} AndPredecessor(x: nat)
    requires x > 0
    ensures x % 2 == 1 ==> And(x, x - 1) == 2 * (x / 2)
    ensures x % 2 == 0 ==> x / 2 > 0 && And(x, x - 1) == 2 * And(x / 2, x / 2 - 1)
  {
    if x % 2 == 1 {
      AndSelf(x / 2);
      assert (x - 1) / 2 == x / 2;
    } else {
      assert (x - 1) / 2 == x / 2 - 1;
    }
  }

  /** `x & (x - 1)` drops the lowest set bit and nothing else. */
  lemma {:induction false} ClearLowest(x: nat, k: nat)
    requires x > 0
    ensures LevelsFrom(And(x, x - 1), k) == LevelsFrom(x, k)[1..]
    decreases x
  {
    AndPredecessor(x);
    if x % 2 == 1 {
      DoubleLevels(x / 2, k);
    } else {
      DoubleLevels(And(x / 2, x / 2 - 1), k);
      ClearLowest(x / 2, k + 1);
    }
  }

  lemma {:induction false} OrPow2(x: nat, idx: nat)
    requires x % 2 == 0 && idx > 0
    ensures Or(x, Pow2(idx)) == 2 * Or(x / 2, Pow2(idx - 1))
  {
    assert Pow2(idx) == 2 * Pow2(idx - 1);
  }

  /** Setting a bit below all set bits puts it in front of the list. */
  lemma {:induction false} SetBelow(x: nat, idx: nat, k: nat)
    requires x > 0 ==> idx < Ctz(x)
    ensures LevelsFrom(Or(x, Pow2(idx)), k) == [k + idx] + LevelsFrom(x, k)
    decreases idx
  {
    if idx == 0 {
      assert x % 2 == 0;
      assert Or(x, 1) == x + 1;
      assert (x + 1) / 2 == x / 2 && (x + 1) % 2 == 1;
      DoubleLevels(x / 2, k);
    } else {
      OrPow2(x, idx);
      DoubleLevels(Or(x / 2, Pow2(idx - 1)), k);
      SetBelow(x / 2, idx - 1, k + 1);
      DoubleLevels(x / 2, k);
    }
  }

  /** Or does not leave the width of its operands. */
  lemma {:induction false} OrBelow(x: nat, y: nat, n: nat)
    requires x < Pow2(n) && y < Pow2(n)
    ensures Or(x, y) < Pow2(n)
    decreases x + y
  {
    if x != 0 && y != 0 {
      OrBelow(x / 2, y / 2, n - 1);
    }
  }

  lemma {:induction false} XorBelow(x: nat, y: nat, n: nat)
    requires x < Pow2(n) && y < Pow2(n)
    ensures Xor(x, y) < Pow2(n)
    decreases x + y
  {
    if x != 0 && y != 0 {
      XorBelow(x / 2, y / 2, n - 1);
    }
  }

  lemma {:induction false} Pow2Grows(m: nat, n: nat)
    requires m < n
    ensures Pow2(m) < Pow2(n)
  {
    if m < n - 1 {
      Pow2Grows(m, n - 1);
    }
  }
}
