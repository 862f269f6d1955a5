/** The bit operations of unsigned 64-bit words, on numbers. */
module Bits {
  import opened Arith

  function Pow2(n: nat): (r: nat)
    ensures r >= 1
  {
    if n == 0 then 1 else 2 * Pow2(n - 1)
  }

  predicate Bit(x: nat, i: nat)
    decreases i
  {
    if i == 0 then x % 2 == 1 else Bit(x / 2, i - 1)
  }

  function Or(x: nat, y: nat): nat
    decreases x + y
  {
    if x == 0 && y == 0 then 0
    else (if x % 2 == 1 || y % 2 == 1 then 1 else 0) + 2 * Or(x / 2, y / 2)
  }

  function And(x: nat, y: nat): nat
    decreases x + y
  {
    if x == 0 && y == 0 then 0
    else (if x % 2 == 1 && y % 2 == 1 then 1 else 0) + 2 * And(x / 2, y / 2)
  }

  /** `x << k` in a 64-bit word: bits shifted past the top are lost. */
  function Shl(x: nat, k: nat): nat { (x * Pow2(k)) % Pow2(64) }

  function Shr(x: nat, k: nat): nat { Quotient(x, Pow2(k)) }

  function Quotient(x: nat, d: nat): nat
    requires d > 0
  {
    x / d
  }

  // ---- every operation, bit by bit ---------------------------------------------

  lemma {:induction false} BitOfZero(i: nat)
    ensures !Bit(0, i)
    decreases i
  {
    if i > 0 { BitOfZero(i - 1); }
  }

  lemma {:induction false} BitOr(x: nat, y: nat, i: nat)
    ensures Bit(Or(x, y), i) <==> Bit(x, i) || Bit(y, i)
    decreases i
  {
    if x == 0 && y == 0 {
      BitOfZero(i);
    } else {
      assert Or(x, y) / 2 == Or(x / 2, y / 2);
      if i > 0 { BitOr(x / 2, y / 2, i - 1); }
    }
  }

  lemma {:induction false} BitAnd(x: nat, y: nat, i: nat)
    ensures Bit(And(x, y), i) <==> Bit(x, i) && Bit(y, i)
    decreases i
  {
    if x == 0 && y == 0 {
      BitOfZero(i);
    } else {
      assert And(x, y) / 2 == And(x / 2, y / 2);
      if i > 0 { BitAnd(x / 2, y / 2, i - 1); }
    }
  }

  lemma {:induction false} BitMul(x: nat, k: nat, i: nat)
    ensures Bit(x * Pow2(k), i) <==> i >= k && Bit(x, i - k)
    decreases k
  {
    if k > 0 {
      var y := x * Pow2(k - 1);
      assert x * Pow2(k) == 2 * y;
      if i > 0 {
        BitMul(x, k - 1, i - 1);
        assert (2 * y) / 2 == y;
      }
    } else {
      assert x * Pow2(0) == x;
    }
  }

  lemma DivTwice(x: nat, m: nat)
    requires m > 0
    ensures (x / 2) / m == x / (2 * m)
  {
    var q, r := (x / 2) / m, (x / 2) % m;
    assert x == 2 * (x / 2) + x % 2;
    assert x / 2 == q * m + r;
    assert x == q * (2 * m) + (2 * r + x % 2);
    DivModUnique(x, 2 * m, q, 2 * r + x % 2);
  }

  lemma {:induction false} BitShr(x: nat, k: nat, i: nat)
    ensures Bit(Shr(x, k), i) <==> Bit(x, i + k)
    decreases k
  {
    if k > 0 {
      BitShr(x / 2, k - 1, i);
      DivTwice(x, Pow2(k - 1));
    }
  }

  lemma ModTwice(x: nat, m: nat)
    requires m > 0
    ensures x % (2 * m) == 2 * ((x / 2) % m) + x % 2
  {
    var q, r := (x / 2) / m, (x / 2) % m;
    assert x == 2 * (x / 2) + x % 2;
    assert x / 2 == q * m + r;
    assert x == q * (2 * m) + (2 * r + x % 2);
    DivModUnique(x, 2 * m, q, 2 * r + x % 2);
  }

  lemma {:induction false} BitMod(x: nat, n: nat, i: nat)
    ensures Bit(x % Pow2(n), i) <==> i < n && Bit(x, i)
    decreases n
  {
    if n == 0 {
      BitOfZero(i);
    } else {
      var y := (x / 2) % Pow2(n - 1);
      ModTwice(x, Pow2(n - 1));
      assert x % Pow2(n) == 2 * y + x % 2;
      assert (2 * y + x % 2) / 2 == y;
      if i > 0 { BitMod(x / 2, n - 1, i - 1); }
    }
  }

  lemma BitShl(x: nat, k: nat, i: nat)
    ensures Bit(Shl(x, k), i) <==> k <= i < 64 && Bit(x, i - k)
  {
    BitMod(x * Pow2(k), 64, i);
    BitMul(x, k, i);
  }

  lemma {:induction false} BitOnes(w: nat, i: nat)
    ensures Bit(Pow2(w) - 1, i) <==> i < w
    decreases w
  {
    if w == 0 {
      BitOfZero(i);
    } else {
      assert (Pow2(w) - 1) / 2 == Pow2(w - 1) - 1;
      if i > 0 { BitOnes(w - 1, i - 1); }
    }
  }

  lemma {:induction false} HighBitsZero(x: nat, w: nat, i: nat)
    requires x < Pow2(w) && i >= w
    ensures !Bit(x, i)
    decreases w
  {
    if w == 0 {
      BitOfZero(i);
    } else {
      HighBitsZero(x / 2, w - 1, i - 1);
    }
  }

  /** Words with the same bits are equal. */
  lemma {:induction false} SameBits(x: nat, y: nat)
    requires forall i: nat :: Bit(x, i) <==> Bit(y, i)
    ensures x == y
    decreases x + y
  {
    if x > 0 || y > 0 {
      assert Bit(x, 0) <==> Bit(y, 0);
      forall i: nat ensures Bit(x / 2, i) <==> Bit(y / 2, i) {
        assert Bit(x, i + 1) <==> Bit(y, i + 1);
      }
      SameBits(x / 2, y / 2);
    }
  }

  /** Bits that do not overlap can be added. */
  lemma {:induction false} OrIsSum(x: nat, y: nat)
    requires forall i: nat :: !(Bit(x, i) && Bit(y, i))
    ensures Or(x, y) == x + y
    decreases x + y
  {
    if x > 0 || y > 0 {
      assert !(Bit(x, 0) && Bit(y, 0));
      forall i: nat ensures !(Bit(x / 2, i) && Bit(y / 2, i)) {
        assert !(Bit(x, i + 1) && Bit(y, i + 1));
      }
      OrIsSum(x / 2, y / 2);
    }
  }

  /** Shifting left and back is the identity exactly when no bit is lost. */
  lemma ShiftBackIff(d: nat, k: nat)
    requires k <= 64 && d < Pow2(64)
    ensures Shr(Shl(d, k), k) == d <==> d < Pow2(64 - k)
  {
    hide Pow2;
    PowSum(64 - k, k);
    if d < Pow2(64 - k) {
      MulBelow(d, Pow2(64 - k), Pow2(k));
      DivModUnique(d * Pow2(k), Pow2(64), 0, d * Pow2(k));
      DivModUnique(d * Pow2(k), Pow2(k), d, 0);
    } else {
      var low := Shl(d, k);
      assert low < Pow2(64);
      DivBelowPow(low, 64 - k, k);
    }
  }

  lemma {:induction false} PowSum(a: nat, b: nat)
    ensures Pow2(a + b) == Pow2(a) * Pow2(b)
    decreases a
  {
    if a > 0 { PowSum(a - 1, b); }
  }

  lemma MulBelow(x: nat, a: nat, b: nat)
    requires x < a && b > 0
    ensures x * b < a * b
  {
    assert (a - x) * b >= b by { assert a - x >= 1; }
    assert (a - x) * b == a * b - x * b;
  }

  lemma DivBelowPow(x: nat, a: nat, b: nat)
    requires x < Pow2(a + b)
    ensures x / Pow2(b) < Pow2(a)
  {
    PowSum(a, b);
    DivBelow(x, Pow2(a), Pow2(b));
  }
}
