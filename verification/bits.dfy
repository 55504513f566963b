/** Bitwise operations on unsigned numbers, bit by bit, and the powers of two that `hash.c` finds with them. */
module Bits {
  /** `x & y`, bit by bit. */
  function And(x: nat, y: nat): nat {
    if x == 0 || y == 0 then 0
    else 2 * And(x / 2, y / 2) + (if x % 2 == 1 && y % 2 == 1 then 1 else 0)
  }

  /** `turn_off_least_1bit`. */
  function TurnOffLeast1Bit(x: nat): nat {
    if x == 0 then 0 else And(x, x - 1)
  }

  /** `is_power_of_2`. */
  predicate IsPowerOf2(x: nat) {
    x != 0 && TurnOffLeast1Bit(x) == 0
  }

  function Pow2(k: nat): (p: nat)
    ensures p >= 1
  {
    if k == 0 then 1 else 2 * Pow2(k - 1)
  }

  /** The largest power of two that is not above `x`. */
  ghost function FloorPow2(x: nat): nat
    requires x > 0
  {
    if x == 1 then 1 else 2 * FloorPow2(x / 2)
  }

  lemma {:induction false} AndItself(x: nat)
    ensures And(x, x) == x
  {
    if x > 0 {
      AndItself(x / 2);
    }
  }

  /** Clearing the lowest bit of an even number clears it in the half of that number. */
  lemma TurnOffStep(x: nat)
    requires x > 0
    ensures TurnOffLeast1Bit(x) == if x % 2 == 1 then x - 1 else 2 * TurnOffLeast1Bit(x / 2)
  {
    if x % 2 == 1 {
      if x > 1 {
        assert (x - 1) / 2 == x / 2;
        AndItself(x / 2);
      }
    } else {
      assert (x - 1) / 2 == x / 2 - 1;
    }
  }

  lemma {:induction false} FloorPow2Spec(x: nat) returns (k: nat)
    requires x > 0
    ensures FloorPow2(x) == Pow2(k) && Pow2(k) <= x < 2 * Pow2(k)
  {
    if x == 1 {
      k := 0;
    } else {
      var j := FloorPow2Spec(x / 2);
      k := j + 1;
    }
  }

  lemma {:induction false} PowersAreFixed(k: nat)
    ensures FloorPow2(Pow2(k)) == Pow2(k)
  {
    if k > 0 {
      PowersAreFixed(k - 1);
    }
  }

  /** The bit test recognizes exactly the powers of two. */
  lemma {:induction false} IsPowerOf2Iff(x: nat)
    requires x > 0
    ensures IsPowerOf2(x) <==> FloorPow2(x) == x
  {
    TurnOffStep(x);
    if x > 1 {
      IsPowerOf2Iff(x / 2);
    }
  }

  /** Clearing a bit that is not the only one keeps the highest bit. */
  lemma {:induction false} TurnOffKeepsFloor(x: nat)
    requires x > 0 && !IsPowerOf2(x)
    ensures 0 < TurnOffLeast1Bit(x) < x
    ensures FloorPow2(TurnOffLeast1Bit(x)) == FloorPow2(x)
  {
    TurnOffStep(x);
    if x % 2 == 0 {
      TurnOffStep(x / 2);
      TurnOffKeepsFloor(x / 2);
    } else {
      assert (x - 1) / 2 == x / 2;
    }
  }

  /** Masking with a power of two less one takes the remainder of the division by that power. */
  lemma {:induction false} AndMask(h: nat, k: nat) returns (q: nat)
    ensures h == q * Pow2(k) + And(h, Pow2(k) - 1) && And(h, Pow2(k) - 1) < Pow2(k)
  {
    if h == 0 {
      q := 0;
    } else if k == 0 {
      q := h;
    } else {
      var p, m := Pow2(k - 1), Pow2(k) - 1;
      q := AndMask(h / 2, k - 1);
      assert m / 2 == p - 1 && m % 2 == 1;
      Doubled(q, p);
    }
  }

  lemma Doubled(q: nat, p: nat)
    ensures q * (2 * p) == 2 * (q * p)
  {
  }

  lemma {:induction false} Pow2Sum(j: nat, k: nat)
    ensures Pow2(j + k) == Pow2(j) * Pow2(k)
  {
    if k > 0 {
      Pow2Sum(j, k - 1);
      assert Pow2(j + k) == 2 * Pow2(j + (k - 1));
      assert Pow2(j) * (2 * Pow2(k - 1)) == 2 * (Pow2(j) * Pow2(k - 1));
    }
  }

  lemma SmallPowers()
    ensures Pow2(0) == 1 && Pow2(2) == 4
  {
  }

  lemma WordPowers()
    ensures Pow2(0) == 1 && Pow2(16) == 0x1_0000 && Pow2(32) == 0x1_0000_0000 && Pow2(64) == 0x1_0000_0000_0000_0000
  {
    hide Pow2;
    SmallPowers();
    Pow2Sum(2, 2);
    Pow2Sum(4, 4);
    Pow2Sum(8, 8);
    Pow2Sum(16, 16);
    Pow2Sum(32, 32);
  }

  // ---------- Exclusive or, and shifts ----------

  /** `a ^ b`. */
  function Xor(a: nat, b: nat): nat
    decreases a + b
  {
    if a + b == 0 then 0 else 2 * Xor(a / 2, b / 2) + (if a % 2 == b % 2 then 0 else 1)
  }

  /** `x >> k`. */
  function Shr(x: nat, k: nat): nat {
    if k == 0 then x else Shr(x / 2, k - 1)
  }

  lemma XorHalves(a: nat, b: nat)
    ensures Xor(a, b) / 2 == Xor(a / 2, b / 2)
    ensures Xor(a, b) % 2 == if a % 2 == b % 2 then 0 else 1
  {
  }

  lemma {:induction false} XorTwice(a: nat, b: nat)
    ensures Xor(a, Xor(a, b)) == b && Xor(Xor(b, a), a) == b
    decreases a + b
  {
    if a + b > 0 {
      XorTwice(a / 2, b / 2);
      hide Xor;
      XorHalves(a, b);
      XorHalves(b, a);
      XorHalves(a, Xor(a, b));
      XorHalves(Xor(b, a), a);
    }
  }

  lemma {:induction false} XorWithZero(b: nat)
    ensures Xor(0, b) == b
  {
    if b > 0 {
      XorWithZero(b / 2);
    }
  }

  lemma {:induction false} ShrOfXor(a: nat, b: nat, k: nat)
    ensures Shr(Xor(a, b), k) == Xor(Shr(a, k), Shr(b, k))
    decreases k
  {
    hide Xor;
    if k > 0 {
      XorHalves(a, b);
      ShrOfXor(a / 2, b / 2, k - 1);
    }
  }

  lemma {:induction false} XorBelow(a: nat, b: nat, k: nat)
    requires a < Pow2(k) && b < Pow2(k)
    ensures Xor(a, b) < Pow2(k)
    decreases k
  {
    if k > 0 {
      XorBelow(a / 2, b / 2, k - 1);
    }
  }

  lemma {:induction false} ShrParts(x: nat, k: nat) returns (r: nat)
    ensures x == Shr(x, k) * Pow2(k) + r && r < Pow2(k)
    decreases k
  {
    if k == 0 {
      r := 0;
    } else {
      var h := ShrParts(x / 2, k - 1);
      Doubled(Shr(x, k), Pow2(k - 1));
      r := 2 * h + x % 2;
    }
  }

  /** The quotient and the remainder of a division are unique. */
  lemma QuotientIs(x: nat, q: nat, n: nat, r: nat)
    requires x == q * n + r && r < n
    ensures x / n == q && x % n == r
  {
    var d := x / n;
    assert x == d * n + x % n;
    if d > q {
      SmallerProduct(q, d, n);
    } else if d < q {
      SmallerProduct(d, q, n);
    }
  }

  lemma {:induction false} SmallerProduct(a: nat, b: nat, n: nat)
    requires a < b
    ensures a * n + n <= b * n
    decreases b
  {
    assert b * n == (b - 1) * n + n;
    if a < b - 1 {
      SmallerProduct(a, b - 1, n);
    }
  }

  lemma {:induction false} ShrBelow(x: nat, k: nat, m: nat)
    requires x < Pow2(k + m)
    ensures Shr(x, k) < Pow2(m)
    decreases k
  {
    if k > 0 {
      ShrBelow(x / 2, k - 1, m);
    }
  }

  // ---------- Single bits ----------

  /** `a | b`. */
  function Or(a: nat, b: nat): nat
    decreases a + b
  {
    if a + b == 0 then 0 else 2 * Or(a / 2, b / 2) + (if a % 2 == 1 || b % 2 == 1 then 1 else 0)
  }

  /** Whether bit `k` of `x` is set. */
  predicate Bit(x: nat, k: nat) {
    if k == 0 then x % 2 == 1 else Bit(x / 2, k - 1)
  }

  /** `~x`, in `n` bits. */
  function Not(x: nat, n: nat): nat
    requires x < Pow2(n)
  {
    Pow2(n) - 1 - x
  }

  lemma {:induction false} BitOfZero(k: nat)
    ensures !Bit(0, k)
  {
    if k > 0 {
      BitOfZero(k - 1);
    }
  }

  lemma BitStep(x: nat, k: nat)
    ensures Bit(x, 0) == (x % 2 == 1)
    ensures k > 0 ==> Bit(x, k) == Bit(x / 2, k - 1)
  {
  }

  lemma OrHalves(a: nat, b: nat)
    ensures Or(a, b) / 2 == Or(a / 2, b / 2)
    ensures Or(a, b) % 2 == 1 <==> a % 2 == 1 || b % 2 == 1
  {
  }

  lemma {:induction false} BitOfOr(a: nat, b: nat, k: nat)
    ensures Bit(Or(a, b), k) == (Bit(a, k) || Bit(b, k))
    decreases k
  {
    hide Or, Bit;
    OrHalves(a, b);
    BitStep(a, k);
    BitStep(b, k);
    BitStep(Or(a, b), k);
    if k > 0 {
      BitOfOr(a / 2, b / 2, k - 1);
    }
  }

  lemma AndHalves(a: nat, b: nat)
    ensures And(a, b) / 2 == And(a / 2, b / 2)
    ensures And(a, b) % 2 == 1 <==> a % 2 == 1 && b % 2 == 1
  {
  }

  lemma {:induction false} BitOfAnd(a: nat, b: nat, k: nat)
    ensures Bit(And(a, b), k) == (Bit(a, k) && Bit(b, k))
    decreases k
  {
    hide And, Bit;
    AndHalves(a, b);
    BitStep(a, k);
    BitStep(b, k);
    BitStep(And(a, b), k);
    if k > 0 {
      BitOfAnd(a / 2, b / 2, k - 1);
    }
  }

  lemma {:induction false} BitOfXor(a: nat, b: nat, k: nat)
    ensures Bit(Xor(a, b), k) == (Bit(a, k) != Bit(b, k))
    decreases k
  {
    hide Xor, Bit;
    XorHalves(a, b);
    BitStep(a, k);
    BitStep(b, k);
    BitStep(Xor(a, b), k);
    if k > 0 {
      BitOfXor(a / 2, b / 2, k - 1);
    }
  }

  lemma {:induction false} BitOfPow2(j: nat, k: nat)
    ensures Bit(Pow2(j), k) == (j == k)
    decreases k
  {
    if j == 0 {
      if k > 0 {
        BitOfZero(k - 1);
      }
    } else if k > 0 {
      BitOfPow2(j - 1, k - 1);
    }
  }

  lemma {:induction false} BitOfNot(x: nat, n: nat, k: nat)
    requires x < Pow2(n) && k < n
    ensures Bit(Not(x, n), k) == !Bit(x, k)
    decreases n
  {
    if k > 0 {
      assert Not(x, n) / 2 == Not(x / 2, n - 1);
      BitOfNot(x / 2, n - 1, k - 1);
    }
  }

  lemma {:induction false} OrBelow(a: nat, b: nat, k: nat)
    requires a < Pow2(k) && b < Pow2(k)
    ensures Or(a, b) < Pow2(k)
    decreases k
  {
    if k > 0 {
      OrBelow(a / 2, b / 2, k - 1);
    }
  }

  lemma {:induction false} AndBelow(a: nat, b: nat)
    ensures And(a, b) <= a
  {
    if a > 0 && b > 0 {
      AndBelow(a / 2, b / 2);
    }
  }

  lemma {:induction false} Pow2Grows(j: nat, k: nat)
    requires j < k
    ensures Pow2(j) < Pow2(k)
  {
    if j + 1 < k {
      Pow2Grows(j, k - 1);
    }
  }

  /** Numbers below 2^n with the same `n` low bits are equal. */
  lemma {:induction false} BitsDetermine(a: nat, b: nat, n: nat)
    requires a < Pow2(n) && b < Pow2(n) && forall k :: 0 <= k < n ==> Bit(a, k) == Bit(b, k)
    ensures a == b
    decreases n
  {
    if n > 0 {
      assert Bit(a, 0) == Bit(b, 0);
      forall k | 0 <= k < n - 1
        ensures Bit(a / 2, k) == Bit(b / 2, k)
      {
        assert Bit(a, k + 1) == Bit(b, k + 1);
      }
      BitsDetermine(a / 2, b / 2, n - 1);
    }
  }

  /** The number with the `n` low bits of `low` and the other bits of `x`. */
  function Splice(x: nat, low: nat, n: nat): nat {
    if n == 0 then x else 2 * Splice(x / 2, low / 2, n - 1) + low % 2
  }

  lemma {:induction false} BitOfSplice(x: nat, low: nat, n: nat, k: nat)
    ensures Bit(Splice(x, low, n), k) == Bit(if k < n then low else x, k)
    decreases n
  {
    if n > 0 && k > 0 {
      assert Splice(x, low, n) / 2 == Splice(x / 2, low / 2, n - 1);
      BitOfSplice(x / 2, low / 2, n - 1, k - 1);
    }
  }

  lemma {:induction false} SpliceBelow(x: nat, low: nat, n: nat, k: nat)
    requires x < Pow2(k) && low < Pow2(k)
    ensures Splice(x, low, n) < Pow2(k)
    decreases n
  {
    if n > 0 && k > 0 {
      SpliceBelow(x / 2, low / 2, n - 1, k - 1);
    } else if n > 0 {
      SpliceBelow(0, 0, n - 1, 0);
    }
  }
}
