/**
 * The JavaScript bitwise operators the visualiser applies to byte values
 * (`^`, `&`, `>>`, `1 << k`), written on natural numbers bit by bit,
 * together with population count.  All operands in the source are small
 * non-negative integers, so JavaScript's 32-bit conversion never changes them.
 */
module BitArith {

  /** 2^k, i.e. `1 << k` for k < 31. */
  function Pow2(k: nat): (p: nat)
    ensures p >= 1
  {
    if k == 0 then 1 else 2 * Pow2(k - 1)
  }

  /** Bit i of x, i.e. `(x >> i) & 1`: shift right i times, keep the low bit. */
  function BitAt(x: nat, i: nat): (b: nat)
    ensures b <= 1
  {
    if i == 0 then x % 2 else BitAt(x / 2, i - 1)
  }

  /** x ^ y */
  function Xor(x: nat, y: nat): (r: nat)
    ensures r <= x + y
    ensures (r + x + y) % 2 == 0
    decreases x + y
  {
    if x == 0 && y == 0 then 0 else 2 * Xor(x / 2, y / 2) + (x % 2 + y % 2) % 2
  }

  /** x & y */
  function And(x: nat, y: nat): (r: nat)
    ensures r <= x && r <= y
    decreases x
  {
    if x == 0 || y == 0 then 0
    else 2 * And(x / 2, y / 2) + (if x % 2 == 1 && y % 2 == 1 then 1 else 0)
  }

  /** Number of 1 bits of x. */
  function Popcount(x: nat): (n: nat)
    ensures n <= x
    ensures x > 0 ==> n >= 1
  {
    if x == 0 then 0 else x % 2 + Popcount(x / 2)
  }

  lemma {:induction false} XorCommutes(x: nat, y: nat)
    ensures Xor(x, y) == Xor(y, x)
    decreases x + y
  {
    if x != 0 || y != 0 {
      XorCommutes(x / 2, y / 2);
    }
  }

  lemma {:induction false} XorZeroIff(x: nat, y: nat)
    ensures Xor(x, y) == 0 <==> x == y
    decreases x + y
  {
    if x != 0 || y != 0 {
      XorZeroIff(x / 2, y / 2);
    }
  }

  lemma {:induction false} XorBelowPow2(x: nat, y: nat, k: nat)
    requires x < Pow2(k) && y < Pow2(k)
    ensures Xor(x, y) < Pow2(k)
    decreases k
  {
    if k > 0 && (x != 0 || y != 0) {
      XorBelowPow2(x / 2, y / 2, k - 1);
    }
  }

  lemma {:induction false} XorWithZero(x: nat)
    ensures Xor(x, 0) == x
    decreases x
  {
    if x != 0 {
      XorWithZero(x / 2);
    }
  }

  /** Applying the same mask twice gives back the original value. */
  lemma {:induction false} XorCancels(x: nat, m: nat)
    ensures Xor(x, Xor(x, m)) == m
    decreases x + m
  {
    var t := Xor(x, m);
    if x == 0 {
      XorCommutes(0, m);
      XorWithZero(m);
      XorCommutes(0, t);
      XorWithZero(t);
    } else {
      assert x / 2 < x;
      XorCancels(x / 2, m / 2);
      XorHalves(x, m);
      XorHalves(x, t);
      assert Xor(x, t) / 2 == m / 2;
      ParityCancels(x % 2, m % 2);
      SameHalves(Xor(x, t), m);
    }
  }

  lemma ParityCancels(a: nat, b: nat)
    requires a < 2 && b < 2
    ensures (a + (a + b) % 2) % 2 == b
  {
  }

  /** Two naturals with the same low bit and the same remaining high bits are equal. */
  lemma SameHalves(a: nat, b: nat)
    requires a / 2 == b / 2 && a % 2 == b % 2
    ensures a == b
  {
  }

  /** Bit i of x ^ y is the exclusive or of bit i of x and bit i of y. */
  lemma {:induction false} XorBitAt(x: nat, y: nat, i: nat)
    ensures BitAt(Xor(x, y), i) == (BitAt(x, i) + BitAt(y, i)) % 2
    decreases i
  {
    if x == 0 && y == 0 {
      BitAtZero(i);
    } else {
      XorHalves(x, y);
      if i > 0 {
        XorBitAt(x / 2, y / 2, i - 1);
      }
    }
  }

  /** The low bit and the remaining high bits of x ^ y. */
  lemma {:induction false} XorHalves(x: nat, y: nat)
    ensures Xor(x, y) % 2 == (x % 2 + y % 2) % 2
    ensures Xor(x, y) / 2 == Xor(x / 2, y / 2)
  {
    if x == 0 && y == 0 {
      assert Xor(x / 2, y / 2) == 0;
    } else {
      var h := Xor(x / 2, y / 2);
      var b := (x % 2 + y % 2) % 2;
      assert Xor(x, y) == 2 * h + b;
      assert b == 0 || b == 1;
    }
  }

  lemma {:induction false} BitAtZero(i: nat)
    ensures BitAt(0, i) == 0
  {
    if i > 0 {
      BitAtZero(i - 1);
    }
  }

  lemma {:induction false} AndSelf(x: nat)
    ensures And(x, x) == x
    decreases x
  {
    if x != 0 {
      AndSelf(x / 2);
    }
  }

  /**
   * Kernighan's step `x &= x - 1` clears exactly one set bit, so the
   * `while (xor)` loop of countBitDiff runs Popcount(x) times.
   */
  lemma {:induction false} ClearLowestSetBit(x: nat)
    requires x > 0
    ensures And(x, x - 1) < x
    ensures Popcount(And(x, x - 1)) == Popcount(x) - 1
    decreases x
  {
    if x % 2 == 1 {
      AndSelf(x / 2);
      assert (x - 1) / 2 == x / 2;
      assert And(x, x - 1) == 2 * And(x / 2, x / 2);
      PopcountDouble(x / 2);
    } else {
      assert x / 2 > 0 && (x - 1) / 2 == x / 2 - 1;
      ClearLowestSetBit(x / 2);
      assert And(x, x - 1) == 2 * And(x / 2, x / 2 - 1);
      PopcountDouble(And(x / 2, x / 2 - 1));
    }
  }

  lemma PopcountDouble(x: nat)
    ensures Popcount(2 * x) == Popcount(x)
  {
  }

  lemma {:induction false} PopcountZeroIff(x: nat)
    ensures Popcount(x) == 0 <==> x == 0
  {
    if x != 0 && x % 2 == 0 {
      PopcountZeroIff(x / 2);
    }
  }

  lemma {:induction false} PopcountBelowPow2(x: nat, k: nat)
    requires x < Pow2(k)
    ensures Popcount(x) <= k
    decreases k
  {
    if x != 0 {
      PopcountBelowPow2(x / 2, k - 1);
    }
  }

  lemma {:induction false} PopcountPow2(k: nat)
    ensures Popcount(Pow2(k)) == 1
    decreases k
  {
    if k > 0 {
      PopcountPow2(k - 1);
      assert Pow2(k) / 2 == Pow2(k - 1);
    }
  }

  /** x ^ (1 << k) differs from x in bit k and nowhere else. */
  lemma XorPow2Changes(x: nat, k: nat, m: nat)
    ensures BitAt(Xor(x, Pow2(k)), m) != BitAt(x, m) <==> m == k
  {
    XorPow2BitAt(x, k, m);
  }

  lemma {:induction false} XorPow2BitAt(x: nat, k: nat, i: nat)
    ensures BitAt(Xor(x, Pow2(k)), i) == if i == k then 1 - BitAt(x, i) else BitAt(x, i)
  {
    XorBitAt(x, Pow2(k), i);
    Pow2BitAt(k, i);
  }

  lemma {:induction false} Pow2BitAt(k: nat, i: nat)
    ensures BitAt(Pow2(k), i) == if i == k then 1 else 0
    decreases i
  {
    if i == 0 {
      if k > 0 {
        assert Pow2(k) == 2 * Pow2(k - 1);
      }
    } else {
      if k == 0 {
        BitAtZero(i - 1);
      } else {
        assert Pow2(k) / 2 == Pow2(k - 1);
        Pow2BitAt(k - 1, i - 1);
      }
    }
  }

  lemma {:induction false} Pow2Monotone(j: nat, k: nat)
    requires j <= k
    ensures Pow2(j) <= Pow2(k)
    decreases k
  {
    if j < k {
      Pow2Monotone(j, k - 1);
    }
  }
}
