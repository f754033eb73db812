/**
  Python's bit operations on non-negative integers, as the leakage models use them:
  `1 << n` (Pow2), `x >> n` (Shr), `&` (And), `|` (Or), `^` (Xor) and `int.bit_length`
  (BitLength). Shifts and the bitwise operators are defined by halving; each bitwise
  operator carries a lemma stating it bit by bit against BitAt, and Shr is proved to be
  floor division by a power of two.
 */
module Bits {

  /** `1 << n`. */
  function Pow2(n: nat): (r: nat)
    ensures r >= 1
  {
    if n == 0 then 1 else 2 * Pow2(n - 1)
  }

  lemma {:induction false} Pow2Monotone(m: nat, n: nat)
    requires m <= n
    ensures Pow2(m) <= Pow2(n)
    ensures m < n ==> 2 * Pow2(m) <= Pow2(n)
  {
    if m < n {
      Pow2Monotone(m, n - 1);
    }
  }

  lemma {:induction false} Pow2Add(m: nat, n: nat)
    ensures Pow2(m + n) == Pow2(m) * Pow2(n)
  {
    if n > 0 {
      Pow2Add(m, n - 1);
      MulTwice(Pow2(m), Pow2(n - 1));
    }
  }

  lemma MulSign(k: int, d: int)
    requires d > 0
    ensures k >= 1 ==> k * d >= d
    ensures k <= -1 ==> k * d <= -d
  {
  }

  lemma MulTwice(y: int, p: int)
    ensures y * (2 * p) == 2 * (y * p)
  {
  }

  /** Quotient and remainder are determined by x == q * d + r with 0 <= r < d. */
  lemma DivModUnique(x: int, d: int, q: int, r: int)
    requires d > 0 && x == q * d + r && 0 <= r < d
    ensures x / d == q && x % d == r
  {
    var q0, r0 := x / d, x % d;
    assert x == q0 * d + r0;
    assert (q - q0) * d == r0 - r;
    MulSign(q - q0, d);
  }

  /** Dividing by 2^(n+1) is halving and then dividing by 2^n; the same for the remainder. */
  lemma DivModPow2Succ(x: nat, n: nat)
    ensures x / Pow2(n + 1) == (x / 2) / Pow2(n)
    ensures x % Pow2(n + 1) == 2 * ((x / 2) % Pow2(n)) + x % 2
  {
    var p := Pow2(n);
    var q, s := (x / 2) / p, (x / 2) % p;
    assert x / 2 == q * p + s;
    assert x == q * (2 * p) + (2 * s + x % 2);
    DivModUnique(x, 2 * p, q, 2 * s + x % 2);
  }

  /** `x >> n`: n halvings. Shifting right never increases a value. */
  function Shr(x: nat, n: nat): (r: nat)
    ensures r <= x
  {
    if n == 0 then x else Shr(x / 2, n - 1)
  }

  /** Shifting right by n is floor division by 2^n. */
  lemma {:induction false} ShrIsDiv(x: nat, n: nat)
    ensures Shr(x, n) == x / Pow2(n)
  {
    if n > 0 {
      ShrIsDiv(x / 2, n - 1);
      DivModPow2Succ(x, n - 1);
    }
  }

  /** A value below 2^n shifted right by n or more bits is 0. */
  lemma {:induction false} ShrBelow(x: nat, n: nat, w: nat)
    requires x < Pow2(n) && n <= w
    ensures Shr(x, w) == 0
  {
    if w > 0 {
      ShrBelow(x / 2, if n == 0 then 0 else n - 1, w - 1);
    }
  }

  /** Shifting a left-shifted value back right recovers it. */
  lemma {:induction false} ShrShl(y: nat, b: nat)
    ensures Shr(y * Pow2(b), b) == y
  {
    if b > 0 {
      MulTwice(y, Pow2(b - 1));
      ShrShl(y, b - 1);
    }
  }

  /** Bit i of x: `(x >> i) & 1`. */
  function BitAt(x: nat, i: nat): nat
  {
    Shr(x, i) % 2
  }

  /** `a & b`, which is at most either operand. */
  function And(a: nat, b: nat): (r: nat)
    ensures r <= a && r <= b
    decreases a + b
  {
    if a == 0 && b == 0 then 0
    else 2 * And(a / 2, b / 2) + (if a % 2 == 1 && b % 2 == 1 then 1 else 0)
  }

  /** `a | b`, which is at least either operand and at most their sum. */
  function Or(a: nat, b: nat): (r: nat)
    ensures a <= r && b <= r && r <= a + b
    decreases a + b
  {
    if a == 0 && b == 0 then 0
    else 2 * Or(a / 2, b / 2) + (if a % 2 == 1 || b % 2 == 1 then 1 else 0)
  }

  /** `a ^ b`, which is at most the sum of the operands and has its parity. */
  function Xor(a: nat, b: nat): (r: nat)
    ensures r <= a + b
    ensures r % 2 == (a + b) % 2
    decreases a + b
  {
    if a == 0 && b == 0 then 0
    else 2 * Xor(a / 2, b / 2) + (if a % 2 != b % 2 then 1 else 0)
  }

  // The defining step of each operator also holds when both operands are 0.

  lemma AndStep(a: nat, b: nat)
    ensures And(a, b) == 2 * And(a / 2, b / 2) + (if a % 2 == 1 && b % 2 == 1 then 1 else 0)
  {
  }

  lemma OrStep(a: nat, b: nat)
    ensures Or(a, b) == 2 * Or(a / 2, b / 2) + (if a % 2 == 1 || b % 2 == 1 then 1 else 0)
  {
  }

  lemma XorStep(a: nat, b: nat)
    ensures Xor(a, b) == 2 * Xor(a / 2, b / 2) + (if a % 2 != b % 2 then 1 else 0)
  {
  }

  /** Bit i of `a & b` is set exactly when bit i is set in both operands. */
  lemma {:induction false} AndBit(a: nat, b: nat, i: nat)
    ensures BitAt(And(a, b), i) == if BitAt(a, i) == 1 && BitAt(b, i) == 1 then 1 else 0
  {
    AndStep(a, b);
    if i > 0 {
      AndBit(a / 2, b / 2, i - 1);
    }
  }

  /** Bit i of `a | b` is set exactly when bit i is set in either operand. */
  lemma {:induction false} OrBit(a: nat, b: nat, i: nat)
    ensures BitAt(Or(a, b), i) == if BitAt(a, i) == 1 || BitAt(b, i) == 1 then 1 else 0
  {
    var bit := if a % 2 == 1 || b % 2 == 1 then 1 else 0;
    assert Or(a, b) / 2 == Or(a / 2, b / 2) && Or(a, b) % 2 == bit by {
      OrStep(a, b);
    }
    if i > 0 {
      OrBit(a / 2, b / 2, i - 1);
    }
  }

  /** Bit i of `a ^ b` is set exactly when bit i of the operands differs. */
  lemma {:induction false} XorBit(a: nat, b: nat, i: nat)
    ensures BitAt(Xor(a, b), i) == if BitAt(a, i) != BitAt(b, i) then 1 else 0
  {
    XorStep(a, b);
    if i > 0 {
      XorBit(a / 2, b / 2, i - 1);
    }
  }

  /** Setting bit n of a value below 2^n adds 2^n. */
  lemma {:induction false} OrHighBit(a: nat, n: nat)
    requires a < Pow2(n)
    ensures Or(a, Pow2(n)) == a + Pow2(n)
  {
    OrStep(a, Pow2(n));
    if n > 0 {
      OrHighBit(a / 2, n - 1);
    }
  }

  lemma {:induction false} AndZero(x: nat)
    ensures And(x, 0) == 0
  {
    if x > 0 {
      AndZero(x / 2);
    }
  }

  /** Masking with `2^n - 1` keeps the low n bits. */
  lemma {:induction false} AndLowMask(x: nat, n: nat)
    ensures And(x, Pow2(n) - 1) == x % Pow2(n)
  {
    if n == 0 {
      AndZero(x);
    } else {
      var low := Pow2(n - 1) - 1;
      assert And(x, Pow2(n) - 1) == 2 * And(x / 2, low) + x % 2 by {
        AndStep(x, Pow2(n) - 1);
      }
      assert And(x / 2, low) == (x / 2) % Pow2(n - 1) by {
        AndLowMask(x / 2, n - 1);
      }
      DivModPow2Succ(x, n - 1);
    }
  }

  /** Masking with a mask shifted left by b is shifting x right, masking, and shifting back. */
  lemma {:induction false} AndShifted(x: nat, m: nat, b: nat)
    ensures And(x, m * Pow2(b)) == And(Shr(x, b), m) * Pow2(b)
  {
    if b > 0 {
      var p := Pow2(b - 1);
      var k := m * p;
      var y := And(Shr(x, b), m);
      assert And(x, m * Pow2(b)) == 2 * And(x / 2, k) by {
        MulTwice(m, p);
        AndStep(x, 2 * k);
      }
      assert And(x / 2, k) == y * p by {
        AndShifted(x / 2, m, b - 1);
      }
      MulTwice(y, p);
    }
  }

  /** Bit i of m shifted left by b is bit i - b of m, and 0 below b. */
  lemma {:induction false} BitAtShifted(m: nat, b: nat, i: nat)
    ensures BitAt(m * Pow2(b), i) == if i < b then 0 else BitAt(m, i - b)
  {
    if b > 0 {
      MulTwice(m, Pow2(b - 1));
      if i > 0 {
        BitAtShifted(m, b - 1, i - 1);
      }
    }
  }

  /** `2^n - 1` has exactly the bits 0 .. n-1 set. */
  lemma {:induction false} BitAtLowMask(n: nat, i: nat)
    ensures BitAt(Pow2(n) - 1, i) == if i < n then 1 else 0
  {
    if n == 0 {
      ShrBelow(0, 0, i);
    } else if i > 0 {
      BitAtLowMask(n - 1, i - 1);
    }
  }

  lemma {:induction false} XorComm(a: nat, b: nat)
    ensures Xor(a, b) == Xor(b, a)
    decreases a + b
  {
    if a != 0 || b != 0 {
      XorComm(a / 2, b / 2);
    }
  }

  /** `a ^ b == 0` exactly when the operands are equal. */
  lemma {:induction false} XorZeroIff(a: nat, b: nat)
    ensures Xor(a, b) == 0 <==> a == b
    decreases a + b
  {
    if a != 0 || b != 0 {
      XorZeroIff(a / 2, b / 2);
    }
  }

  /** `x ^ 0 == x` */
  lemma {:induction false} XorZeroRight(x: nat)
    ensures Xor(x, 0) == x
  {
    if x > 0 {
      XorZeroRight(x / 2);
    }
  }

  /** Two values below 2^n have their XOR below 2^n. */
  lemma {:induction false} XorBelow(a: nat, b: nat, n: nat)
    requires a < Pow2(n) && b < Pow2(n)
    ensures Xor(a, b) < Pow2(n)
  {
    XorStep(a, b);
    if n > 0 {
      XorBelow(a / 2, b / 2, n - 1);
    }
  }

  /** `x.bit_length()`: 0 for 0, otherwise the L with 2^(L-1) <= x < 2^L. */
  function BitLength(x: nat): (n: nat)
    ensures x < Pow2(n)
    ensures x > 0 ==> n >= 1 && Pow2(n - 1) <= x
  {
    if x == 0 then 0 else 1 + BitLength(x / 2)
  }

  /** Powers of two are strictly increasing, so a smaller power has a smaller exponent. */
  lemma Pow2Below(m: nat, n: nat)
    ensures Pow2(m) < Pow2(n) ==> m < n
  {
    if n <= m {
      Pow2Monotone(n, m);
    }
  }

  /** The bounds of BitLength's contract determine it. */
  lemma BitLengthUnique(x: nat, n: nat)
    requires (x == 0 && n == 0) || (n >= 1 && Pow2(n - 1) <= x < Pow2(n))
    ensures BitLength(x) == n
  {
    var l := BitLength(x);
    if x > 0 {
      Pow2Below(l - 1, n);
      Pow2Below(n - 1, l);
    }
  }

  /** A value below 2^n needs at most n bits. */
  lemma BitLengthBelow(x: nat, n: nat)
    requires x < Pow2(n)
    ensures BitLength(x) <= n
  {
    if x > 0 {
      Pow2Below(BitLength(x) - 1, n);
    }
  }
}
