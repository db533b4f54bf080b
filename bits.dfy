/**
 * Python's bitwise operators on non-negative integers of unbounded width:
 * `a << k`, `a | b` and `a ^ b`, defined bit by bit from the least significant end.
 */
module Bits {

  function Pow2(k: nat): (r: nat)
    ensures r >= 1
  {
    if k == 0 then 1 else 2 * Pow2(k - 1)
  }

  /** `a << k`. */
  function Shl(a: nat, k: nat): nat
  {
    a * Pow2(k)
  }

  /** `a ^ b`. */
  function Xor(a: nat, b: nat): nat
    decreases a + b
  {
    if a == 0 && b == 0 then 0
    else 2 * Xor(a / 2, b / 2) + (if a % 2 == b % 2 then 0 else 1)
  }

  /** `a | b`. */
  function Or(a: nat, b: nat): nat
    decreases a + b
  {
    if a == 0 && b == 0 then 0
    else 2 * Or(a / 2, b / 2) + (if a % 2 == 1 || b % 2 == 1 then 1 else 0)
  }

  /** `a ^ b == 0` exactly when `a == b`. */
  lemma {:induction false} XorZeroIff(a: nat, b: nat)
    ensures Xor(a, b) == 0 <==> a == b
    decreases a + b
  {
    if !(a == 0 && b == 0) {
      XorZeroIff(a / 2, b / 2);
    }
  }

  lemma {:induction false} XorComm(a: nat, b: nat)
    ensures Xor(a, b) == Xor(b, a)
    decreases a + b
  {
    if !(a == 0 && b == 0) {
      XorComm(a / 2, b / 2);
    }
  }

  /** `(a ^ b) ^ b == a`. */
  lemma {:induction false} XorCancel(a: nat, b: nat)
    ensures Xor(Xor(a, b), b) == a
    decreases a + b
  {
    if !(a == 0 && b == 0) {
      var x := Xor(a, b);
      XorCancel(a / 2, b / 2);
      assert x / 2 == Xor(a / 2, b / 2) && x % 2 == (if a % 2 == b % 2 then 0 else 1);
      XorZeroIff(a, b);
    }
  }

  lemma XorZeroRight(a: nat)
    ensures Xor(a, 0) == a
  {
    XorCancel(0, a);
    XorComm(0, a);
    XorZeroIff(0, 0);
  }

  /** `((c ^ n) ^ m) == 0` holds exactly for the one value `c == n ^ m`. */
  lemma XorMatch(c: nat, n: nat, m: nat)
    ensures Xor(Xor(c, n), m) == 0 <==> c == Xor(n, m)
  {
    XorZeroIff(Xor(c, n), m);
    if Xor(c, n) == m {
      XorCancel(c, n);
      XorComm(n, m);
    }
    if c == Xor(n, m) {
      XorComm(n, m);
      XorCancel(m, n);
    }
  }

  /** `a | b == 0` exactly when both are zero. */
  lemma {:induction false} OrZeroIff(a: nat, b: nat)
    ensures Or(a, b) == 0 <==> a == 0 && b == 0
    decreases a + b
  {
    if !(a == 0 && b == 0) {
      OrZeroIff(a / 2, b / 2);
    }
  }

  lemma {:induction false} OrZeroRight(a: nat)
    ensures Or(a, 0) == a
    decreases a
  {
    if a != 0 {
      OrZeroRight(a / 2);
    }
  }

  /** A value shifted left by `k` and a value below `2^k` share no bit, so `|` adds them. */
  lemma {:induction false} OrShiftedAdd(x: nat, k: nat, d: nat)
    requires d < Pow2(k)
    ensures Or(Shl(x, k), d) == Shl(x, k) + d
    decreases k
  {
    if k == 0 {
      OrZeroRight(x);
    } else {
      var hi := Shl(x, k);
      assert hi == 2 * Shl(x, k - 1);
      if !(hi == 0 && d == 0) {
        OrShiftedAdd(x, k - 1, d / 2);
        assert hi / 2 == Shl(x, k - 1) && hi % 2 == 0;
      }
    }
  }

  lemma {:induction false} ShlZeroIff(a: nat, k: nat)
    ensures Shl(a, k) == 0 <==> a == 0
  {
  }
}
