/** The bitwise operators on unsigned integers, and where they are arithmetic. */
module Bitwise {
  import opened Bytes

  /** `a & b`. */
  function And(a: nat, b: nat): nat {
    if a == 0 then 0 else 2 * And(a / 2, b / 2) + if a % 2 == 1 && b % 2 == 1 then 1 else 0
  }

  /** `a | b`. */
  function Or(a: nat, b: nat): nat {
    if a == 0 then b else 2 * Or(a / 2, b / 2) + if a % 2 == 1 || b % 2 == 1 then 1 else 0
  }

  /** `a << n`, where no bit is shifted out. */
  function Shl(a: nat, n: nat): nat {
    a * Pow2(n)
  }

  /** `a >> n`. */
  function Shr(a: nat, n: nat): nat {
    if n == 0 then a else Shr(a / 2, n - 1)
  }

  lemma {:induction false} AndStep(a: nat, b: nat)
    ensures And(a, b) == 2 * And(a / 2, b / 2) + if a % 2 == 1 && b % 2 == 1 then 1 else 0
  {
  }

  lemma {:induction false} OrStep(a: nat, b: nat)
    ensures Or(a, b) == 2 * Or(a / 2, b / 2) + if a % 2 == 1 || b % 2 == 1 then 1 else 0
  {
  }

  // ---------------------------------------------------------------- bit by bit

  lemma BitOfStep(high: nat, low: bool, i: nat)
    ensures Bit(2 * high + if low then 1 else 0, i) <==> if i == 0 then low else Bit(high, i - 1)
  {
    var n := 2 * high + if low then 1 else 0;
    assert n / 2 == high && n % 2 == if low then 1 else 0;
  }

  lemma {:induction false} AndAt(a: nat, b: nat, i: nat)
    ensures Bit(And(a, b), i) <==> Bit(a, i) && Bit(b, i)
    decreases i
  {
    AndStep(a, b);
    BitOfStep(And(a / 2, b / 2), a % 2 == 1 && b % 2 == 1, i);
    if i > 0 {
      AndAt(a / 2, b / 2, i - 1);
    }
  }

  lemma {:induction false} OrAt(a: nat, b: nat, i: nat)
    ensures Bit(Or(a, b), i) <==> Bit(a, i) || Bit(b, i)
    decreases i
  {
    OrStep(a, b);
    BitOfStep(Or(a / 2, b / 2), a % 2 == 1 || b % 2 == 1, i);
    if i > 0 {
      OrAt(a / 2, b / 2, i - 1);
    }
  }

  lemma {:induction false} ShrAt(a: nat, n: nat, i: nat)
    ensures Bit(Shr(a, n), i) <==> Bit(a, i + n)
    decreases n
  {
    if n > 0 {
      ShrAt(a / 2, n - 1, i);
    }
  }

  lemma {:induction false} ShlAt(a: nat, n: nat, i: nat)
    ensures Bit(Shl(a, n), i) <==> i >= n && Bit(a, i - n)
    decreases n
  {
    if n > 0 {
      DoubleShift(a, n);
      if i > 0 {
        ShlAt(a, n - 1, i - 1);
      }
    }
  }

  // ---------------------------------------------------------------- as arithmetic

  lemma {:induction false} Pow2Add(a: nat, b: nat)
    ensures Pow2(a + b) == Pow2(a) * Pow2(b)
    decreases a
  {
    if a > 0 {
      Pow2Add(a - 1, b);
    }
  }

  lemma MultipleIsLarge(d: nat, e: nat)
    requires d > 0 && e > 0
    ensures d * e >= d
  {
    assert d * (e - 1) >= 0;
  }

  lemma NegatedProduct(a: int, b: int)
    ensures a * -b == -(a * b)
  {
  }

  lemma MulAssociates(a: nat, b: nat, c: nat)
    ensures a * b * c == a * (b * c)
  {
  }

  /** Quotient and remainder are determined by their equation. */
  lemma DivisionIs(n: int, d: nat, q: int, r: nat)
    requires r < d && n == d * q + r
    ensures n / d == q && n % d == r
  {
    var e := n / d - q;
    assert d * e == r - n % d;
    if e > 0 {
      MultipleIsLarge(d, e);
    } else if e < 0 {
      MultipleIsLarge(d, -e);
      NegatedProduct(d, e);
    }
  }

  /** Halving first. */
  lemma HalfFirst(a: nat, p: nat)
    requires p > 0
    ensures a / (2 * p) == a / 2 / p && a % (2 * p) == 2 * (a / 2 % p) + a % 2
  {
    var q, r := a / 2 / p, a / 2 % p;
    MulAssociates(2, p, q);
    assert a == 2 * p * q + (2 * r + a % 2);
    DivisionIs(a, 2 * p, q, 2 * r + a % 2);
  }

  /** Masking with the low `n` bits is the remainder. */
  lemma {:induction false} AndLow(a: nat, n: nat)
    ensures And(a, Pow2(n) - 1) == a % Pow2(n)
    decreases n
  {
    if n == 0 {
      AndZero(a);
    } else {
      AndLow(a / 2, n - 1);
      AndOdd(a, Pow2(n - 1) - 1);
      HalfFirst(a, Pow2(n - 1));
    }
  }

  lemma {:induction false} AndOdd(a: nat, m: nat)
    ensures And(a, 2 * m + 1) == 2 * And(a / 2, m) + a % 2
  {
    var b := 2 * m + 1;
    assert b / 2 == m && b % 2 == 1;
    AndStep(a, b);
  }

  lemma {:induction false} AndZero(a: nat)
    ensures And(a, 0) == 0
  {
    if a > 0 {
      AndZero(a / 2);
    }
  }

  /** Masking with bits that lie `n` places higher. */
  lemma {:induction false} AndShifted(a: nat, mask: nat, n: nat)
    ensures And(a, Shl(mask, n)) == Shl(And(Shr(a, n), mask), n)
    decreases n
  {
    if n > 0 {
      var half, x := Shl(mask, n - 1), And(Shr(a, n), mask);
      calc {
        And(a, Shl(mask, n));
      == { DoubleShift(mask, n); }
        And(a, 2 * half);
      == { AndStep(a, 2 * half); }
        2 * And(a / 2, half);
      == { AndShifted(a / 2, mask, n - 1); }
        2 * Shl(x, n - 1);
      == { DoubleShift(x, n); }
        Shl(x, n);
      }
    }
  }

  lemma {:induction false} ShrIsDivision(a: nat, n: nat)
    ensures Shr(a, n) == a / Pow2(n)
    decreases n
  {
    if n > 0 {
      ShrIsDivision(a / 2, n - 1);
      HalfFirst(a, Pow2(n - 1));
    }
  }

  /** Numbers split at bit `n` are combined part by part. */
  lemma {:induction false} OrSplit(a: nat, x: nat, b: nat, y: nat, n: nat)
    requires a < Pow2(n) && b < Pow2(n)
    ensures Or(a + Shl(x, n), b + Shl(y, n)) == Or(a, b) + Shl(Or(x, y), n)
    decreases n
  {
    if n > 0 {
      var p := Pow2(n - 1);
      DoubleShift(x, n);
      DoubleShift(y, n);
      DoubleShift(Or(x, y), n);
      OrStep(a + Shl(x, n), b + Shl(y, n));
      OrStep(a, b);
      assert (a + Shl(x, n)) / 2 == a / 2 + Shl(x, n - 1) && (a + Shl(x, n)) % 2 == a % 2;
      assert (b + Shl(y, n)) / 2 == b / 2 + Shl(y, n - 1) && (b + Shl(y, n)) % 2 == b % 2;
      OrSplit(a / 2, x, b / 2, y, n - 1);
    }
  }

  lemma DoubleShift(x: nat, n: nat)
    requires n > 0
    ensures Shl(x, n) == 2 * Shl(x, n - 1)
  {
    assert x * (2 * Pow2(n - 1)) == 2 * (x * Pow2(n - 1));
  }

  lemma {:induction false} OrZero(a: nat)
    ensures Or(a, 0) == a && Or(0, a) == a
  {
    if a > 0 {
      OrZero(a / 2);
    }
  }

  /** Bits that do not overlap add up. */
  lemma {:induction false} OrDisjoint(a: nat, x: nat, n: nat)
    requires a < Pow2(n)
    ensures Or(a, Shl(x, n)) == a + Shl(x, n)
  {
    OrSplit(a, 0, 0, x, n);
    OrZero(a);
    OrZero(x);
    assert a + Shl(0, n) == a && 0 + Shl(x, n) == Shl(x, n);
  }

  /** Masking the low `m` bits that lie `n` places higher. */
  lemma {:induction false} AndField(a: nat, m: nat, n: nat)
    ensures And(a, Shl(Pow2(m) - 1, n)) == Shl(Shr(a, n) % Pow2(m), n)
  {
    AndShifted(a, Pow2(m) - 1, n);
    AndLow(Shr(a, n), m);
  }
}
