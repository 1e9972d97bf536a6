/** Bytes and bitwise exclusive or. */
module Bytes {

  type byte = n: int | 0 <= n < 256

  function Pow2(n: nat): (p: nat)
    ensures p > 0
  {
    if n == 0 then 1 else 2 * Pow2(n - 1)
  }

  /** Exclusive or of the low `width` bits of two naturals. */
  function XorBits(a: nat, b: nat, width: nat): (x: nat)
    ensures x < Pow2(width)
  {
    if width == 0 then 0 else (a + b) % 2 + 2 * XorBits(a / 2, b / 2, width - 1)
  }

  /** `a ^ b` on bytes. */
  function Xor(a: byte, b: byte): (x: byte) {
    assert Pow2(8) == 256 by {
      assert Pow2(4) == 16;
    }
    XorBits(a, b, 8)
  }

  /** Bit `i` of a number, counted from the lowest. */
  predicate Bit(n: nat, i: nat) {
    if i == 0 then n % 2 == 1 else Bit(n / 2, i - 1)
  }

  lemma {:induction false} XorBitsAt(a: nat, b: nat, width: nat, i: nat)
    requires i < width
    ensures Bit(XorBits(a, b, width), i) <==> Bit(a, i) != Bit(b, i)
    decreases width
  {
    var tail := XorBits(a / 2, b / 2, width - 1);
    XorStep(a, b, tail);
    if i > 0 {
      XorBitsAt(a / 2, b / 2, width - 1, i - 1);
    }
  }

  lemma XorStep(a: nat, b: nat, tail: nat)
    ensures var x := (a + b) % 2 + 2 * tail; x / 2 == tail && (x % 2 == 1 <==> (a % 2 == 1) != (b % 2 == 1))
  {
    LowBit(a, b, tail);
  }

  /** Bit by bit. */
  lemma {:induction false} XorAt(a: byte, b: byte, i: nat)
    requires i < 8
    ensures Bit(Xor(a, b), i) <==> Bit(a, i) != Bit(b, i)
  {
    XorBitsAt(a, b, 8, i);
  }

  lemma LowBit(a: nat, b: nat, tail: nat)
    ensures var x := (a + b) % 2 + 2 * tail; x / 2 == tail && (x + b) % 2 == a % 2
  {
    if a % 2 == 0 {
      assert (a + b) % 2 == b % 2;
    } else {
      assert (a + b) % 2 == 1 - b % 2;
    }
  }

  lemma {:induction false} XorBitsInvolutive(a: nat, b: nat, width: nat)
    requires a < Pow2(width)
    ensures XorBits(XorBits(a, b, width), b, width) == a
  {
    if width > 0 {
      XorBitsInvolutive(a / 2, b / 2, width - 1);
      LowBit(a, b, XorBits(a / 2, b / 2, width - 1));
    }
  }

  /** Applying the same key byte twice gives the byte back. */
  lemma XorInvolutive(a: byte, key: byte)
    ensures Xor(Xor(a, key), key) == a
  {
    assert Pow2(8) == 256 by {
      assert Pow2(4) == 16;
    }
    XorBitsInvolutive(a, key, 8);
  }
}
