/** Bytes, and exclusive or on them. */
module Bytes {
  import opened Modular

  type byte = x: int | 0 <= x < 256
  type uint16 = x: int | 0 <= x < 0x10000

  /** Exclusive or of the lowest `bits` bits of `a` and `b`. */
  function XorBits(a: nat, b: nat, bits: nat): nat {
    if bits == 0 then 0 else (if a % 2 == b % 2 then 0 else 1) + 2 * XorBits(a / 2, b / 2, bits - 1)
  }

  function Xor(a: byte, b: byte): byte {
    XorBound(a, b, 8);
    XorBits(a, b, 8)
  }

  lemma {:induction false} XorBound(a: nat, b: nat, bits: nat)
    ensures XorBits(a, b, bits) < Pow2(bits)
    ensures Pow2(8) == 256
  {
    assert Pow2(4) == 16;
    if bits > 0 { XorBound(a / 2, b / 2, bits - 1); }
  }

  lemma {:induction false} XorBitsUndo(a: nat, b: nat, bits: nat)
    requires a < Pow2(bits)
    ensures XorBits(XorBits(a, b, bits), b, bits) == a
  {
    if bits > 0 {
      var d, rest := if a % 2 == b % 2 then 0 else 1, XorBits(a / 2, b / 2, bits - 1);
      assert XorBits(a, b, bits) == d + 2 * rest;
      assert (d + 2 * rest) / 2 == rest && (d + 2 * rest) % 2 == d;
      XorBitsUndo(a / 2, b / 2, bits - 1);
    }
  }

  /** Applying the same byte twice gives the original back. */
  lemma XorUndo(a: byte, b: byte)
    ensures Xor(Xor(a, b), b) == a
  {
    XorBound(a, b, 8);
    XorBitsUndo(a, b, 8);
  }

  /** Bit `i` of a number. */
  function Bit(a: nat, i: nat): (b: nat)
    ensures b < 2
  {
    if i == 0 then a % 2 else Bit(a / 2, i - 1)
  }

  lemma {:induction false} XorBitsAt(a: nat, b: nat, bits: nat, i: nat)
    ensures Bit(XorBits(a, b, bits), i) == if i < bits && Bit(a, i) != Bit(b, i) then 1 else 0
    decreases bits + i
  {
    if bits > 0 {
      var d, rest := if a % 2 == b % 2 then 0 else 1, XorBits(a / 2, b / 2, bits - 1);
      assert XorBits(a, b, bits) == d + 2 * rest;
      assert (d + 2 * rest) / 2 == rest && (d + 2 * rest) % 2 == d;
      if i > 0 { XorBitsAt(a / 2, b / 2, bits - 1, i - 1); }
    } else if i > 0 {
      XorBitsAt(0, 0, 0, i - 1);
    }
  }

  /** A bit of the result is set exactly when the two bits differ. */
  lemma XorBit(a: byte, b: byte, i: nat)
    requires i < 8
    ensures Bit(Xor(a, b), i) == 1 <==> Bit(a, i) != Bit(b, i)
  {
    XorBitsAt(a, b, 8, i);
  }

  lemma {:induction false} XorBitsZero(b: nat, bits: nat)
    requires b < Pow2(bits)
    ensures XorBits(0, b, bits) == b
  {
    if bits > 0 { XorBitsZero(b / 2, bits - 1); }
  }

  lemma XorZero(b: byte)
    ensures Xor(0, b) == b
  {
    XorBound(0, b, 8);
    XorBitsZero(b, 8);
  }
}
