/** Rust's `u8` and the `^` operator on it. */
module Bytes {

  type byte = x: int | 0 <= x < 256

  /** 2 to the power `n`. */
  function Pow2(n: nat): (p: nat)
    ensures p >= 1
  {
    if n == 0 then 1 else 2 * Pow2(n - 1)
  }

  /** Bitwise exclusive or of two naturals, one binary digit at a time from
      the least significant. */
  function XorBits(a: nat, b: nat): nat
    decreases a + b
  {
    if a == 0 && b == 0 then 0 else (a % 2 + b % 2) % 2 + 2 * XorBits(a / 2, b / 2)
  }

  /** Exclusive or keeps numbers of `n` bits within `n` bits. */
  lemma {:induction false} XorBitsBound(a: nat, b: nat, n: nat)
    requires a < Pow2(n) && b < Pow2(n)
    ensures XorBits(a, b) < Pow2(n)
    decreases n
  {
    if n > 0 && !(a == 0 && b == 0) {
      XorBitsBound(a / 2, b / 2, n - 1);
    }
  }

  /** Exclusive or with the same number twice gives the original back. */
  lemma {:induction false} XorBitsTwice(a: nat, b: nat)
    ensures XorBits(XorBits(a, b), b) == a
    decreases a + b
  {
    if !(a == 0 && b == 0) {
      var al, ah, bl, bh := a % 2, a / 2, b % 2, b / 2;
      Reassemble(a, al, ah);
      Reassemble(b, bl, bh);
      var bit, half := (al + bl) % 2, XorBits(ah, bh);
      XorBitsOf(a, b, al, ah, bl, bh);
      XorBitsOf(bit + 2 * half, b, bit, half, bl, bh);
      XorBitsTwice(ah, bh);
      BitTwice(al, bl);
    }
  }

  /** A natural number is its last binary digit plus twice the rest. */
  lemma Reassemble(a: nat, low: nat, high: nat)
    requires low == a % 2 && high == a / 2
    ensures low + 2 * high == a && low < 2
  {
  }

  /** `XorBits` of two numbers given by their last binary digits and the
      rest. */
  lemma XorBitsOf(a: nat, b: nat, al: nat, ah: nat, bl: nat, bh: nat)
    requires al < 2 && bl < 2 && a == al + 2 * ah && b == bl + 2 * bh
    ensures XorBits(a, b) == (al + bl) % 2 + 2 * XorBits(ah, bh)
  {
    LowBit(al, ah);
    LowBit(bl, bh);
  }

  /** Exclusive or of single binary digits, applied twice. */
  lemma BitTwice(x: nat, y: nat)
    requires x < 2 && y < 2
    ensures ((x + y) % 2 + y) % 2 == x
  {
  }

  /** The last binary digit and the rest of `bit + 2 * rest`. */
  lemma LowBit(bit: nat, rest: nat)
    requires bit < 2
    ensures (bit + 2 * rest) % 2 == bit && (bit + 2 * rest) / 2 == rest
  {
  }

  /** Bitwise exclusive or of two bytes. */
  function Xor(a: byte, b: byte): (x: byte)
    ensures x == XorBits(a, b)
  {
    assert Pow2(8) == 256;
    XorBitsBound(a, b, 8);
    XorBits(a, b)
  }

  /** XOR with the same byte twice gives the original byte back. */
  lemma XorTwice(a: byte, k: byte)
    ensures Xor(Xor(a, k), k) == a
  {
    XorBitsTwice(a, k);
  }
}
