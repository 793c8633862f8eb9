/** Octets as integers below 256, with wrapping addition and bitwise XOR. */
module Octets {
  import opened PowersOfTwo

  type Octet = x: nat | x < 256

  /** `u8::wrapping_add`. */
  function WrapAdd(a: Octet, b: Octet): (r: Octet) {
    (a + b) % 256
  }

  /** Exclusive or of the low n bits. */
  function XorBits(a: nat, b: nat, n: nat): (r: nat)
    ensures r < Pow2(n)
  {
    if n == 0 then 0
    else 2 * XorBits(a / 2, b / 2, n - 1) + (if a % 2 == b % 2 then 0 else 1)
  }

  function Xor(a: Octet, b: Octet): (r: Octet) {
    assert Pow2(8) == 256;
    XorBits(a, b, 8)
  }

  lemma {:induction false} XorBitsTwice(a: nat, k: nat, n: nat)
    requires a < Pow2(n)
    ensures XorBits(XorBits(a, k, n), k, n) == a
    decreases n
  {
    if n > 0 {
      XorBitsTwice(a / 2, k / 2, n - 1);
      var x := XorBits(a, k, n);
      assert x / 2 == XorBits(a / 2, k / 2, n - 1);
    }
  }

  /** XOR with the same octet twice is the identity. */
  lemma {:induction false} XorTwice(a: Octet, k: Octet)
    ensures Xor(Xor(a, k), k) == a
  {
    assert Pow2(8) == 256;
    XorBitsTwice(a, k, 8);
  }
}
