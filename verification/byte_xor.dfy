/**
 * Bitwise exclusive or of bytes (Rust's `^` on `u8`), written over natural
 * numbers one bit at a time, with the group laws the checksum proofs use.
 */
module ByteXor {
  import opened StdParse

  /** The bitwise exclusive or of two naturals, lowest bit first. */
  function BitXor(a: nat, b: nat): nat
    decreases a + b
  {
    if a == 0 && b == 0 then 0
    else 2 * BitXor(a / 2, b / 2) + (if a % 2 == b % 2 then 0 else 1)
  }

  function Pow2(n: nat): (p: nat)
    ensures p >= 1
  {
    if n == 0 then 1 else 2 * Pow2(n - 1)
  }

  lemma {:induction false} BitXorBelow(a: nat, b: nat, n: nat)
    requires a < Pow2(n) && b < Pow2(n)
    ensures BitXor(a, b) < Pow2(n)
    decreases n
  {
    if n > 0 && (a != 0 || b != 0) {
      BitXorBelow(a / 2, b / 2, n - 1);
    }
  }

  /** `a ^ b` on `u8` */
  function Xor8(a: u8, b: u8): (r: u8)
  {
    assert Pow2(8) == 256;
    BitXorBelow(a, b, 8);
    BitXor(a, b)
  }

  lemma {:induction false} XorComm(a: nat, b: nat)
    ensures BitXor(a, b) == BitXor(b, a)
    decreases a + b
  {
    if a != 0 || b != 0 {
      XorComm(a / 2, b / 2);
    }
  }

  lemma XorHalves(a: nat, b: nat)
    ensures BitXor(a, b) / 2 == BitXor(a / 2, b / 2)
    ensures BitXor(a, b) % 2 == (if a % 2 == b % 2 then 0 else 1)
  {
  }

  lemma {:induction false} XorAssoc(a: nat, b: nat, c: nat)
    ensures BitXor(BitXor(a, b), c) == BitXor(a, BitXor(b, c))
    decreases a + b + c
  {
    if a != 0 || b != 0 || c != 0 {
      XorHalves(a, b);
      XorHalves(b, c);
      XorAssoc(a / 2, b / 2, c / 2);
    }
  }

  lemma {:induction false} XorSelf(a: nat)
    ensures BitXor(a, a) == 0
    decreases a
  {
    if a != 0 {
      XorSelf(a / 2);
    }
  }

  lemma {:induction false} XorZero(a: nat)
    ensures BitXor(a, 0) == a
    decreases a
  {
    if a != 0 {
      XorZero(a / 2);
    }
  }

  /** The order in which two bytes are folded in does not matter. */
  lemma XorSwap(a: nat, b: nat, c: nat)
    ensures BitXor(BitXor(a, b), c) == BitXor(BitXor(a, c), b)
  {
    XorAssoc(a, b, c);
    XorComm(b, c);
    XorAssoc(a, c, b);
  }

  /** Exclusive or with the same byte twice gives back what was there. */
  lemma XorCancel(a: nat, b: nat)
    ensures BitXor(BitXor(a, b), b) == a
  {
    XorAssoc(a, b, b);
    XorSelf(b);
    XorZero(a);
  }

  /** Two bytes that differ give different results against the same accumulator. */
  lemma XorInjective(a: nat, x: nat, y: nat)
    requires x != y
    ensures BitXor(a, x) != BitXor(a, y)
  {
    if BitXor(a, x) == BitXor(a, y) {
      XorComm(a, x);
      XorComm(a, y);
      XorCancel(x, a);
      XorCancel(y, a);
      assert false;
    }
  }
}
