/**
 * Python `bytes` elements: integers 0..255.  Python's `a ^ b` on two such
 * integers is their bitwise exclusive or, defined here bit by bit; the
 * algebraic laws the rest of the model uses are proved once, in this
 * module, so that other proofs use `Xor` only through them.
 */
module Bytes {
  import opened Arith

  newtype byte = x: int | 0 <= x < 256

  /** Bitwise exclusive or of the `n` low bits of `a` and `b`. */
  function XorBits(a: nat, b: nat, n: nat): nat
  {
    if n == 0 then 0
    else 2 * XorBits(a / 2, b / 2, n - 1) + (if a % 2 == b % 2 then 0 else 1)
  }

  lemma {:induction false} XorBitsBound(a: nat, b: nat, n: nat)
    ensures XorBits(a, b, n) < Pow2(n)
  {
    if n > 0 { XorBitsBound(a / 2, b / 2, n - 1); }
  }

  /** The number of bits in a byte. */
  function Width(): nat { 8 }

  /** Python's `a ^ b` on two byte values. */
  function Xor(a: byte, b: byte): byte
  {
    XorBitsBound(a as nat, b as nat, Width());
    assert Pow2(Width()) == 256;
    XorBits(a as nat, b as nat, Width()) as byte
  }

  /** `a ^ b` is `v` when the exclusive or of their eight low bits is. */
  lemma XorIs(a: byte, b: byte, v: byte)
    requires XorBits(a as nat, b as nat, 8) == v as nat
    ensures Xor(a, b) == v
  {
  }

  lemma {:induction false} XorBitsComm(a: nat, b: nat, n: nat)
    ensures XorBits(a, b, n) == XorBits(b, a, n)
  {
    if n > 0 { XorBitsComm(a / 2, b / 2, n - 1); }
  }

  lemma {:induction false} XorBitsSelf(a: nat, n: nat)
    ensures XorBits(a, a, n) == 0
  {
    if n > 0 { XorBitsSelf(a / 2, n - 1); }
  }

  lemma {:induction false} XorBitsZero(a: nat, n: nat)
    requires a < Pow2(n)
    ensures XorBits(a, 0, n) == a && XorBits(0, a, n) == a
  {
    if n > 0 { XorBitsZero(a / 2, n - 1); }
  }

  lemma {:induction false} XorBitsAssoc(a: nat, b: nat, c: nat, n: nat)
    ensures XorBits(XorBits(a, b, n), c, n) == XorBits(a, XorBits(b, c, n), n)
  {
    if n > 0 {
      var ab := XorBits(a, b, n);
      var bc := XorBits(b, c, n);
      assert ab / 2 == XorBits(a / 2, b / 2, n - 1);
      assert bc / 2 == XorBits(b / 2, c / 2, n - 1);
      XorBitsAssoc(a / 2, b / 2, c / 2, n - 1);
    }
  }

  lemma XorComm(a: byte, b: byte)
    ensures Xor(a, b) == Xor(b, a)
  {
    XorBitsComm(a as nat, b as nat, Width());
  }

  lemma XorAssoc(a: byte, b: byte, c: byte)
    ensures Xor(Xor(a, b), c) == Xor(a, Xor(b, c))
  {
    XorBitsAssoc(a as nat, b as nat, c as nat, Width());
  }

  lemma XorSelf(a: byte)
    ensures Xor(a, a) == 0
  {
    XorBitsSelf(a as nat, Width());
  }

  lemma XorZero(a: byte)
    ensures Xor(a, 0) == a && Xor(0, a) == a
  {
    assert Pow2(Width()) == 256;
    XorBitsZero(a as nat, Width());
  }

  /** `a ^ b` is zero exactly when the two bytes are equal. */
  lemma XorZeroIff(a: byte, b: byte)
    ensures Xor(a, b) == 0 <==> a == b
  {
    if a == b {
      XorSelf(a);
    } else if Xor(a, b) == 0 {
      XorAssoc(a, b, b);
      XorSelf(b);
      XorZero(a);
      XorZero(b);
      assert false;
    }
  }

  /** Applying the same key byte twice restores the plaintext byte. */
  lemma XorInvolution(b: byte, k: byte)
    ensures Xor(Xor(b, k), k) == b
  {
    XorAssoc(b, k, k);
    XorSelf(k);
    XorZero(b);
  }

  /** A key byte shared by two ciphertext bytes cancels out of their exclusive or. */
  lemma XorCancel(a: byte, b: byte, k: byte)
    ensures Xor(Xor(a, k), Xor(b, k)) == Xor(a, b)
  {
    XorAssoc(a, k, Xor(b, k));
    XorComm(b, k);
    XorAssoc(k, k, b);
    XorSelf(k);
    XorZero(b);
  }

  /** The key byte `a ^ p` turns the ciphertext byte `a` into `p`. */
  lemma XorSolve(a: byte, p: byte)
    ensures Xor(a, Xor(a, p)) == p
  {
    XorAssoc(a, a, p);
    XorSelf(a);
    XorZero(p);
  }

  /**
   * Known-plaintext transfer: when two ciphertext bytes and two plaintext
   * bytes have the same exclusive or, a key byte that decrypts the first
   * ciphertext byte decrypts the second as well.
   */
  lemma XorTransfer(b0: byte, b1: byte, p0: byte, p1: byte, k: byte)
    requires Xor(b0, b1) == Xor(p0, p1) && Xor(b0, k) == p0
    ensures Xor(b1, k) == p1
  {
    XorSolve(b0, k);
    XorComm(b1, Xor(b0, p0));
    XorAssoc(b0, p0, b1);
    XorComm(p0, b1);
    XorAssoc(b0, b1, p0);
    XorComm(Xor(p0, p1), p0);
    XorSolve(p0, p1);
  }
}
