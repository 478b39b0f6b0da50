/** Bytes and their exclusive or. */
module Bytes {
  import SeqNum

  type byte = x: int | 0 <= x < 256

  function Pow2(n: nat): (p: nat)
    ensures p >= 1
  {
    if n == 0 then 1 else 2 * Pow2(n - 1)
  }

  /** Exclusive or of the `n` lowest bits. */
  function XorBits(n: nat, a: nat, b: nat): (r: nat)
    ensures r < Pow2(n)
  {
    if n == 0 then 0 else 2 * XorBits(n - 1, a / 2, b / 2) + (a + b) % 2
  }

  lemma {:induction false} XorBitsBack(n: nat, a: nat, b: nat)
    requires a < Pow2(n)
    ensures XorBits(n, XorBits(n, a, b), b) == a
  {
    if n > 0 {
      var c := XorBits(n, a, b);
      Halves(XorBits(n - 1, a / 2, b / 2), (a + b) % 2);
      XorBitsBack(n - 1, a / 2, b / 2);
      Parity(a, b, c);
    }
  }

  lemma Halves(q: nat, r: nat)
    requires r < 2
    ensures (2 * q + r) / 2 == q && (2 * q + r) % 2 == r
  {
  }

  lemma Parity(a: nat, b: nat, c: nat)
    requires c % 2 == (a + b) % 2
    ensures (c + b) % 2 == a % 2
  {
  }

  /** A bit of a number. */
  function Bit(a: nat, k: nat): nat {
    a / Pow2(k) % 2
  }

  lemma {:induction false} XorBitsAt(n: nat, a: nat, b: nat, k: nat)
    requires k < n
    ensures Bit(XorBits(n, a, b), k) == (Bit(a, k) + Bit(b, k)) % 2
  {
    hide Bit, Pow2;
    Halves(XorBits(n - 1, a / 2, b / 2), (a + b) % 2);
    if k > 0 {
      XorBitsAt(n - 1, a / 2, b / 2, k - 1);
      BitOfHalf(XorBits(n, a, b), k);
      BitOfHalf(a, k);
      BitOfHalf(b, k);
    } else {
      LowestBit(XorBits(n, a, b));
      LowestBit(a);
      LowestBit(b);
    }
  }

  lemma LowestBit(a: nat)
    ensures Bit(a, 0) == a % 2
  {
  }

  lemma BitOfHalf(a: nat, k: nat)
    requires k > 0
    ensures Bit(a, k) == Bit(a / 2, k - 1)
  {
    var p := Pow2(k - 1);
    var q, r := a / 2 / p, a / 2 % p;
    assert a == (2 * p) * q + (2 * r + a % 2) && 2 * r + a % 2 < 2 * p by {
      assert a / 2 == p * q + r && a == 2 * (a / 2) + a % 2;
    }
    SeqNum.DivModUnique(2 * p, q, 2 * r + a % 2);
  }

  /** Exclusive or: each bit is the parity of the two. */
  function Xor(a: byte, b: byte): (r: byte)
    ensures forall k :: 0 <= k < 8 ==> Bit(r, k) == (Bit(a, k) + Bit(b, k)) % 2
  {
    assert Pow2(8) == 256;
    (XorIs(a, b); XorBits(8, a, b))
  }

  lemma XorIs(a: nat, b: nat)
    ensures forall k :: 0 <= k < 8 ==> Bit(XorBits(8, a, b), k) == (Bit(a, k) + Bit(b, k)) % 2
  {
    forall k | 0 <= k < 8 ensures Bit(XorBits(8, a, b), k) == (Bit(a, k) + Bit(b, k)) % 2 {
      XorBitsAt(8, a, b, k);
    }
  }

  /** The bits determine the byte. */
  lemma {:induction false} BitsDetermine(n: nat, a: nat, b: nat)
    requires a < Pow2(n) && b < Pow2(n) && forall k :: 0 <= k < n ==> Bit(a, k) == Bit(b, k)
    ensures a == b
  {
    if n > 0 {
      forall k | 0 <= k < n - 1 ensures Bit(a / 2, k) == Bit(b / 2, k) {
        BitOfHalf(a, k + 1);
        BitOfHalf(b, k + 1);
      }
      BitsDetermine(n - 1, a / 2, b / 2);
      assert Bit(a, 0) == a % 2 && Bit(b, 0) == b % 2;
    }
  }

  lemma XorDetermined(a: byte, b: byte, r: byte)
    requires forall k :: 0 <= k < 8 ==> Bit(r, k) == (Bit(a, k) + Bit(b, k)) % 2
    ensures r == Xor(a, b)
  {
    assert Pow2(8) == 256;
    BitsDetermine(8, r, Xor(a, b));
  }

  lemma XorBack(a: byte, b: byte)
    ensures Xor(Xor(a, b), b) == a
  {
    assert Pow2(8) == 256;
    XorBitsBack(8, a, b);
  }
}
