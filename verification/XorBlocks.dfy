/** Exclusive or of octets and of octet strings. */
module XorBlocks {
  import opened Bytes
  import opened Numbers

  /** Bit by bit, from the low-order end, on `n` bits. */
  function XorBits(a: nat, b: nat, n: nat): (c: nat)
    ensures c < Pow2(n)
  {
    if n == 0 then 0 else (a + b) % 2 + 2 * XorBits(a / 2, b / 2, n - 1)
  }

  function XorByte(a: byte, b: byte): byte {
    assert Pow2(8) == 256;
    XorBits(a, b, 8)
  }

  function Xor(a: seq<byte>, b: seq<byte>): (c: seq<byte>)
    requires |a| <= |b|
    ensures |c| == |a|
    ensures forall i :: 0 <= i < |a| ==> c[i] == XorByte(a[i], b[i])
  {
    seq(|a|, i requires 0 <= i < |a| => XorByte(a[i], b[i]))
  }

  lemma LowBit(a: nat, b: nat, h: nat)
    ensures var x := (a + b) % 2 + 2 * h; x / 2 == h && (x + b) % 2 == a % 2
  {}

  lemma {:induction false} XorBitsInvolution(a: nat, b: nat, n: nat)
    requires a < Pow2(n)
    ensures XorBits(XorBits(a, b, n), b, n) == a
  {
    if n > 0 {
      XorBitsInvolution(a / 2, b / 2, n - 1);
      LowBit(a, b, XorBits(a / 2, b / 2, n - 1));
    }
  }

  lemma {:induction false} XorShifted(a: nat, b: nat, n: nat, i: nat)
    requires i < n
    ensures Shr(XorBits(a, b, n), i) % 2 == (Shr(a, i) + Shr(b, i)) % 2
  {
    LowBit(a, b, XorBits(a / 2, b / 2, n - 1));
    if i > 0 { XorShifted(a / 2, b / 2, n - 1, i - 1); }
  }

  lemma Parity(x: nat, y: nat, z: nat)
    requires x % 2 == (y + z) % 2
    ensures x % 2 == 1 <==> y % 2 != z % 2
  {}

  /** Bit `i` is set exactly when it is set in one of the two octets and not in the other. */
  lemma XorByteIs(a: byte, b: byte, i: nat, p: nat)
    requires i < 8 && p == Pow2(i)
    ensures (XorByte(a, b) / p) % 2 == 1 <==> (a / p) % 2 != (b / p) % 2
  {
    hide Pow2, XorBits, Shr;
    XorShifted(a, b, 8, i);
    ShrIsQuotient(a, i);
    ShrIsQuotient(b, i);
    ShrIsQuotient(XorByte(a, b), i);
    Parity(Shr(XorByte(a, b), i), Shr(a, i), Shr(b, i));
  }

  lemma XorByteInvolution(a: byte, b: byte)
    ensures XorByte(XorByte(a, b), b) == a
  {
    assert Pow2(8) == 256;
    XorBitsInvolution(a, b, 8);
  }

  /** Masking twice with the same string undoes the masking. */
  lemma XorInvolution(a: seq<byte>, b: seq<byte>)
    requires |a| == |b|
    ensures Xor(Xor(a, b), b) == a
  {
    forall i | 0 <= i < |a| ensures Xor(Xor(a, b), b)[i] == a[i] {
      XorByteInvolution(a[i], b[i]);
    }
  }

  lemma {:induction false} XorBitsCommute(a: nat, b: nat, n: nat)
    ensures XorBits(a, b, n) == XorBits(b, a, n)
  {
    if n > 0 { XorBitsCommute(a / 2, b / 2, n - 1); }
  }

  lemma XorCommutes(a: seq<byte>, b: seq<byte>)
    requires |a| == |b|
    ensures Xor(a, b) == Xor(b, a)
  {
    forall i | 0 <= i < |a| ensures Xor(a, b)[i] == Xor(b, a)[i] {
      XorBitsCommute(a[i], b[i], 8);
    }
  }

  /** Two masks give the same result on one string only if they are the same. */
  lemma XorCancels(a: seq<byte>, x: seq<byte>, y: seq<byte>)
    requires |a| == |x| == |y|
    ensures Xor(a, x) == Xor(a, y) <==> x == y
  {
    XorCommutes(a, x);
    XorCommutes(a, y);
    XorInvolution(x, a);
    XorInvolution(y, a);
  }

  lemma {:induction false} XorBitsSelf(a: nat, n: nat)
    ensures XorBits(a, a, n) == 0
  {
    if n > 0 { XorBitsSelf(a / 2, n - 1); }
  }

  /** A string under itself is zero, whatever it was. */
  lemma XorSelf(a: seq<byte>, b: seq<byte>)
    requires |a| == |b|
    ensures Xor(a, a) == Xor(b, b)
  {
    forall i | 0 <= i < |a| ensures Xor(a, a)[i] == Xor(b, b)[i] {
      XorBitsSelf(a[i], 8);
      XorBitsSelf(b[i], 8);
    }
  }
}
