/** Octets, and the big-endian reading and writing of unsigned integers. */
module Bytes {

  type byte = x: int | 0 <= x < 256

  /** The range of 32-bit words. */
  const TWO32: nat := 0x1_0000_0000

  /** The conversion to an octet: the low-order eight bits. */
  function Octet(n: int): byte {
    n % 256
  }

  function Min(a: nat, b: nat): nat {
    if a <= b then a else b
  }

  function Pow256(n: nat): (p: nat)
    ensures p > 0
  {
    if n == 0 then 1 else 256 * Pow256(n - 1)
  }

  /** The value of a big-endian octet string. */
  function Be(s: seq<byte>): nat {
    if |s| == 0 then 0 else 256 * Be(s[..|s| - 1]) + s[|s| - 1]
  }

  /** The low-order `len` octets of `n`, most significant first. */
  function ToBe(n: nat, len: nat): (s: seq<byte>)
    ensures |s| == len
  {
    if len == 0 then [] else ToBe(n / 256, len - 1) + [n % 256]
  }

  /** Significant octets of `n`; zero has none. */
  function ByteCount(n: nat): nat {
    if n == 0 then 0 else 1 + ByteCount(n / 256)
  }

  /** As ByteCount, except that zero takes one octet. */
  function MinEncodedSize(n: nat): nat {
    if n == 0 then 1 else ByteCount(n)
  }

  function Repeat(b: byte, n: nat): (s: seq<byte>)
    ensures |s| == n
    ensures forall i :: 0 <= i < n ==> s[i] == b
  {
    seq(n, i => b)
  }

  // ----- arithmetic

  lemma MulLe(a: int, b: int, c: nat)
    requires a <= b
    ensures a * c <= b * c
  {}

  lemma MulSwap(x: int, c: int, y: int)
    ensures x * (c * y) == c * (x * y)
  {}

  lemma Distribute(a: int, b: int, c: int)
    ensures (a + b) * c == a * c + b * c
  {}

  lemma DivModUnique(a: int, d: int, q: int, r: int)
    requires d > 0 && a == q * d + r && 0 <= r < d
    ensures a / d == q && a % d == r
  {
    var q', r' := a / d, a % d;
    assert a == q' * d + r';
    assert (q + 1) * d == q * d + d && (q' + 1) * d == q' * d + d;
    if q < q' {
      MulLe(q + 1, q', d);
    } else if q' < q {
      MulLe(q' + 1, q, d);
    }
  }

  lemma {:induction false} Pow256Add(a: nat, b: nat)
    ensures Pow256(a + b) == Pow256(a) * Pow256(b)
  {
    if b == 0 {
    } else {
      Pow256Add(a, b - 1);
      MulSwap(Pow256(a), 256, Pow256(b - 1));
    }
  }

  lemma {:induction false} Pow256Mono(a: nat, b: nat)
    requires a <= b
    ensures Pow256(a) <= Pow256(b)
  {
    if a < b { Pow256Mono(a, b - 1); }
  }

  // ----- big-endian strings

  lemma {:induction false} BeBound(s: seq<byte>)
    ensures Be(s) < Pow256(|s|)
  {
    if |s| > 0 { BeBound(s[..|s| - 1]); }
  }

  lemma {:induction false} BeConcat(a: seq<byte>, b: seq<byte>)
    ensures Be(a + b) == Be(a) * Pow256(|b|) + Be(b)
  {
    if |b| == 0 {
      assert a + b == a;
    } else {
      var b' := b[..|b| - 1];
      assert (a + b)[..|a + b| - 1] == a + b';
      BeConcat(a, b');
      MulSwap(Be(a), 256, Pow256(|b'|));
    }
  }

  lemma BeFront(x: byte, s: seq<byte>)
    ensures Be([x] + s) == x * Pow256(|s|) + Be(s)
  {
    BeConcat([x], s);
    assert [x][..0] == [];
    assert Be([x]) == x;
  }

  lemma ModStep(n: nat, p: nat)
    requires p > 0
    ensures n % (256 * p) == 256 * ((n / 256) % p) + n % 256
  {
    var q, r := (n / 256) / p, (n / 256) % p;
    assert n / 256 == q * p + r;
    assert 256 * (q * p) == q * (256 * p);
    DivModUnique(n, 256 * p, q, 256 * r + n % 256);
  }

  /** Writing keeps the value modulo 256^len; what is cut off is a multiple of it. */
  lemma {:induction false} BeToBe(n: nat, len: nat)
    ensures Be(ToBe(n, len)) == n % Pow256(len)
  {
    if len > 0 {
      BeToBe(n / 256, len - 1);
      assert ToBe(n, len)[..len - 1] == ToBe(n / 256, len - 1);
      ModStep(n, Pow256(len - 1));
    }
  }

  lemma BeToBeSmall(n: nat, len: nat)
    requires n < Pow256(len)
    ensures Be(ToBe(n, len)) == n
  {
    BeToBe(n, len);
    DivModUnique(n, Pow256(len), 0, n);
  }

  lemma {:induction false} ToBeBe(s: seq<byte>)
    ensures ToBe(Be(s), |s|) == s
  {
    if |s| > 0 {
      var s' := s[..|s| - 1];
      ToBeBe(s');
      assert Be(s) / 256 == Be(s') && Be(s) % 256 == s[|s| - 1];
    }
  }

  lemma BeInjective(s: seq<byte>, t: seq<byte>)
    requires |s| == |t| && Be(s) == Be(t)
    ensures s == t
  {
    ToBeBe(s);
    ToBeBe(t);
  }

  lemma {:induction false} BeZeros(n: nat)
    ensures Be(Repeat(0, n)) == 0
  {
    if n > 0 {
      BeZeros(n - 1);
      assert Repeat(0, n)[..n - 1] == Repeat(0, n - 1);
    }
  }

  lemma {:induction false} ByteCountBounds(n: nat)
    requires n > 0
    ensures ByteCount(n) > 0
    ensures Pow256(ByteCount(n) - 1) <= n < Pow256(ByteCount(n))
  {
    if n >= 256 {
      ByteCountBounds(n / 256);
    } else {
      assert ByteCount(n / 256) == 0;
      assert Pow256(1) == 256;
    }
  }

  lemma MinEncodedSizeFits(n: nat)
    ensures n < Pow256(MinEncodedSize(n))
  {
    if n > 0 {
      ByteCountBounds(n);
    } else {
      assert Pow256(1) == 256;
    }
  }

  /** Writing fixed-size strings depends only on the value modulo their range. */
  lemma ToBeCong(a: nat, b: nat, len: nat)
    requires a % Pow256(len) == b % Pow256(len)
    ensures ToBe(a, len) == ToBe(b, len)
  {
    BeToBe(a, len);
    BeToBe(b, len);
    BeInjective(ToBe(a, len), ToBe(b, len));
  }

  lemma CutAdd(a: nat, b: nat, p: nat)
    requires p > 0
    ensures (a % p + b) % p == (a + b) % p
  {
    var t, q, r := a / p, (a % p + b) / p, (a % p + b) % p;
    Distribute(t, q, p);
    DivModUnique(a + b, p, t + q, r);
  }

  lemma {:induction false} ToBeSuffix(n: nat, a: nat, b: nat)
    ensures ToBe(n, a + b)[a..] == ToBe(n, b)
  {
    if b > 0 {
      ToBeSuffix(n / 256, a, b - 1);
      assert ToBe(n, a + b)[a..] == ToBe(n / 256, a + b - 1)[a..] + [n % 256];
    } else {
      assert ToBe(n, a)[a..] == [];
    }
  }

  /** The low-order octets of a value are its string's last ones. */
  lemma LowOctets(a: seq<byte>, b: seq<byte>)
    ensures ToBe(Be(a + b), |b|) == b
  {
    hide *;
    ToBeBe(a + b);
    ToBeSuffix(Be(a + b), |a|, |b|);
    assert (a + b)[|a|..] == b;
  }

  /** Adding to a cut value and cutting again is adding to the value itself. */
  lemma ToBeAdd(a: nat, b: nat, len: nat)
    ensures ToBe(Be(ToBe(a, len)) + b, len) == ToBe(a + b, len)
  {
    var p := Pow256(len);
    BeToBe(a, len);
    CutAdd(a, b, p);
    ToBeCong(a % p + b, a + b, len);
  }

  /** memcpy into a buffer. */
  method Put(a: array<byte>, at: nat, s: seq<byte>)
    requires at + |s| <= a.Length
    modifies a
    ensures a[..] == old(a[..])[..at] + s + old(a[..])[at + |s|..]
  {
    forall k | 0 <= k < |s| { a[at + k] := s[k]; }
  }
}
