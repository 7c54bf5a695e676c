/** Vector additions on little-endian lanes, as the counter paths use them. */
module Lanes {
  import opened Bytes

  /** The value of a little-endian lane, and a lane holding a value cut to its width. */
  function Le(s: seq<byte>): nat {
    if s == [] then 0 else s[0] + 256 * Le(s[1..])
  }

  function ToLe(n: nat, len: nat): (s: seq<byte>)
    ensures |s| == len
  {
    if len == 0 then [] else [n % 256] + ToLe(n / 256, len - 1)
  }

  lemma {:induction false} ToLeLe(s: seq<byte>)
    ensures ToLe(Le(s), |s|) == s
  {
    if s != [] {
      ToLeLe(s[1..]);
      assert Le(s) % 256 == s[0] && Le(s) / 256 == Le(s[1..]);
      assert s == [s[0]] + s[1..];
    }
  }

  /** Adding to the top octet of a lane wraps there and touches nothing else. */
  lemma {:induction false} AddToTop(s: seq<byte>, d: nat)
    requires |s| > 0
    ensures ToLe(Le(s) + d * Pow256(|s| - 1), |s|) == s[|s| - 1 := Octet(s[|s| - 1] as int + d)]
  {
    var n := |s|;
    if n == 1 {
      assert s[1..] == [];
      assert Le(s) == s[0];
      assert ToLe(s[0] as int + d, 1) == [(s[0] as int + d) % 256] + ToLe((s[0] as int + d) / 256, 0);
    } else {
      var t := s[1..];
      AddToTop(t, d);
      MulSwap(d, 256, Pow256(n - 2));
      var up := Le(t) + d * Pow256(n - 2);
      assert Le(s) + d * Pow256(n - 1) == s[0] + 256 * up;
      LowAndUp(s[0], up);
      assert s[n - 1 := Octet(s[n - 1] as int + d)] == [s[0]] + t[n - 2 := Octet(t[n - 2] as int + d)];
    }
  }

  lemma LowAndUp(x: byte, up: nat)
    ensures (x + 256 * up) % 256 == x && (x + 256 * up) / 256 == up
  {}

  /** _mm_add_epi32 with four word constants. */
  function AddEpi32(w: seq<byte>, c: seq<nat>): (r: seq<byte>)
    requires |w| == 16 && |c| == 4
    ensures |r| == 16
  {
    ToLe(Le(w[..4]) + c[0], 4) + ToLe(Le(w[4..8]) + c[1], 4) + ToLe(Le(w[8..12]) + c[2], 4) + ToLe(Le(w[12..]) + c[3], 4)
  }

  /** _mm_add_epi64 with the same constants read as two lanes. */
  function AddEpi64(w: seq<byte>, c: seq<nat>): (r: seq<byte>)
    requires |w| == 16 && |c| == 4
    ensures |r| == 16
  {
    ToLe(Le(w[..8]) + c[0] + 0x1_0000_0000 * c[1], 8) + ToLe(Le(w[8..]) + c[2] + 0x1_0000_0000 * c[3], 8)
  }

  /** {0, 0, 0, 1 << 24} and {0, 2 << 24, 0, 2 << 24} */
  const ONE: seq<nat> := [0, 0, 0, 0x0100_0000]
  const TWO: seq<nat> := [0, 0x0200_0000, 0, 0x0200_0000]

  /** The last octet plus `d`, modulo 256; the other octets of the block as they are. */
  function Bump(b: seq<byte>, d: nat): (r: seq<byte>)
    requires |b| > 0
    ensures |r| == |b|
  {
    b[|b| - 1 := Octet(b[|b| - 1] as int + d)]
  }

  lemma TopOfFour(s: seq<byte>, d: nat)
    requires |s| == 4
    ensures ToLe(Le(s) + d * 0x100_0000, 4) == Bump(s, d)
  {
    assert Pow256(3) == 0x100_0000;
    AddToTop(s, d);
  }

  lemma TopOfEight(s: seq<byte>, d: nat)
    requires |s| == 8
    ensures ToLe(Le(s) + d * 0x100_0000_0000_0000, 8) == Bump(s, d)
  {
    assert Pow256(4) == 0x1_0000_0000 && Pow256(3) == 0x100_0000;
    Pow256Add(4, 3);
    AddToTop(s, d);
  }

  /** The one-word counter step: only octet 15 moves. */
  lemma AddOneIs(w: seq<byte>)
    requires |w| == 16
    ensures AddEpi32(w, ONE) == Bump(w, 1)
  {
    hide ToLe, Le;
    ToLeLe(w[..4]);
    ToLeLe(w[4..8]);
    ToLeLe(w[8..12]);
    TopOfFour(w[12..], 1);
    assert w == w[..4] + w[4..8] + w[8..12] + w[12..];
  }

  /** The doubled counter's first step: the high half moves by one. */
  lemma AddOneToHigh(lo: seq<byte>, hi: seq<byte>)
    requires |lo| == |hi| == 8
    ensures AddEpi32(lo + hi, ONE) == lo + Bump(hi, 1)
  {
    AddOneIs(lo + hi);
  }

  /** Both halves of a doubled counter move by two, whether added in 32-bit or in 64-bit lanes. */
  lemma AddTwoIs(lo: seq<byte>, hi: seq<byte>)
    requires |lo| == |hi| == 8
    ensures AddEpi32(lo + hi, TWO) == Bump(lo, 2) + Bump(hi, 2)
    ensures AddEpi64(lo + hi, TWO) == Bump(lo, 2) + Bump(hi, 2)
  {
    hide ToLe, Le;
    var w := lo + hi;
    assert w[..4] == lo[..4] && w[4..8] == lo[4..] && w[8..12] == hi[..4] && w[12..] == hi[4..];
    assert w[..8] == lo && w[8..] == hi;
    ToLeLe(lo[..4]);
    ToLeLe(hi[..4]);
    TopOfFour(lo[4..], 2);
    TopOfFour(hi[4..], 2);
    assert lo[..4] + Bump(lo[4..], 2) == Bump(lo, 2);
    assert hi[..4] + Bump(hi[4..], 2) == Bump(hi, 2);
    TopOfEight(lo, 2);
    TopOfEight(hi, 2);
  }

  lemma BumpBump(b: seq<byte>, d: nat, e: nat)
    requires |b| > 0
    ensures Bump(Bump(b, d), e) == Bump(b, d + e)
  {
    var x := b[|b| - 1] as int;
    assert Octet(Octet(x + d) as int + e) == Octet(x + (d + e));
  }

  lemma BumpZero(b: seq<byte>)
    requires |b| > 0
    ensures Bump(b, 0) == b
  {}
}
