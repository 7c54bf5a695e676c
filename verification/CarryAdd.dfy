/**
 The in-place big-endian additions of Hash_DRBG: the additional-input step, and steps
 4-7 in the three builds the source can be compiled to.
 */
module CarryAdd {
  import opened Bytes

  /** Which preprocessor branch of steps 4-7 is compiled. */
  datatype Build = Word128 | Split32 | Bytewise

  const TWO64 := 0x1_0000_0000_0000_0000

  lemma PowEight()
    ensures Pow256(8) == TWO64 && Pow256(4) == TWO32
  {
    assert Pow256(4) == TWO32;
    Pow256Add(4, 4);
  }

  // ----- one column of a long addition

  /** The octets of `v` from `i` on, with the carry out of them, amount to `sum`. */
  ghost predicate Amounts(v: seq<byte>, i: int, carry: nat, sum: nat) {
    0 <= i <= |v| && Be(v[i..]) + carry * Pow256(|v| - i) == sum
  }

  /** The columns below `n` still hold what they held at first. */
  ghost predicate Untouched(v: seq<byte>, v0: seq<byte>, n: int) {
    |v| == |v0| && 0 <= n <= |v| && v[..n] == v0[..n]
  }

  lemma AmountsNothing(v: seq<byte>, w: seq<byte>)
    ensures Amounts(v, |v|, 0, Be(v[|v|..]) + Be(w[|w|..]) + 0)
  {}

  lemma CarryStep(total: nat, p: nat)
    ensures (total % 256) * p + (total / 256) * (256 * p) == total * p
  {
    var lo, up := total % 256, total / 256;
    assert total == lo + 256 * up;
    assert (lo + 256 * up) * p == lo * p + (256 * up) * p;
    assert (256 * up) * p == up * (256 * p);
  }

  lemma BeSuffix(s: seq<byte>, i: nat)
    requires i < |s|
    ensures Be(s[i..]) == s[i] * Pow256(|s| - 1 - i) + Be(s[i + 1..])
  {
    assert s[i..] == [s[i]] + s[i + 1..];
    BeFront(s[i], s[i + 1..]);
  }

  lemma Column(v: seq<byte>, i: nat, carry: nat, digits: nat, sum: nat)
    requires i < |v| && Amounts(v, i + 1, carry, sum)
    ensures Amounts(v[i := (digits + carry) % 256], i, (digits + carry) / 256,
                    sum + digits * Pow256(|v| - 1 - i))
  {
    var p, total := Pow256(|v| - 1 - i), digits + carry;
    var v' := v[i := total % 256];
    assert v'[i + 1..] == v[i + 1..];
    BeSuffix(v', i);
    CarryStep(total, p);
    Distribute(digits, carry, p);
    assert Pow256(|v| - i) == 256 * p;
    hide Pow256, Be;
    assert v'[i] == total % 256;
  }

  lemma Column1(v: seq<byte>, v0: seq<byte>, i: nat, carry: nat, rest: nat)
    requires i < |v| == |v0| && Amounts(v, i + 1, carry, Be(v0[i + 1..]) + rest)
    ensures Amounts(v[i := (v0[i] + carry) % 256], i, (v0[i] + carry) / 256, Be(v0[i..]) + rest)
  {
    Column(v, i, carry, v0[i], Be(v0[i + 1..]) + rest);
    BeSuffix(v0, i);
  }

  lemma Column2(v: seq<byte>, v0: seq<byte>, c: seq<byte>, i: nat, j: nat, carry: nat, rest: nat)
    requires i < |v| == |v0| && j < |c| && |v| - i == |c| - j
    requires Amounts(v, i + 1, carry, Be(v0[i + 1..]) + Be(c[j + 1..]) + rest)
    ensures var total := v0[i] + c[j] + carry;
      Amounts(v[i := total % 256], i, total / 256, Be(v0[i..]) + Be(c[j..]) + rest)
  {
    hide *;
    var x: nat, y: nat := v0[i], c[j];
    Column(v, i, carry, x + y, Be(v0[i + 1..]) + Be(c[j + 1..]) + rest);
    BeSuffix(v0, i);
    BeSuffix(c, j);
    var p := Pow256(|v| - 1 - i);
    Distribute(x, y, p);
  }

  lemma Column3(v: seq<byte>, v0: seq<byte>, c: seq<byte>, h: seq<byte>, i: nat, j: nat, carry: nat, rest: nat)
    requires i < |v| == |v0| == |c| && j < |h| && |v| - i == |h| - j
    requires Amounts(v, i + 1, carry, Be(v0[i + 1..]) + Be(c[i + 1..]) + Be(h[j + 1..]) + rest)
    ensures var total := v0[i] + c[i] + h[j] + carry;
      Amounts(v[i := total % 256], i, total / 256, Be(v0[i..]) + Be(c[i..]) + Be(h[j..]) + rest)
  {
    hide *;
    var x: nat, y: nat, z: nat := v0[i], c[i], h[j];
    Column(v, i, carry, x + y + z, Be(v0[i + 1..]) + Be(c[i + 1..]) + Be(h[j + 1..]) + rest);
    BeSuffix(v0, i);
    BeSuffix(c, i);
    BeSuffix(h, j);
    var p := Pow256(|v| - 1 - i);
    Distribute(x + y, z, p);
    Distribute(x, y, p);
  }

  lemma Column4(v: seq<byte>, v0: seq<byte>, c: seq<byte>, h: seq<byte>, r: seq<byte>, i: nat, j: nat, k: nat, carry: nat)
    requires i < |v| == |v0| == |c| && j < |h| && k < |r| && |v| - i == |h| - j == |r| - k
    requires Amounts(v, i + 1, carry, Be(v0[i + 1..]) + Be(c[i + 1..]) + Be(h[j + 1..]) + Be(r[k + 1..]))
    ensures var total := v0[i] + c[i] + h[j] + r[k] + carry;
      Amounts(v[i := total % 256], i, total / 256, Be(v0[i..]) + Be(c[i..]) + Be(h[j..]) + Be(r[k..]))
  {
    hide *;
    var x: nat, y: nat, z: nat, w: nat := v0[i], c[i], h[j], r[k];
    Column(v, i, carry, x + y + z + w, Be(v0[i + 1..]) + Be(c[i + 1..]) + Be(h[j + 1..]) + Be(r[k + 1..]));
    BeSuffix(v0, i);
    BeSuffix(c, i);
    BeSuffix(h, j);
    BeSuffix(r, k);
    var p := Pow256(|v| - 1 - i);
    Distribute(x + y + z, w, p);
    Distribute(x + y, z, p);
    Distribute(x, y, p);
  }

  /** A string whose value differs from `n` by whole multiples of its range is `n` cut to it. */
  lemma CutTo(s: seq<byte>, carry: nat, n: nat)
    requires Amounts(s, 0, carry, n)
    ensures s == ToBe(n, |s|)
  {
    assert s[0..] == s;
    BeBound(s);
    DivModUnique(n, Pow256(|s|), carry, Be(s));
    BeToBe(n, |s|);
    BeInjective(s, ToBe(n, |s|));
  }

  /** (v + w) mod 256^|v| */
  function Sum2(v: seq<byte>, w: seq<byte>): seq<byte> {
    ToBe(Be(v) + Be(w), |v|)
  }

  // ----- step 2: V = (V + w) mod 2^seedlen

  method AddDigest(v: array<byte>, w: seq<byte>)
    requires |w| <= v.Length
    modifies v
    ensures v[..] == Sum2(old(v[..]), w)
  {
    hide Amounts, Be, Pow256, ToBe;
    var i, carry := DigestColumns(v, w);
    PropagateCarry(v, i, carry, old(v[..]), Be(w));
  }

  /** The first loop of step 2, over the columns of the digest. */
  method DigestColumns(v: array<byte>, w: seq<byte>) returns (i: int, carry: nat)
    requires |w| <= v.Length
    modifies v
    ensures i == v.Length - |w| - 1 && Untouched(v[..], old(v[..]), i + 1)
    ensures Amounts(v[..], i + 1, carry, Be(old(v[..])[i + 1..]) + Be(w))
  {
    hide Amounts, Be, Pow256;
    ghost var v0: seq<byte> := v[..];
    var j := |w| - 1;
    carry, i := 0, v.Length - 1;
    AmountsNothing(v0, w);
    while j >= 0
      invariant -1 <= j < |w| && i - j == v.Length - |w|
      invariant Untouched(v[..], v0, i + 1)
      invariant Amounts(v[..], i + 1, carry, Be(v0[i + 1..]) + Be(w[j + 1..]) + 0)
    {
      Column2(v[..], v0, w, i, j, carry, 0);
      ghost var before: seq<byte> := v[..];
      carry := v[i] + w[j] + carry;
      v[i] := carry % 256;
      assert v[..] == before[i := carry % 256];
      i, j, carry := i - 1, j - 1, carry / 256;
    }
    assert w[0..] == w;
  }

  /** The second loop of step 2, over the columns the digest does not reach. */
  method PropagateCarry(v: array<byte>, from: int, carryIn: nat, ghost v0: seq<byte>, ghost rest: nat)
    requires |v0| == v.Length && -1 <= from < v.Length
    requires Untouched(v[..], v0, from + 1)
    requires Amounts(v[..], from + 1, carryIn, Be(v0[from + 1..]) + rest)
    modifies v
    ensures v[..] == ToBe(Be(v0) + rest, v.Length)
  {
    hide Amounts, Be, Pow256, ToBe;
    var carry: nat, i := carryIn, from;
    while i >= 0
      invariant -1 <= i <= from
      invariant Untouched(v[..], v0, i + 1)
      invariant Amounts(v[..], i + 1, carry, Be(v0[i + 1..]) + rest)
    {
      Column1(v[..], v0, i, carry, rest);
      ghost var before: seq<byte> := v[..];
      carry := v[i] + carry;
      v[i] := carry % 256;
      assert v[..] == before[i := carry % 256];
      i, carry := i - 1, carry / 256;
    }
    assert v0[0..] == v0;
    CutTo(v[..], carry, Be(v0) + rest);
  }

  // ----- steps 4-7: V = (V + C + h + reseed counter) mod 2^seedlen

  /** (v + c + h + n) mod 256^|v| */
  function Sum4(v: seq<byte>, c: seq<byte>, h: seq<byte>, n: nat): seq<byte> {
    ToBe(Be(v) + Be(c) + Be(h) + n, |v|)
  }

  /** What the low eight columns leave behind, whichever build computes them. */
  ghost predicate LowDone(v: seq<byte>, v0: seq<byte>, c: seq<byte>, h: seq<byte>, n: nat, carry: nat) {
    && |v| == |v0| == |c| >= |h| >= 8
    && Untouched(v, v0, |v| - 8) && carry <= 3
    && Amounts(v, |v| - 8, carry, Be(v0[|v| - 8..]) + Be(c[|v| - 8..]) + Be(h[|h| - 8..]) + n)
  }

  lemma NothingAmounts(v: seq<byte>, c: seq<byte>, h: seq<byte>, r: seq<byte>)
    requires |c| == |v|
    ensures Amounts(v, |v|, 0, Be(v[|v|..]) + Be(c[|v|..]) + Be(h[|h|..]) + Be(r[|r|..]))
  {}

  lemma LowFromBytes(v: seq<byte>, v0: seq<byte>, c: seq<byte>, h: seq<byte>, n: nat, carry: nat)
    requires |v| == |v0| == |c| >= |h| >= 8 && n < TWO64
    requires Untouched(v, v0, |v| - 8) && carry <= 3
    requires Amounts(v, |v| - 8, carry,
                     Be(v0[|v| - 8..]) + Be(c[|v| - 8..]) + Be(h[|h| - 8..]) + Be(ToBe(n, 8)[0..]))
    ensures LowDone(v, v0, c, h, n, carry)
  {
    PowEight();
    BeToBeSmall(n, 8);
    assert ToBe(n, 8)[0..] == ToBe(n, 8);
    hide Amounts, Be, Pow256, ToBe;
  }

  /** The portable build: one octet of the reseed counter per column. */
  method LowBytewise(v: array<byte>, c: seq<byte>, h: seq<byte>, reseed: nat) returns (carry: nat)
    requires |c| == v.Length >= |h| >= 8 && reseed < TWO64
    modifies v
    ensures LowDone(v[..], old(v[..]), c, h, reseed, carry)
  {
    hide Amounts, Be, Pow256, ToBe, LowDone;
    carry := LowColumns(v, c, h, ToBe(reseed, 8));
    LowFromBytes(v[..], old(v[..]), c, h, reseed, carry);
  }

  method LowColumns(v: array<byte>, c: seq<byte>, h: seq<byte>, r: seq<byte>) returns (carry: nat)
    requires |c| == v.Length >= |h| >= 8 == |r|
    modifies v
    ensures Untouched(v[..], old(v[..]), v.Length - 8) && carry <= 3
    ensures Amounts(v[..], v.Length - 8, carry,
                    Be(old(v[..])[v.Length - 8..]) + Be(c[v.Length - 8..]) + Be(h[|h| - 8..]) + Be(r[0..]))
  {
    hide Amounts, Be, Pow256;
    ghost var v0: seq<byte> := v[..];
    var k, j, i := 7, |h| - 1, v.Length - 1;
    carry := 0;
    NothingAmounts(v0, c, h, r);
    while k >= 0
      invariant -1 <= k < 8 && i - k == v.Length - 8 && j - k == |h| - 8
      invariant Untouched(v[..], v0, i + 1) && carry <= 3
      invariant Amounts(v[..], i + 1, carry, Be(v0[i + 1..]) + Be(c[i + 1..]) + Be(h[j + 1..]) + Be(r[k + 1..]))
    {
      Column4(v[..], v0, c, h, r, i, j, k, carry);
      ghost var before: seq<byte> := v[..];
      carry := v[i] + c[i] + h[j] + r[k] + carry;
      v[i] := carry % 256;
      assert v[..] == before[i := carry % 256];
      i, j, k, carry := i - 1, j - 1, k - 1, carry / 256;
    }
  }

  lemma WordAmounts(v: seq<byte>, at: nat, r: nat)
    requires |v| == at + 8 && v[at..] == ToBe(r % TWO64, 8)
    ensures Amounts(v, at, r / TWO64, r)
  {
    PowEight();
    BeToBeSmall(r % TWO64, 8);
    hide Be, ToBe, Pow256;
  }

  lemma CarryFits(w1: nat, w2: nat, w3: nat, w4: nat)
    requires w1 < TWO64 && w2 < TWO64 && w3 < TWO64 && w4 < TWO64
    ensures (w1 + w2 + w3 + w4) / TWO64 <= 3
  {}

  lemma WordDone(v: seq<byte>, v0: seq<byte>, c: seq<byte>, h: seq<byte>, n: nat)
    requires |v| == |v0| == |c| >= |h| >= 8 && n < TWO64
    requires var r := Be(v0[|v| - 8..]) + Be(c[|v| - 8..]) + Be(h[|h| - 8..]) + n;
      v == v0[..|v| - 8] + ToBe(r % TWO64, 8)
    ensures var r := Be(v0[|v| - 8..]) + Be(c[|v| - 8..]) + Be(h[|h| - 8..]) + n;
      LowDone(v, v0, c, h, n, r / TWO64)
  {
    hide Amounts, Be, ToBe, Pow256;
    PowEight();
    BeBound(v0[|v| - 8..]);
    BeBound(c[|v| - 8..]);
    BeBound(h[|h| - 8..]);
    var w1, w2, w3 := Be(v0[|v| - 8..]), Be(c[|v| - 8..]), Be(h[|h| - 8..]);
    CarryFits(w1, w2, w3, n);
    assert v[|v| - 8..] == ToBe((w1 + w2 + w3 + n) % TWO64, 8);
    assert v[..|v| - 8] == v0[..|v| - 8];
    WordAmounts(v, |v| - 8, w1 + w2 + w3 + n);
  }

  /** The build with a 128-bit type: one wide addition. */
  method LowWord128(v: array<byte>, c: seq<byte>, h: seq<byte>, reseed: nat) returns (carry: nat)
    requires |c| == v.Length >= |h| >= 8 && reseed < TWO64
    modifies v
    ensures LowDone(v[..], old(v[..]), c, h, reseed, carry)
  {
    hide LowDone, Be, ToBe;
    var at := v.Length - 8;
    ghost var v0: seq<byte> := v[..];
    var w1, w2, w3 := Be(v[at..]), Be(c[at..]), Be(h[|h| - 8..]);
    var r := w1 + w2 + w3 + reseed;
    assert v[at..] == v0[at..];
    Put(v, at, ToBe(r % TWO64, 8));
    carry := r / TWO64;
    assert v[..] == v0[..at] + ToBe(r % TWO64, 8);
    WordDone(v[..], v0, c, h, reseed);
  }

  lemma SplitSum(w1: nat, w2: nat, w3: nat, w4: nat)
    ensures var r1 := w1 % TWO32 + w2 % TWO32 + w3 % TWO32 + w4 % TWO32;
      var r2 := w1 / TWO32 + w2 / TWO32 + w3 / TWO32 + w4 / TWO32 + r1 / TWO32;
      var r := w1 + w2 + w3 + w4;
      r2 / TWO32 == r / TWO64 && (r2 * TWO32) % TWO64 + r1 % TWO32 == r % TWO64
  {
    var r1 := w1 % TWO32 + w2 % TWO32 + w3 % TWO32 + w4 % TWO32;
    var r2 := w1 / TWO32 + w2 / TWO32 + w3 / TWO32 + w4 / TWO32 + r1 / TWO32;
    DivModUnique(w1 + w2 + w3 + w4, TWO64, r2 / TWO32, (r2 % TWO32) * TWO32 + r1 % TWO32);
    DivModUnique(r2 * TWO32, TWO64, r2 / TWO32, (r2 % TWO32) * TWO32);
  }

  /** The Microsoft build: two halves of 32 bits with a carry between them. */
  method LowSplit32(v: array<byte>, c: seq<byte>, h: seq<byte>, reseed: nat) returns (carry: nat)
    requires |c| == v.Length >= |h| >= 8 && reseed < TWO64
    modifies v
    ensures LowDone(v[..], old(v[..]), c, h, reseed, carry)
  {
    hide LowDone, Be, ToBe;
    var at := v.Length - 8;
    ghost var v0: seq<byte> := v[..];
    var w1, w2, w3, w4 := Be(v[at..]), Be(c[at..]), Be(h[|h| - 8..]), reseed;
    var r1 := w1 % TWO32 + w2 % TWO32 + w3 % TWO32 + w4 % TWO32;
    carry := r1 / TWO32;
    var r2 := w1 / TWO32 + w2 / TWO32 + w3 / TWO32 + w4 / TWO32 + carry;
    carry := r2 / TWO32;
    var r := (r2 * TWO32) % TWO64 + r1 % TWO32;
    SplitSum(w1, w2, w3, w4);
    assert v[at..] == v0[at..];
    Put(v, at, ToBe(r, 8));
    assert v[..] == v0[..at] + ToBe(r, 8);
    WordDone(v[..], v0, c, h, reseed);
  }

  /** The loop over the columns the digest still reaches. */
  method MiddleColumns(v: array<byte>, c: seq<byte>, h: seq<byte>, ghost v0: seq<byte>, ghost n: nat, carryIn: nat)
    returns (i: int, carry: nat)
    requires LowDone(v[..], v0, c, h, n, carryIn)
    modifies v
    ensures i == v.Length - |h| - 1 && Untouched(v[..], v0, i + 1) && carry <= 3
    ensures Amounts(v[..], i + 1, carry, Be(v0[i + 1..]) + Be(c[i + 1..]) + (Be(h) + n))
  {
    hide Amounts, Be, Pow256;
    var j := |h| - 9;
    i, carry := v.Length - 9, carryIn;
    while j >= 0
      invariant -1 <= j < |h| && i - j == v.Length - |h|
      invariant Untouched(v[..], v0, i + 1) && carry <= 3
      invariant Amounts(v[..], i + 1, carry, Be(v0[i + 1..]) + Be(c[i + 1..]) + Be(h[j + 1..]) + n)
    {
      Column3(v[..], v0, c, h, i, j, carry, n);
      ghost var before: seq<byte> := v[..];
      carry := v[i] + c[i] + h[j] + carry;
      v[i] := carry % 256;
      assert v[..] == before[i := carry % 256];
      i, j, carry := i - 1, j - 1, carry / 256;
    }
    assert h[0..] == h;
  }

  /** The closing loop, over the columns of V and C alone. */
  method HighColumns(v: array<byte>, c: seq<byte>, ghost v0: seq<byte>, ghost rest: nat, from: int, carryIn: nat)
    requires |v0| == v.Length == |c| && -1 <= from < v.Length && carryIn <= 3
    requires Untouched(v[..], v0, from + 1)
    requires Amounts(v[..], from + 1, carryIn, Be(v0[from + 1..]) + Be(c[from + 1..]) + rest)
    modifies v
    ensures v[..] == ToBe(Be(v0) + Be(c) + rest, v.Length)
  {
    hide Amounts, Be, Pow256, ToBe;
    var carry: nat, i := carryIn, from;
    while i >= 0
      invariant -1 <= i <= from && carry <= 3
      invariant Untouched(v[..], v0, i + 1)
      invariant Amounts(v[..], i + 1, carry, Be(v0[i + 1..]) + Be(c[i + 1..]) + rest)
    {
      Column2(v[..], v0, c, i, i, carry, rest);
      ghost var before: seq<byte> := v[..];
      carry := v[i] + c[i] + carry;
      v[i] := carry % 256;
      assert v[..] == before[i := carry % 256];
      i, carry := i - 1, carry / 256;
    }
    assert v0[0..] == v0 && c[0..] == c;
    CutTo(v[..], carry, Be(v0) + Be(c) + rest);
  }

  /** Steps 4-7. The new V is the same in every build. */
  method AddState(v: array<byte>, c: seq<byte>, h: seq<byte>, reseed: nat, build: Build)
    requires |c| == v.Length >= |h| >= 8 && reseed < TWO64
    modifies v
    ensures v[..] == Sum4(old(v[..]), c, h, reseed)
  {
    hide Amounts, Be, Pow256, ToBe, LowDone;
    ghost var v0: seq<byte> := v[..];
    var carry: nat;
    match build {
      case Word128 => carry := LowWord128(v, c, h, reseed);
      case Split32 => carry := LowSplit32(v, c, h, reseed);
      case Bytewise => carry := LowBytewise(v, c, h, reseed);
    }
    var i;
    i, carry := MiddleColumns(v, c, h, v0, reseed, carry);
    HighColumns(v, c, v0, Be(h) + reseed, i, carry);
  }
}
