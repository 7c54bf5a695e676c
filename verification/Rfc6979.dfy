/** Deterministic nonces (RFC 6979, sections 2.3 and 3.2). */
module Rfc6979 {
  import opened Bytes
  import opened Numbers
  import opened Streams
  import HmacDrbg

  // ----- conversions (section 2.3)

  /** The leftmost `qlen` bits of a string, as an integer. */
  function Bits2Int(bits: seq<byte>, qlen: nat): nat {
    if |bits| * 8 > qlen then Shr(Be(bits), |bits| * 8 - qlen) else Be(bits)
  }

  function Int2Octets(val: nat, rlen: nat): seq<byte> {
    var block := ToBe(val, MinEncodedSize(val));
    if |block| == rlen then block
    else if |block| > rlen then block[|block| - rlen..]
    else Repeat(0, rlen - |block|) + block
  }

  function Bits2Octets(bits: seq<byte>, q: nat): seq<byte> {
    var b2: int := Bits2Int(bits, BitCount(q));
    var b1 := b2 - q;
    Int2Octets(if b1 < 0 then b2 else b1, ByteCount(q))
  }

  lemma PaddedBe(n: nat, s: seq<byte>)
    ensures Repeat(0, n) + s == ToBe(Be(s), n + |s|)
  {
    hide Repeat, Be, ToBe, Pow256;
    BeConcat(Repeat(0, n), s);
    BeZeros(n);
    ToBeBe(Repeat(0, n) + s);
  }

  /** Cutting or padding the minimal encoding gives the fixed-length one. */
  lemma Int2OctetsIsFixedLength(val: nat, rlen: nat)
    ensures Int2Octets(val, rlen) == ToBe(val, rlen)
  {
    hide ToBe, Be, Pow256, MinEncodedSize, Repeat;
    var m := MinEncodedSize(val);
    if m > rlen {
      ToBeSuffix(val, m - rlen, rlen);
    } else if m < rlen {
      MinEncodedSizeFits(val);
      BeToBeSmall(val, m);
      PaddedBe(rlen - m, ToBe(val, m));
    }
  }

  /** The integer read never has more than `qlen` bits. */
  lemma Bits2IntBound(bits: seq<byte>, qlen: nat)
    ensures Bits2Int(bits, qlen) < Pow2(qlen)
  {
    BeBound(bits);
    Pow2Bytes(|bits|);
    if |bits| * 8 > qlen {
      ShrBound(Be(bits), qlen, |bits| * 8 - qlen);
    } else {
      Pow2Mono(|bits| * 8, qlen);
    }
  }

  /** One subtraction reduces anything of q's bit length. */
  lemma OneSubtraction(b: nat, q: nat)
    requires q > 0 && b < Pow2(BitCount(q))
    ensures (if b - q < 0 then b else b - q) == b % q
  {
    BitCountBounds(q);
    assert Pow2(BitCount(q)) == 2 * Pow2(BitCount(q) - 1);
    if b < q { ModSmall(b, q); } else { DivModUnique(b, q, 1, b - q); }
  }

  /** bits2octets is the fixed-length encoding of bits2int reduced modulo q. */
  lemma Bits2OctetsReduces(bits: seq<byte>, q: nat)
    requires q > 0
    ensures Bits2Octets(bits, q) == ToBe(Bits2Int(bits, BitCount(q)) % q, ByteCount(q))
    ensures Be(Bits2Octets(bits, q)) == Bits2Int(bits, BitCount(q)) % q
  {
    hide Bits2Int, Int2Octets, Pow2, Pow256, Be, ToBe, BitCount, ByteCount;
    var v := Bits2Int(bits, BitCount(q));
    Bits2IntBound(bits, BitCount(q));
    OneSubtraction(v, q);
    Int2OctetsIsFixedLength(v % q, ByteCount(q));
    ByteCountBounds(q);
    BeToBeSmall(v % q, ByteCount(q));
  }

  /** How GenerateRandom presents the message representative to bits2octets. */
  function MessageOctets(e: nat, q: nat): seq<byte> {
    Bits2Octets(ToBe(e, MinEncodedSize(e)), q)
  }

  /** The standard's octets of e mod q come out when no bit of e's minimal encoding is shifted off. */
  lemma MessageOctetsReduce(e: nat, q: nat)
    requires q > 0 && 8 * MinEncodedSize(e) <= BitCount(q)
    ensures MessageOctets(e, q) == ToBe(e % q, ByteCount(q))
  {
    MinEncodedSizeFits(e);
    BeToBeSmall(e, MinEncodedSize(e));
    Bits2OctetsReduces(ToBe(e, MinEncodedSize(e)), q);
  }

  /** In particular for every representative below 2^qlen when qlen is a whole number of octets. */
  lemma MessageOctetsWholeOctets(e: nat, q: nat)
    requires q > 0 && BitCount(q) % 8 == 0 && e < Pow2(BitCount(q))
    ensures MessageOctets(e, q) == ToBe(e % q, ByteCount(q))
  {
    hide *;
    BitCountBounds(q);
    MinSizeFitsBits(e, BitCount(q));
    MessageOctetsReduce(e, q);
  }

  /**
   What a representative keeps: it has no octets that its bit length does not need, or what is
   shifted off happens to be a multiple of q.
   */
  predicate LosesNothing(e: nat, q: nat) {
    var m, b := 8 * MinEncodedSize(e), BitCount(q);
    e == 0 || m <= b || e - Shr(e, m - b) == q
  }

  /** The integer bits2octets makes of the minimal encoding. */
  lemma MessageOctetsAre(e: nat, q: nat)
    requires q > 0
    ensures var m, b := 8 * MinEncodedSize(e), BitCount(q);
      MessageOctets(e, q) == ToBe((if m > b then Shr(e, m - b) else e) % q, ByteCount(q))
  {
    hide Bits2Octets, ToBe, Be, Pow256, MinEncodedSize, Shr, BitCount, ByteCount;
    var m := MinEncodedSize(e);
    MinEncodedSizeFits(e);
    BeToBeSmall(e, m);
    Bits2OctetsReduces(ToBe(e, m), q);
  }

  lemma SameOctets(a: nat, b: nat, q: nat)
    requires q > 0
    ensures ToBe(a % q, ByteCount(q)) == ToBe(b % q, ByteCount(q)) <==> a % q == b % q
  {
    hide ToBe, ByteCount;
    ByteCountBounds(q);
    BeToBeSmall(a % q, ByteCount(q));
    BeToBeSmall(b % q, ByteCount(q));
  }

  /** Below 2^qlen one subtraction reduces, and half of it needs none. */
  lemma HalfIsReduced(e: nat, h: nat, q: nat)
    requires q > 0 && e < Pow2(BitCount(q)) && h <= e / 2
    ensures h % q == h && e % q == if e < q then e else e - q
  {
    BitCountBounds(q);
    assert Pow2(BitCount(q)) == 2 * Pow2(BitCount(q) - 1);
    ModSmall(h, q);
    OneSubtraction(e, q);
  }

  /** The standard's octets of e mod q come out, for every e below 2^qlen, exactly in these cases. */
  lemma MessageOctetsExactlyWhen(e: nat, q: nat)
    requires q > 0 && e < Pow2(BitCount(q))
    ensures MessageOctets(e, q) == ToBe(e % q, ByteCount(q)) <==> LosesNothing(e, q)
  {
    hide MessageOctets, MinEncodedSize, BitCount, ByteCount, ToBe, Pow2, Shr;
    var m, b := 8 * MinEncodedSize(e), BitCount(q);
    MessageOctetsAre(e, q);
    if m > b {
      var h := Shr(e, m - b);
      ShrShrinks(e, m - b);
      SameOctets(h, e, q);
      HalfIsReduced(e, h, q);
    }
  }

  /** With a three-bit q the representative 5 loses all its bits. */
  lemma MessageOctetsCanLoseBits()
    ensures MessageOctets(5, 7) == [0] && ToBe(5 % 7, ByteCount(7)) == [5]
  {
    assert BitCount(7) == 3;
    assert ByteCount(7) == 1;
    assert MinEncodedSize(5) == 1;
    BeToBeSmall(5, 1);
    assert Pow2(5) == 32;
    assert Bits2Int(ToBe(5, 1), 3) == 0;
    assert Int2Octets(0, 1) == [0];
  }

  // ----- the nonce (section 3.2)

  /** Steps (b) to (g): the seeding is that of HMAC_DRBG from all-zero key and all-one value. */
  function Seed(h: Hmac, x: nat, q: nat, e: nat): (seq<byte>, seq<byte>) {
    var bx := ToBe(x, if ByteCount(q) >= MinEncodedSize(x) then ByteCount(q) else MinEncodedSize(x));
    HmacDrbg.Updated(h, Repeat(0, h.size), Repeat(1, h.size), bx + MessageOctets(e, q), false)
  }

  /** Step (h): key and value before the n-th candidate. */
  function ChainState(h: Hmac, seed: (seq<byte>, seq<byte>), rlen: nat, n: nat): (seq<byte>, seq<byte>)
    requires h.size > 0
  {
    if n == 0 then seed else Advance(h, ChainState(h, seed, rlen, n - 1), rlen)
  }

  function Advance(h: Hmac, kv: (seq<byte>, seq<byte>), rlen: nat): (seq<byte>, seq<byte>)
    requires h.size > 0
  {
    HmacDrbg.Updated(h, kv.0, HmacDrbg.Chain(h, kv.0, kv.1, Blocks(rlen, h.size)), [], true)
  }

  ghost function Candidate(h: Hmac, kv: (seq<byte>, seq<byte>), q: nat): nat
    requires h.Valid()
  {
    Bits2Int(HmacDrbg.ChainStream(h, kv.0, kv.1, ByteCount(q)), BitCount(q))
  }

  predicate InRange(k: nat, q: nat) {
    0 < k < q
  }

  /** `k` is the first candidate of the chain that is in range. */
  ghost predicate FirstInRange(h: Hmac, seed: (seq<byte>, seq<byte>), q: nat, n: nat, k: nat)
    requires h.Valid()
  {
    && k == Candidate(h, ChainState(h, seed, ByteCount(q), n), q) && InRange(k, q)
    && forall m :: 0 <= m < n ==> !InRange(Candidate(h, ChainState(h, seed, ByteCount(q), m), q), q)
  }

  /** The chain has a candidate in range, the one with number `bound`. */
  ghost predicate Reaches(h: Hmac, x: nat, q: nat, e: nat, bound: nat) {
    && h.Valid()
    && InRange(Candidate(h, ChainState(h, Seed(h, x, q, e), ByteCount(q), bound), q), q)
  }

  /** At most one value can be the nonce. */
  lemma NonceIsUnique(h: Hmac, seed: (seq<byte>, seq<byte>), q: nat, n: nat, k: nat, n': nat, k': nat)
    requires h.Valid() && FirstInRange(h, seed, q, n, k) && FirstInRange(h, seed, q, n', k')
    ensures n == n' && k == k'
  {}

  // ----- the nonce, keyed digest by keyed digest

  /** One pass of step (h): the key, V before and after each keyed digest, the octets gathered, and k. */
  datatype Attempt = Attempt(key: seq<byte>, run: seq<seq<byte>>, gathered: seq<byte>, k: nat)

  /** As many digests as fill the length of q; k is the leftmost bits of what they fill it with. */
  ghost predicate Gathers(h: Hmac, q: nat, a: Attempt) {
    var rlen, qlen := ByteCount(q), BitCount(q);
    && h.size > 0 && HmacDrbg.KeyedRun(h, a.key, a.run) && |a.run| == 1 + Blocks(rlen, h.size)
    && |a.gathered| == rlen && CutFrom(a.gathered, a.run[1..], h.size)
    && qlen <= 8 * rlen && a.k == Be(a.gathered) / Pow2(8 * rlen - qlen)
  }

  /** After a rejected candidate: K = HMAC(K, V || 0), V = HMAC(K, V). */
  ghost predicate Follows(h: Hmac, a: Attempt, b: Attempt) {
    |a.run| > 0 && |b.run| > 0 &&
    var v := a.run[|a.run| - 1];
    b.key == h.mac(a.key, v + [0]) && b.run[0] == h.mac(b.key, v)
  }

  lemma LeftmostBits(bits: seq<byte>, qlen: nat)
    requires qlen <= 8 * |bits|
    ensures Bits2Int(bits, qlen) == Be(bits) / Pow2(8 * |bits| - qlen)
  {
    ShrIsQuotient(Be(bits), 8 * |bits| - qlen);
    assert Be(bits) / Pow2(0) == Be(bits);
  }

  lemma AttemptAt(h: Hmac, q: nat, kv: (seq<byte>, seq<byte>)) returns (a: Attempt)
    requires h.Valid()
    ensures AttemptFrom(h, q, kv, a)
  {
    hide HmacDrbg.KeyedRun, HmacDrbg.ChainStream, Blocks, CutFrom, BitCount, ByteCount, Bits2Int, Be, Pow2;
    var rlen := ByteCount(q);
    var run := HmacDrbg.RunOf(h, kv.0, kv.1, Blocks(rlen, h.size));
    HmacDrbg.ChainStreamIs(h, kv.0, run, rlen);
    HmacDrbg.ChainIsRun(h, kv.0, run, |run| - 1);
    ByteCountIsBits(q);
    LeftmostBits(HmacDrbg.ChainStream(h, kv.0, kv.1, rlen), BitCount(q));
    a := Attempt(kv.0, run, HmacDrbg.ChainStream(h, kv.0, kv.1, rlen), Candidate(h, kv, q));
  }

  /** The attempt from the state before the i-th candidate. */
  ghost predicate AttemptFrom(h: Hmac, q: nat, kv: (seq<byte>, seq<byte>), a: Attempt)
    requires h.Valid()
  {
    && Gathers(h, q, a) && a.key == kv.0 && a.run[0] == kv.1 && a.k == Candidate(h, kv, q)
    && a.run[|a.run| - 1] == HmacDrbg.Chain(h, kv.0, kv.1, Blocks(ByteCount(q), h.size))
  }

  lemma AttemptFollows(h: Hmac, q: nat, kv: (seq<byte>, seq<byte>), a: Attempt, b: Attempt)
    requires h.Valid() && AttemptFrom(h, q, kv, a) && AttemptFrom(h, q, Advance(h, kv, ByteCount(q)), b)
    ensures Follows(h, a, b)
  {
    hide HmacDrbg.KeyedRun, HmacDrbg.Chain, Blocks, CutFrom, BitCount, ByteCount, Candidate, Be, Pow2;
    var v := a.run[|a.run| - 1];
    assert v + [0] + [] == v + [0];
  }

  lemma {:induction false} AttemptsUpTo(h: Hmac, q: nat, seed: (seq<byte>, seq<byte>), n: nat) returns (attempts: seq<Attempt>)
    requires h.Valid()
    ensures |attempts| == n + 1
    ensures forall i :: 0 <= i <= n ==> AttemptFrom(h, q, ChainState(h, seed, ByteCount(q), i), attempts[i])
    ensures forall i :: 0 < i <= n ==> Follows(h, attempts[i - 1], attempts[i])
  {
    hide AttemptFrom, Advance, Follows, Gathers, Candidate, ByteCount;
    var a := AttemptAt(h, q, ChainState(h, seed, ByteCount(q), n));
    if n == 0 {
      attempts := [a];
    } else {
      var front := AttemptsUpTo(h, q, seed, n - 1);
      AttemptFollows(h, q, ChainState(h, seed, ByteCount(q), n - 1), front[n - 1], a);
      attempts := front + [a];
    }
  }

  lemma PrivateKeyOctets(x: nat, q: nat)
    requires q > 0
    ensures (if ByteCount(q) >= MinEncodedSize(x) then ByteCount(q) else MinEncodedSize(x))
         == if x < q then ByteCount(q) else MinEncodedSize(x)
  {
    ByteCountBounds(q);
    if x > 0 {
      ByteCountBounds(x);
      if x < q && ByteCount(q) < ByteCount(x) { Pow256Mono(ByteCount(q), ByteCount(x) - 1); }
      if x >= q && ByteCount(x) < ByteCount(q) { Pow256Mono(ByteCount(x), ByteCount(q) - 1); }
    }
  }

  /** What enters for the message: the leftmost bits of e's own octets, reduced once modulo q. */
  lemma MessageOctetsAreLeftmost(e: nat, q: nat)
    requires q > 0
    ensures var m, b := 8 * MinEncodedSize(e), BitCount(q);
      MessageOctets(e, q) == ToBe((if m > b then e / Pow2(m - b) else e) % q, ByteCount(q))
  {
    hide MessageOctets, ToBe, MinEncodedSize, BitCount, ByteCount, Shr, Pow2;
    MessageOctetsAre(e, q);
    var m, b := 8 * MinEncodedSize(e), BitCount(q);
    if m > b { ShrIsQuotient(e, m - b); }
  }

  /** Steps (d) to (g), from zeros and ones, with the private key in front of the message. */
  ghost predicate Starts(h: Hmac, bx: seq<byte>, bh: seq<byte>, key: seq<byte>, v: seq<byte>) {
    var k0, v0 := Repeat(0, h.size), Repeat(1, h.size);
    var k1 := h.mac(k0, v0 + [0] + bx + bh);
    var v1 := h.mac(k1, v0);
    key == h.mac(k1, v1 + [1] + bx + bh) && v == h.mac(key, v1)
  }

  lemma SeedStarts(h: Hmac, x: nat, q: nat, e: nat, bx: seq<byte>)
    requires q > 0 && bx == ToBe(x, if x < q then ByteCount(q) else MinEncodedSize(x))
    ensures Starts(h, bx, MessageOctets(e, q), Seed(h, x, q, e).0, Seed(h, x, q, e).1)
  {
    hide MessageOctets, ToBe, MinEncodedSize, ByteCount, Repeat;
    PrivateKeyOctets(x, q);
    var bh := MessageOctets(e, q);
    assert forall v: seq<byte> :: v + [0] + (bx + bh) == v + [0] + bx + bh;
    assert forall v: seq<byte> :: v + [1] + (bx + bh) == v + [1] + bx + bh;
  }

  /**
   Section 3.2 as a whole: the nonce is the k of the last of some attempts, the only one in
   range. The first attempt starts from steps (d) to (g), every other one follows the one before.
   */
  lemma NonceIs(h: Hmac, x: nat, q: nat, e: nat, k: nat, bx: seq<byte>, bh: seq<byte>) returns (attempts: seq<Attempt>)
    requires h.Valid() && exists n: nat :: FirstInRange(h, Seed(h, x, q, e), q, n, k)
    requires bx == ToBe(x, if x < q then ByteCount(q) else MinEncodedSize(x))
    requires q > 0
    requires var m, b := 8 * MinEncodedSize(e), BitCount(q);
      bh == ToBe((if m > b then e / Pow2(m - b) else e) % q, ByteCount(q))
    ensures |attempts| > 0 && attempts[|attempts| - 1].k == k
    ensures forall i :: 0 <= i < |attempts| ==> Gathers(h, q, attempts[i])
    ensures forall i :: 0 <= i < |attempts| ==> (0 < attempts[i].k < q <==> i == |attempts| - 1)
    ensures forall i :: 0 < i < |attempts| ==> Follows(h, attempts[i - 1], attempts[i])
    ensures |attempts[0].run| > 0 && Starts(h, bx, bh, attempts[0].key, attempts[0].run[0])
  {
    hide Seed, Starts, Candidate, Gathers, Follows, HmacDrbg.Chain, MessageOctets;
    hide MinEncodedSize, BitCount, ByteCount, ToBe, Pow2, Blocks;
    MessageOctetsAreLeftmost(e, q);
    var seed := Seed(h, x, q, e);
    var n: nat :| FirstInRange(h, seed, q, n, k);
    SeedStarts(h, x, q, e, bx);
    attempts := AttemptsUpTo(h, q, seed, n);
    RunIsNotEmpty(h, q, attempts[0]);
  }

  lemma RunIsNotEmpty(h: Hmac, q: nat, a: Attempt)
    requires Gathers(h, q, a)
    ensures |a.run| > 0
  {}

  /** One pass of the inner loop: `temp` from the value chain. */
  method FillCandidate(h: Hmac, k: seq<byte>, vIn: seq<byte>, temp: array<byte>) returns (v: seq<byte>)
    requires h.Valid() && |vIn| == h.size
    modifies temp
    ensures temp[..] == HmacDrbg.ChainStream(h, k, vIn, temp.Length)
    ensures v == HmacDrbg.Chain(h, k, vIn, Blocks(temp.Length, h.size)) && |v| == h.size
  {
    hide Filled, HmacDrbg.ChainStream, Blocks;
    HmacDrbg.ChainBlocksSized(h, k, vIn);
    ghost var f := HmacDrbg.ChainBlocks(h, k, vIn);
    FilledStart(temp[..], f, h.size);
    ghost var i: nat := 0;
    var toff: nat := 0;
    v := vIn;
    BlocksAt(0, 0, h.size);
    while toff < temp.Length
      invariant toff <= temp.Length && v == HmacDrbg.Chain(h, k, vIn, i)
      invariant |v| == h.size && Blocks(toff, h.size) == i
      invariant Filled(temp[..], f, h.size, i, toff)
    {
      v := h.mac(k, v);
      var cc := Min(|v|, temp.Length - toff);
      assert v == f(i);
      FilledNext(temp[..], f, h.size, i, toff, cc);
      BlocksAfter(temp[..], f, h.size, i, toff, cc);
      Put(temp, toff, v[..cc]);
      toff, i := toff + cc, i + 1;
    }
    HmacDrbg.ChainDone(h, k, vIn, temp[..], i);
  }

  /**
   The retry loop. It ends only if some candidate is in range; `bound` names one, and the
   loop is cut off nowhere before it.
   */
  method GenerateRandom(h: Hmac, x: nat, q: nat, e: nat, ghost bound: nat) returns (k: nat)
    requires Reaches(h, x, q, e, bound)
    ensures 0 < k < q
    ensures exists n: nat :: FirstInRange(h, Seed(h, x, q, e), q, n, k)
  {
    hide Bits2Int, MessageOctets, HmacDrbg.Chain, HmacDrbg.ChainStream, Blocks;
    var rlen := ByteCount(q);
    var seed := Seed(h, x, q, e);
    var key, v := seed.0, seed.1;
    ghost var n: nat := 0;
    var temp := new byte[rlen];
    v := FillCandidate(h, key, v, temp);
    k := Bits2Int(temp[..], BitCount(q));
    while !(k > 0 && k < q)
      invariant n <= bound && |v| == h.size
      invariant var kv := ChainState(h, seed, rlen, n);
        key == kv.0 && v == HmacDrbg.Chain(h, kv.0, kv.1, Blocks(rlen, h.size)) && k == Candidate(h, kv, q)
      invariant forall m :: 0 <= m < n ==> !InRange(Candidate(h, ChainState(h, seed, rlen, m), q), q)
      decreases bound - n
    {
      assert v + [0] + [] == v + [0];
      key := h.mac(key, v + [0]);
      v := h.mac(key, v);
      n := n + 1;
      assert (key, v) == ChainState(h, seed, rlen, n);
      v := FillCandidate(h, key, v, temp);
      k := Bits2Int(temp[..], BitCount(q));
    }
    assert FirstInRange(h, seed, q, n, k);
  }
}
