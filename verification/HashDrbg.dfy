/**
 Hash_DRBG (NIST SP 800-90A Rev. 1, sections 10.1.1 and 10.3.1): what the standard asks for
 as functions on states, and the generator object that updates its buffers in place.
 */
module HashDrbg {
  import opened Bytes
  import opened Streams
  import opened CarryAdd
  import opened NistDrbg

  /** The template parameters. */
  datatype Params = Params(hash: Hash, strength: nat, seedLength: nat) {
    ghost predicate Valid() {
      hash.Valid() && 8 <= hash.size <= seedLength
    }
  }

  datatype State = State(v: seq<byte>, c: seq<byte>, reseed: nat)

  // ----- the standard, on values

  function DfBlock(hash: Hash, counter: byte, outlen: nat, input: seq<byte>): seq<byte> {
    hash.digest([counter] + ToBe(outlen * 8, 4) + input)
  }

  /** Section 10.3.1: digests of counter, length in bits, and input. */
  ghost function DfBlocks(hash: Hash, input: seq<byte>, outlen: nat): nat -> seq<byte> {
    i => DfBlock(hash, Octet(1 + i), outlen, input)
  }

  lemma DfBlocksSized(hash: Hash, input: seq<byte>, outlen: nat)
    requires hash.Valid()
    ensures BlocksOf(DfBlocks(hash, input, outlen), hash.size)
  {
    var f := DfBlocks(hash, input, outlen);
    forall i: nat ensures |f(i)| == hash.size {
      assert f(i) == DfBlock(hash, Octet(1 + i), outlen, input);
    }
  }

  ghost function HashDf(hash: Hash, input: seq<byte>, outlen: nat): (s: seq<byte>)
    requires hash.Valid()
    ensures |s| == outlen
  {
    DfBlocksSized(hash, input, outlen);
    Take(DfBlocks(hash, input, outlen), hash.size, outlen)
  }

  ghost function Seeded(p: Params, material: seq<byte>): State
    requires p.Valid()
  {
    var v := HashDf(p.hash, material, p.seedLength);
    State(v, HashDf(p.hash, [0] + v, p.seedLength), 1)
  }

  ghost function Mixed(p: Params, v: seq<byte>, additional: Input): seq<byte> {
    if additional.Octets() == [] then v else Sum2(v, p.hash.digest([2] + v + additional.Octets()))
  }

  /** Step 3: digests of V, V + 1, V + 2, ... modulo 2^seedlen. */
  ghost function GenBlocks(hash: Hash, v: seq<byte>): nat -> seq<byte> {
    i => hash.digest(ToBe(Be(v) + i, |v|))
  }

  lemma GenBlocksSized(hash: Hash, v: seq<byte>)
    requires hash.Valid()
    ensures BlocksOf(GenBlocks(hash, v), hash.size)
  {
    var f := GenBlocks(hash, v);
    forall i: nat ensures |f(i)| == hash.size {
      assert f(i) == hash.digest(ToBe(Be(v) + i, |v|));
    }
  }

  ghost function HashStream(hash: Hash, v: seq<byte>, size: nat): (out: seq<byte>)
    requires hash.Valid()
    ensures |out| == size
  {
    GenBlocksSized(hash, v);
    Take(GenBlocks(hash, v), hash.size, size)
  }

  ghost function Output(p: Params, s: State, additional: Input, size: nat): (out: seq<byte>)
    requires p.Valid()
    ensures |out| == size
  {
    HashStream(p.hash, Mixed(p, s.v, additional), size)
  }

  ghost function Generated(p: Params, s: State, additional: Input): State {
    var v := Mixed(p, s.v, additional);
    State(Sum4(v, s.c, p.hash.digest([3] + v), s.reseed), s.c, s.reseed + 1)
  }

  ghost function Next(p: Params, s: State, op: Op): State
    requires p.Valid()
  {
    if Verdict(p.strength, s.reseed, op) != Accepted then s else
      match op
      case Instantiate(entropy, nonce, pers) => Seeded(p, entropy.Octets() + nonce.Octets() + pers.Octets())
      case Reseed(entropy, more) => Seeded(p, [1] + s.v + entropy.Octets() + more.Octets())
      case Generate(additional, _) => Generated(p, s, additional)
  }

  // ----- what every run keeps

  ghost predicate Sized(p: Params, s: State) {
    |s.v| == |s.c| == p.seedLength && s.reseed <= INT_MAX
  }

  ghost function Run(p: Params, s: State, ops: seq<Op>): State
    requires p.Valid()
  {
    if ops == [] then s else Next(p, Run(p, s, ops[..|ops| - 1]), ops[|ops| - 1])
  }

  /** Accepted generate requests since the last accepted (re)seeding of the run. */
  ghost function Served(p: Params, s: State, ops: seq<Op>): nat
    requires p.Valid()
  {
    if ops == [] then 0 else
      var front, op := ops[..|ops| - 1], ops[|ops| - 1];
      if Verdict(p.strength, Run(p, s, front).reseed, op) != Accepted then Served(p, s, front)
      else if op.Generate? then Served(p, s, front) + 1
      else 0
  }

  lemma NextKeepsSizes(p: Params, s: State, op: Op)
    requires p.Valid() && Sized(p, s)
    ensures Sized(p, Next(p, s, op))
  {}

  /** After an instantiation, over every run: lengths, limit, and what the counter counts. */
  lemma {:induction false} RunInvariant(p: Params, material: seq<byte>, ops: seq<Op>)
    requires p.Valid()
    ensures var s := Run(p, Seeded(p, material), ops);
      Sized(p, s) && s.reseed == 1 + Served(p, Seeded(p, material), ops)
  {
    var s0 := Seeded(p, material);
    if ops != [] {
      var front, op := ops[..|ops| - 1], ops[|ops| - 1];
      RunInvariant(p, material, front);
      NextKeepsSizes(p, Run(p, s0, front), op);
    }
  }

  /** Once the limit is reached every further request is refused until a reseed, without a change. */
  lemma {:induction false} ExhaustedStaysSo(p: Params, s: State, ops: seq<Op>)
    requires p.Valid() && s.reseed >= INT_MAX
    requires forall i :: 0 <= i < |ops| ==> ops[i].Generate?
    ensures Run(p, s, ops) == s
  {
    if ops != [] { ExhaustedStaysSo(p, s, ops[..|ops| - 1]); }
  }

  // ----- what one request returns

  /** A shorter request gets a prefix of a longer one, and leaves the same state. */
  lemma ShorterRequestIsPrefix(p: Params, s: State, additional: Input, a: nat, b: nat)
    requires p.Valid() && a <= b
    ensures Output(p, s, additional, a) == Output(p, s, additional, b)[..a]
    ensures b <= MAXIMUM_BYTES_PER_REQUEST ==>
      Next(p, s, Generate(additional, a)) == Next(p, s, Generate(additional, b))
  {
    GenBlocksSized(p.hash, Mixed(p, s.v, additional));
    TakePrefix(GenBlocks(p.hash, Mixed(p, s.v, additional)), p.hash.size, a, b);
  }

  /** Step 2 as the standard writes it: additional input adds one digest to V, modulo 2^(8 seedlen). */
  lemma MixedIsModularSum(p: Params, s: State, additional: Input)
    requires p.Valid() && Sized(p, s) && additional.Octets() != []
    ensures |Mixed(p, s.v, additional)| == p.seedLength
    ensures Be(Mixed(p, s.v, additional))
         == (Be(s.v) + Be(p.hash.digest([2] + s.v + additional.Octets()))) % Pow256(p.seedLength)
  {
    BeToBe(Be(s.v) + Be(p.hash.digest([2] + s.v + additional.Octets())), p.seedLength);
  }

  /** Steps 4-7 as the standard writes them: one sum modulo 2^(8 seedlen), from V after step 2. */
  lemma UpdateIsModularSum(p: Params, s: State, additional: Input)
    requires p.Valid() && Sized(p, s)
    ensures var v := Mixed(p, s.v, additional);
      Be(Generated(p, s, additional).v)
        == (Be(v) + Be(s.c) + Be(p.hash.digest([3] + v)) + s.reseed) % Pow256(p.seedLength)
  {
    var v := Mixed(p, s.v, additional);
    assert |v| == p.seedLength;
    BeToBe(Be(v) + Be(s.c) + Be(p.hash.digest([3] + v)) + s.reseed, p.seedLength);
  }

  /** Up to 255 digests the one-octet counter of the derivation function does not wrap. */
  lemma DfCounterDoesNotWrap(hash: Hash, input: seq<byte>, outlen: nat, i: nat)
    requires hash.Valid() && outlen <= 255 * hash.size && i < Blocks(outlen, hash.size)
    ensures 1 + i <= 255
    ensures DfBlocks(hash, input, outlen)(i) == hash.digest([1 + i] + ToBe(outlen * 8, 4) + input)
  {
    BlocksCover(outlen, hash.size);
    assert i < 255 by {
      if 255 <= i { MulLe(256, Blocks(outlen, hash.size), hash.size); }
    }
    assert Octet(1 + i) == 1 + i;
  }

  // ----- seeding and requests, digest by digest

  lemma DerivationIs(hash: Hash, input: seq<byte>, outlen: nat, i: nat, at: nat, count: nat)
    requires hash.Valid() && at == i * hash.size && count <= hash.size && at + count <= outlen
    ensures |hash.digest([Octet(1 + i)] + ToBe(outlen * 8, 4) + input)| == hash.size
    ensures HashDf(hash, input, outlen)[at..at + count]
         == hash.digest([Octet(1 + i)] + ToBe(outlen * 8, 4) + input)[..count]
  {
    hide Take, ToBe, Octet;
    DfBlocksSized(hash, input, outlen);
    TakeAt(DfBlocks(hash, input, outlen), hash.size, outlen, i, at, count);
  }

  lemma SeededIs(p: Params, material: seq<byte>, i: nat, at: nat, count: nat)
    requires p.Valid() && at == i * p.hash.size && count <= p.hash.size && at + count <= p.seedLength
    ensures var (s, n) := (Seeded(p, material), [Octet(1 + i)] + ToBe(p.seedLength * 8, 4));
      && |s.v| == |s.c| == p.seedLength && s.reseed == 1
      && |p.hash.digest(n + material)| == |p.hash.digest(n + ([0] + s.v))| == p.hash.size
      && s.v[at..at + count] == p.hash.digest(n + material)[..count]
      && s.c[at..at + count] == p.hash.digest(n + ([0] + s.v))[..count]
  {
    hide HashDf, ToBe, Octet;
    DerivationIs(p.hash, material, p.seedLength, i, at, count);
    DerivationIs(p.hash, [0] + Seeded(p, material).v, p.seedLength, i, at, count);
  }

  /**
   Section 10.1.1.2 in digests: block `i` of V and of C, or a refusal. `head` is the number of
   the block in one octet, and the length in bits.
   */
  lemma InstantiateIs(p: Params, s: State, entropy: Input, nonce: Input, personalization: Input,
                      head: seq<byte>, i: nat, at: nat, count: nat)
    requires p.Valid() && at == i * p.hash.size && count <= p.hash.size && at + count <= p.seedLength
    requires head == [Octet(1 + i)] + ToBe(p.seedLength * 8, 4)
    ensures var s' := Next(p, s, Instantiate(entropy, nonce, personalization));
      if entropy.Length() < p.strength then s' == s else
        && |s'.v| == |s'.c| == p.seedLength && s'.reseed == 1
        && (forall m :: |p.hash.digest(m)| == p.hash.size)
        && s'.v[at..at + count]
           == p.hash.digest(head + (entropy.Octets() + nonce.Octets() + personalization.Octets()))[..count]
        && s'.c[at..at + count] == p.hash.digest(head + ([0] + s'.v))[..count]
  {
    hide Seeded, ToBe, Octet;
    SeededIs(p, entropy.Octets() + nonce.Octets() + personalization.Octets(), i, at, count);
  }

  /** Section 10.1.1.3 in the same way: the old V goes in behind the octet 1. */
  lemma ReseedIs(p: Params, s: State, entropy: Input, more: Input, head: seq<byte>, i: nat, at: nat, count: nat)
    requires p.Valid() && at == i * p.hash.size && count <= p.hash.size && at + count <= p.seedLength
    requires head == [Octet(1 + i)] + ToBe(p.seedLength * 8, 4)
    ensures var s' := Next(p, s, Reseed(entropy, more));
      if entropy.Length() < p.strength then s' == s else
        && |s'.v| == |s'.c| == p.seedLength && s'.reseed == 1
        && (forall m :: |p.hash.digest(m)| == p.hash.size)
        && s'.v[at..at + count] == p.hash.digest(head + ([1] + s.v + entropy.Octets() + more.Octets()))[..count]
        && s'.c[at..at + count] == p.hash.digest(head + ([0] + s'.v))[..count]
  {
    hide Seeded, ToBe, Octet;
    SeededIs(p, [1] + s.v + entropy.Octets() + more.Octets(), i, at, count);
  }

  /** V after step 2: the string of the old value, plus one digest if there is additional input. */
  ghost predicate AfterStep2(p: Params, s: State, additional: Input, v: seq<byte>) {
    var w := if additional.Octets() == [] then 0 else Be(p.hash.digest([2] + s.v + additional.Octets()));
    |v| == p.seedLength && Be(v) == (Be(s.v) + w) % Pow256(p.seedLength)
  }

  lemma Step2IsMixed(p: Params, s: State, additional: Input, v: seq<byte>)
    requires p.Valid() && Sized(p, s) && AfterStep2(p, s, additional, v)
    ensures v == Mixed(p, s.v, additional)
  {
    hide Sum2, Pow256;
    if additional.Octets() == [] {
      BeBound(s.v);
      DivModUnique(Be(s.v), Pow256(p.seedLength), 0, Be(s.v));
    } else {
      MixedIsModularSum(p, s, additional);
    }
    BeInjective(v, Mixed(p, s.v, additional));
  }

  /** Section 10.1.1.4, steps 1 and 4 to 7: the state after a request, or a refusal. */
  lemma GenerateIs(p: Params, s: State, additional: Input, size: nat, v: seq<byte>)
    requires p.Valid() && Sized(p, s) && AfterStep2(p, s, additional, v)
    ensures var s' := Next(p, s, Generate(additional, size));
      if s.reseed >= 0x7fff_ffff || size > 65536 then s' == s else
        && |s'.v| == p.seedLength && s'.c == s.c && s'.reseed == s.reseed + 1
        && Be(s'.v) == (Be(v) + Be(s.c) + Be(p.hash.digest([3] + v)) + s.reseed) % Pow256(p.seedLength)
  {
    hide AfterStep2, Be, Pow256, Sum4;
    Step2IsMixed(p, s, additional, v);
    UpdateIsModularSum(p, s, additional);
    NextKeepsSizes(p, s, Generate(additional, size));
  }

  /**
   Step 3 in digests: block `i` of the output is the digest of the string whose value is V + i
   modulo 2^(8 seedlen), counted from zero.
   */
  lemma OutputIs(p: Params, s: State, additional: Input, size: nat, v: seq<byte>, i: nat, u: seq<byte>, at: nat, count: nat)
    requires p.Valid() && Sized(p, s) && AfterStep2(p, s, additional, v)
    requires |u| == p.seedLength && Be(u) == (Be(v) + i) % Pow256(p.seedLength)
    requires at == i * p.hash.size && count <= p.hash.size && at + count <= size
    ensures |p.hash.digest(u)| == p.hash.size
    ensures Output(p, s, additional, size)[at..at + count] == p.hash.digest(u)[..count]
  {
    hide AfterStep2, Take, Be, ToBe, Pow256, Mixed;
    Step2IsMixed(p, s, additional, v);
    var f := GenBlocks(p.hash, v);
    GenBlocksSized(p.hash, v);
    BeToBe(Be(v) + i, p.seedLength);
    BeInjective(u, ToBe(Be(v) + i, p.seedLength));
    assert f(i) == p.hash.digest(u) by { AfterStep2Sized(p, s, additional, v); }
    TakeAt(f, p.hash.size, size, i, at, count);
  }

  lemma AfterStep2Sized(p: Params, s: State, additional: Input, v: seq<byte>)
    requires AfterStep2(p, s, additional, v)
    ensures |v| == p.seedLength
  {}

  /** A request of at most one digest gets the digest of V itself. */
  lemma ShortOutputIs(p: Params, s: State, additional: Input, size: nat, v: seq<byte>)
    requires p.Valid() && Sized(p, s) && AfterStep2(p, s, additional, v) && size <= p.hash.size
    ensures |p.hash.digest(v)| == p.hash.size
    ensures Output(p, s, additional, size) == p.hash.digest(v)[..size]
  {
    AfterStep2Sized(p, s, additional, v);
    BeBound(v);
    DivModUnique(Be(v), Pow256(p.seedLength), 0, Be(v));
    hide AfterStep2, Sized, Output, Be, Pow256;
    OutputIs(p, s, additional, size, v, 0, v, 0, size);
    assert Output(p, s, additional, size)[0..size] == Output(p, s, additional, size);
  }

  // ----- loops

  lemma CounterStopped(v: seq<byte>, v0: seq<byte>, n: nat)
    requires Untouched(v, v0, n) && Amounts(v, n, 0, Be(v0[n..]) + 1)
    ensures v == ToBe(Be(v0) + 1, |v|)
  {
    var hi, lo, lo0 := v[..n], v[n..], v0[n..];
    assert v == hi + lo && v0 == hi + lo0;
    BeConcat(hi, lo);
    BeConcat(hi, lo0);
    ToBeBe(v);
    hide Be, ToBe, Pow256;
    assert Be(v) == Be(v0) + 1;
  }

  lemma CounterDone(v: seq<byte>, v0: seq<byte>, i: int, carry: nat)
    requires -1 <= i < |v| && Untouched(v, v0, i + 1)
    requires Amounts(v, i + 1, carry, Be(v0[i + 1..]) + 1)
    requires i == -1 || carry == 0
    ensures v == ToBe(Be(v0) + 1, |v|)
  {
    hide Amounts, Be, ToBe;
    if carry == 0 {
      CounterStopped(v, v0, i + 1);
    } else {
      assert v0[0..] == v0;
      CutTo(v, carry, Be(v0) + 1);
    }
  }

  /** IncrementCounterByOne: stops as soon as a column does not overflow. */
  method IncrementCounterByOne(v: array<byte>)
    modifies v
    ensures v[..] == ToBe(Be(old(v[..])) + 1, v.Length)
  {
    hide Amounts, Be, Pow256, ToBe;
    ghost var v0: seq<byte> := v[..];
    var i, carry := IncrementColumns(v);
    CounterDone(v[..], v0, i, carry);
  }

  lemma CounterStart(v: seq<byte>)
    ensures Amounts(v, |v|, 1, Be(v[|v|..]) + 1)
  {}

  method IncrementColumns(v: array<byte>) returns (i: int, carry: nat)
    modifies v
    ensures -1 <= i < v.Length && (i == -1 || carry == 0)
    ensures Untouched(v[..], old(v[..]), i + 1)
    ensures Amounts(v[..], i + 1, carry, Be(old(v[..])[i + 1..]) + 1)
  {
    hide Amounts, Be, Pow256;
    ghost var v0: seq<byte> := v[..];
    i, carry := v.Length - 1, 1;
    CounterStart(v0);
    while i >= 0 && carry != 0
      invariant -1 <= i < v.Length && carry <= 1
      invariant Untouched(v[..], v0, i + 1)
      invariant Amounts(v[..], i + 1, carry, Be(v0[i + 1..]) + 1)
      decreases i + 1
    {
      Column1(v[..], v0, i, carry, 1);
      ghost var before: seq<byte> := v[..];
      v[i] := Octet(1 + v[i] as int);
      carry := if v[i] == 0 then 1 else 0;
      assert v[..] == before[i := Octet(1 + v0[i] as int)];
      i := i - 1;
    }
  }

  /** Hash_Update: the derivation function, writing `output` from left to right. */
  method HashUpdate(hash: Hash, in1: Input, in2: Input, in3: Input, in4: Input, output: array<byte>)
    requires hash.Valid()
    modifies output
    ensures output[..] == HashDf(hash, in1.Octets() + in2.Octets() + in3.Octets() + in4.Octets(), output.Length)
  {
    FillFromDf(hash, in1.Octets() + in2.Octets() + in3.Octets() + in4.Octets(), output);
  }

  method FillFromDf(hash: Hash, input: seq<byte>, output: array<byte>)
    requires hash.Valid()
    modifies output
    ensures output[..] == HashDf(hash, input, output.Length)
  {
    hide Filled, HashDf, DfBlock, DfBlocks, Octet;
    DfBlocksSized(hash, input, output.Length);
    OctetNext(0);
    ghost var f := DfBlocks(hash, input, output.Length);
    FilledStart(output[..], f, hash.size);
    ghost var i: nat := 0;
    var counter: byte, pos: nat := 1, 0;
    while pos < output.Length
      invariant pos <= output.Length && counter == Octet(1 + i)
      invariant Filled(output[..], f, hash.size, i, pos)
    {
      var digest := DfBlock(hash, counter, output.Length, input);
      var count := Min(output.Length - pos, hash.size);
      DfBlockIs(hash, input, output.Length, i);
      OctetNext(i);
      FilledNext(output[..], f, hash.size, i, pos, count);
      Put(output, pos, digest[..count]);
      pos, i := pos + count, i + 1;
      counter := Octet(1 + counter as int);
    }
    DfDone(hash, input, output[..], i);
  }

  lemma DfBlockIs(hash: Hash, input: seq<byte>, outlen: nat, i: nat)
    ensures DfBlocks(hash, input, outlen)(i) == DfBlock(hash, Octet(1 + i), outlen, input)
  {}

  lemma OctetNext(i: nat)
    ensures Octet(1) == 1 && Octet(1 + Octet(1 + i) as int) == Octet(1 + (i + 1))
  {}

  lemma DfDone(hash: Hash, input: seq<byte>, out: seq<byte>, i: nat)
    requires hash.Valid() && Filled(out, DfBlocks(hash, input, |out|), hash.size, i, |out|)
    ensures out == HashDf(hash, input, |out|)
  {
    FilledAll(out, DfBlocks(hash, input, |out|), hash.size, i);
  }

  /** Step 3: the caller's buffer from digests of a running copy of V. */
  method HashGen(hash: Hash, data: array<byte>, output: array<byte>)
    requires hash.Valid() && data != output
    modifies data, output
    ensures output[..] == HashStream(hash, old(data[..]), output.Length)
  {
    hide Filled, ToBe, Be, HashStream;
    ghost var v0: seq<byte> := data[..];
    GenBlocksSized(hash, v0);
    ghost var f := GenBlocks(hash, v0);
    FilledStart(output[..], f, hash.size);
    ghost var i: nat := 0;
    var pos: nat := 0;
    ToBeBe(v0);
    while pos < output.Length
      invariant pos <= output.Length && data[..] == ToBe(Be(v0) + i, |v0|)
      invariant Filled(output[..], f, hash.size, i, pos)
    {
      var digest := hash.digest(data[..]);
      var count := Min(output.Length - pos, hash.size);
      assert digest == f(i);
      FilledNext(output[..], f, hash.size, i, pos, count);
      Put(output, pos, digest[..count]);
      IncrementCounterByOne(data);
      ToBeAdd(Be(v0) + i, 1, |v0|);
      pos, i := pos + count, i + 1;
    }
    GenDone(hash, v0, output[..], i);
  }

  lemma GenDone(hash: Hash, v: seq<byte>, out: seq<byte>, i: nat)
    requires hash.Valid() && Filled(out, GenBlocks(hash, v), hash.size, i, |out|)
    ensures out == HashStream(hash, v, |out|)
  {
    FilledAll(out, GenBlocks(hash, v), hash.size, i);
  }

  // ----- the generator object

  class Generator {
    const p: Params
    const build: Build
    var mV: array<byte>
    var mC: array<byte>
    var mReseed: nat

    ghost predicate Valid()
      reads this, mV, mC
    {
      p.Valid() && mV != mC && Sized(p, Value())
    }

    ghost function Value(): State
      reads this, mV, mC
    {
      State(mV[..], mC[..], mReseed)
    }

    /** Buffers without a seed, and a zero counter. */
    constructor (p: Params, build: Build)
      requires p.Valid()
      ensures Valid() && fresh(mV) && fresh(mC)
      ensures this.p == p && this.build == build && mReseed == 0
    {
      this.p, this.build, mReseed := p, build, 0;
      mV := new byte[p.seedLength];
      mC := new byte[p.seedLength];
    }

    /** The source's constructor: entropy, if there is any, instantiates; a refusal leaves no generator. */
    static method Create(p: Params, build: Build, entropy: Input, nonce: Input, personalization: Input)
      returns (r: Outcome, g: Generator?)
      requires p.Valid()
      ensures r == if entropy.Octets() == [] then Accepted
                   else Verdict(p.strength, 0, Instantiate(entropy, nonce, personalization))
      ensures r == Accepted <==> g != null
      ensures g != null ==> (
        && g.Valid() && fresh(g) && fresh(g.mV) && fresh(g.mC) && g.p == p && g.build == build
        && (entropy.Octets() == [] ==> g.mReseed == 0)
        && (entropy.Octets() != [] ==>
              g.Value() == Seeded(p, entropy.Octets() + nonce.Octets() + personalization.Octets())))
    {
      hide Seeded;
      var unseeded := new Generator(p, build);
      r := Accepted;
      if entropy.Given? && entropy.Length() != 0 {
        r := unseeded.DrbgInstantiate(entropy, nonce, personalization);
      }
      g := if r == Accepted then unseeded else null;
    }

    /** Shared by Instantiate and Reseed: two derivations, and the buffers are exchanged. */
    method SeedFrom(in1: Input, in2: Input, in3: Input, in4: Input)
      requires Valid()
      modifies this
      ensures Valid() && fresh(mV) && fresh(mC)
      ensures Value() == Seeded(p, in1.Octets() + in2.Octets() + in3.Octets() + in4.Octets())
    {
      hide HashDf;
      var t1, t2 := new byte[p.seedLength], new byte[p.seedLength];
      HashUpdate(p.hash, in1, in2, in3, in4, t1);
      HashUpdate(p.hash, Given([0]), Given(t1[..]), Null(0), Null(0), t2);
      assert [0] + t1[..] + [] + [] == [0] + t1[..];
      mV, mC, mReseed := t1, t2, 1;
    }

    method DrbgInstantiate(entropy: Input, nonce: Input, personalization: Input) returns (r: Outcome)
      requires Valid()
      modifies this
      ensures Valid() && (mV == old(mV) || fresh(mV)) && (mC == old(mC) || fresh(mC))
      ensures r == Verdict(p.strength, old(mReseed), Instantiate(entropy, nonce, personalization))
      ensures Value() == Next(p, old(Value()), Instantiate(entropy, nonce, personalization))
    {
      hide Seeded;
      if entropy.Length() < p.strength { return InsufficientEntropy; }
      SeedFrom(entropy, nonce, personalization, Null(0));
      assert entropy.Octets() + nonce.Octets() + personalization.Octets() + []
          == entropy.Octets() + nonce.Octets() + personalization.Octets();
      r := Accepted;
    }

    method DrbgReseed(entropy: Input, additional: Input) returns (r: Outcome)
      requires Valid()
      modifies this
      ensures Valid() && (mV == old(mV) || fresh(mV)) && (mC == old(mC) || fresh(mC))
      ensures r == Verdict(p.strength, old(mReseed), Reseed(entropy, additional))
      ensures Value() == Next(p, old(Value()), Reseed(entropy, additional))
    {
      hide Seeded;
      if entropy.Length() < p.strength { return InsufficientEntropy; }
      SeedFrom(Given([1]), Given(mV[..]), entropy, additional);
      r := Accepted;
    }

    method HashGenerate(additional: Input, output: array<byte>) returns (r: Outcome)
      requires Valid() && output != mV && output != mC
      modifies this`mReseed, mV, output
      ensures Valid()
      ensures r == Verdict(p.strength, old(mReseed), Generate(additional, output.Length))
      ensures Value() == Next(p, old(Value()), Generate(additional, output.Length))
      ensures r == Accepted ==> output[..] == Output(p, old(Value()), additional, output.Length)
      ensures r != Accepted ==> output[..] == old(output[..])
    {
      hide Sum2, Sum4, HashStream;
      if mReseed >= INT_MAX { return ReseedRequired; }
      if output.Length > MAXIMUM_BYTES_PER_REQUEST { return RequestTooLarge; }
      ghost var s := Value();
      if additional.Given? && additional.Length() != 0 {
        var w := p.hash.digest([2] + mV[..] + additional.Octets());
        AddDigest(mV, w);
      }
      ghost var v := Mixed(p, s.v, additional);
      assert mV[..] == v;
      var data := new byte[mV.Length](i requires 0 <= i < mV.Length reads this, mV => mV[i]);
      assert data[..] == v;
      HashGen(p.hash, data, output);
      var h := p.hash.digest([3] + mV[..]);
      AddState(mV, mC[..], h, mReseed, build);
      mReseed := mReseed + 1;
      r := Accepted;
    }
  }
}
