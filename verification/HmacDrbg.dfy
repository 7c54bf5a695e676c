/**
 HMAC_DRBG (NIST SP 800-90A Rev. 1, section 10.1.2): the standard on values, and the
 generator object over its two buffers.
 */
module HmacDrbg {
  import opened Bytes
  import opened Streams
  import opened NistDrbg

  datatype Params = Params(hmac: Hmac, strength: nat) {
    ghost predicate Valid() {
      hmac.Valid()
    }
  }

  datatype State = State(k: seq<byte>, v: seq<byte>, reseed: nat)

  // ----- the standard, on values

  /** Section 10.1.2.2: key and value after an update; `empty` skips the second half. */
  function Updated(h: Hmac, k: seq<byte>, v: seq<byte>, data: seq<byte>, empty: bool): (seq<byte>, seq<byte>) {
    var k1 := h.mac(k, v + [0] + data);
    var v1 := h.mac(k1, v);
    if empty then (k1, v1) else
      var k2 := h.mac(k1, v1 + [1] + data);
      (k2, h.mac(k2, v1))
  }

  /** V after `i` applications of the keyed hash. */
  function Chain(h: Hmac, k: seq<byte>, v: seq<byte>, i: nat): seq<byte> {
    if i == 0 then v else h.mac(k, Chain(h, k, v, i - 1))
  }

  ghost function ChainBlocks(h: Hmac, k: seq<byte>, v: seq<byte>): nat -> seq<byte> {
    i => Chain(h, k, v, i + 1)
  }

  lemma ChainBlocksSized(h: Hmac, k: seq<byte>, v: seq<byte>)
    requires h.Valid()
    ensures BlocksOf(ChainBlocks(h, k, v), h.size)
  {
    var f := ChainBlocks(h, k, v);
    forall i: nat ensures |f(i)| == h.size {
      assert f(i) == h.mac(k, Chain(h, k, v, i));
    }
  }

  ghost function ChainStream(h: Hmac, k: seq<byte>, v: seq<byte>, size: nat): (out: seq<byte>)
    requires h.Valid()
    ensures |out| == size
  {
    ChainBlocksSized(h, k, v);
    Take(ChainBlocks(h, k, v), h.size, size)
  }

  function Mixed(h: Hmac, s: State, additional: Input): (seq<byte>, seq<byte>) {
    if additional.Octets() == [] then (s.k, s.v) else Updated(h, s.k, s.v, additional.Octets(), false)
  }

  ghost function Output(p: Params, s: State, additional: Input, size: nat): (out: seq<byte>)
    requires p.Valid()
    ensures |out| == size
  {
    var (k, v) := Mixed(p.hmac, s, additional);
    ChainStream(p.hmac, k, v, size)
  }

  function Seeded(h: Hmac, k: seq<byte>, v: seq<byte>, data: seq<byte>, empty: bool): State {
    var (k', v') := Updated(h, k, v, data, empty);
    State(k', v', 1)
  }

  function Next(p: Params, s: State, op: Op): State
    requires p.hmac.size > 0
  {
    var h := p.hmac;
    if Verdict(p.strength, s.reseed, op) != Accepted then s else
      match op
      case Instantiate(entropy, nonce, pers) =>
        Seeded(h, Repeat(0, h.size), Repeat(1, h.size), entropy.Octets() + nonce.Octets() + pers.Octets(),
               entropy.Length() == nonce.Length() == pers.Length() == 0)
      case Reseed(entropy, more) =>
        Seeded(h, s.k, s.v, entropy.Octets() + more.Octets(), entropy.Length() == more.Length() == 0)
      case Generate(additional, size) =>
        var (k, v) := Mixed(h, s, additional);
        var (k', v') := Updated(h, k, Chain(h, k, v, Blocks(size, h.size)), additional.Octets(), additional.Length() == 0);
        State(k', v', s.reseed + 1)
  }

  // ----- what every run keeps

  ghost predicate Sized(p: Params, s: State) {
    |s.k| == |s.v| == p.hmac.size && s.reseed <= INT_MAX
  }

  function Run(p: Params, s: State, ops: seq<Op>): State
    requires p.hmac.size > 0
  {
    if ops == [] then s else Next(p, Run(p, s, ops[..|ops| - 1]), ops[|ops| - 1])
  }

  /** Accepted generate requests since the last accepted (re)seeding of the run. */
  function Served(p: Params, s: State, ops: seq<Op>): nat
    requires p.hmac.size > 0
  {
    if ops == [] then 0 else
      var front, op := ops[..|ops| - 1], ops[|ops| - 1];
      if Verdict(p.strength, Run(p, s, front).reseed, op) != Accepted then Served(p, s, front)
      else if op.Generate? then Served(p, s, front) + 1
      else 0
  }

  lemma NextKeepsSizes(p: Params, s: State, op: Op)
    requires p.Valid() && Sized(p, s)
    ensures Sized(p, Next(p, s, op))
  {}

  lemma {:induction false} RunFrom(p: Params, s: State, ops: seq<Op>)
    requires p.Valid() && Sized(p, s) && s.reseed == 1
    ensures Sized(p, Run(p, s, ops)) && Run(p, s, ops).reseed == 1 + Served(p, s, ops)
  {
    if ops != [] {
      var front, op := ops[..|ops| - 1], ops[|ops| - 1];
      RunFrom(p, s, front);
      NextKeepsSizes(p, Run(p, s, front), op);
    }
  }

  /** After any accepted instantiation or reseeding, over every run. */
  lemma RunInvariant(p: Params, s: State, seeding: Op, ops: seq<Op>)
    requires p.Valid() && Sized(p, s) && !seeding.Generate? && Verdict(p.strength, s.reseed, seeding) == Accepted
    ensures var s0 := Next(p, s, seeding);
      Sized(p, Run(p, s0, ops)) && Run(p, s0, ops).reseed == 1 + Served(p, s0, ops)
  {
    NextKeepsSizes(p, s, seeding);
    RunFrom(p, Next(p, s, seeding), ops);
  }

  // ----- what one request returns

  /** A shorter request gets a prefix of what a longer one gets. */
  lemma ShorterRequestIsPrefix(p: Params, s: State, additional: Input, a: nat, b: nat)
    requires p.Valid() && a <= b
    ensures Output(p, s, additional, a) == Output(p, s, additional, b)[..a]
  {
    var (k, v) := Mixed(p.hmac, s, additional);
    ChainBlocksSized(p.hmac, k, v);
    TakePrefix(ChainBlocks(p.hmac, k, v), p.hmac.size, a, b);
  }

  /** The next state depends on the request size only through its number of digests. */
  lemma NextDependsOnBlocks(p: Params, s: State, additional: Input, a: nat, b: nat, n: nat)
    requires p.Valid() && a <= MAXIMUM_BYTES_PER_REQUEST && b <= MAXIMUM_BYTES_PER_REQUEST
    requires var lo := n * p.hmac.size; lo < a <= lo + p.hmac.size && lo < b <= lo + p.hmac.size
    ensures Next(p, s, Generate(additional, a)) == Next(p, s, Generate(additional, b))
  {
    BlocksExact(n, p.hmac.size, a - n * p.hmac.size);
    BlocksExact(n, p.hmac.size, b - n * p.hmac.size);
  }

  /** Absent input is the same for the output, whatever length comes with it. */
  lemma NullIsUnused(p: Params, s: State, n: nat, size: nat)
    requires p.Valid()
    ensures Output(p, s, Null(n), size) == Output(p, s, Null(0), size)
  {}

  /** A keyed hash that tells the two halves of an update apart: the last octet of the message. */
  function LastOctet(key: seq<byte>, message: seq<byte>): (tag: seq<byte>)
    ensures |tag| == 1
  {
    [if message == [] then 0 else message[|message| - 1]]
  }

  /** A key that went through both halves is not the one that went through the first only. */
  lemma SecondHalfShows(n: nat, size: nat)
    requires n > 0 && size <= MAXIMUM_BYTES_PER_REQUEST
    ensures var p, s := Params(Hmac(1, LastOctet), 0), State([0], [0], 1);
      && p.Valid() && Sized(p, s) && s.reseed < INT_MAX
      && Next(p, s, Generate(Null(n), size)).k == [1] && Next(p, s, Generate(Null(0), size)).k == [0]
  {
    var h := Hmac(1, LastOctet);
    var v := Chain(h, [0], [0], Blocks(size, 1));
    assert v + [0] + [] == v + [0];
    var v1 := h.mac(h.mac([0], v + [0]), v);
    assert v1 + [1] + [] == v1 + [1];
    hide Chain, Blocks;
  }

  /**
   The next state is the same with a length as without, for all keyed hashes and states,
   exactly when the length is zero or the request is refused anyway: an update skips its
   second half on a zero length, not on absent input.
   */
  lemma NullWithLengthExactlyWhen(n: nat, size: nat)
    ensures (forall p: Params, s: State :: p.Valid() && Sized(p, s) && s.reseed < INT_MAX ==>
                Next(p, s, Generate(Null(n), size)) == Next(p, s, Generate(Null(0), size)))
       <==> n == 0 || size > MAXIMUM_BYTES_PER_REQUEST
  {
    hide Updated, Chain, Blocks, Sized;
    if n > 0 && size <= MAXIMUM_BYTES_PER_REQUEST {
      SecondHalfShows(n, size);
      var p, s := Params(Hmac(1, LastOctet), 0), State([0], [0], 1);
      assert Next(p, s, Generate(Null(n), size)) != Next(p, s, Generate(Null(0), size));
    }
  }

  // ----- seeding and requests, keyed digest by keyed digest

  /** Section 10.1.2.3: from zeros and ones. Without any input the second half is left out. */
  lemma InstantiateIs(p: Params, s: State, entropy: Input, nonce: Input, personalization: Input)
    requires p.Valid()
    ensures var (s', mac) := (Next(p, s, Instantiate(entropy, nonce, personalization)), p.hmac.mac);
      var data := entropy.Octets() + nonce.Octets() + personalization.Octets();
      var k0, v0 := Repeat(0, p.hmac.size), Repeat(1, p.hmac.size);
      var k1 := mac(k0, v0 + [0] + data);
      var v1 := mac(k1, v0);
      var k2 := mac(k1, v1 + [1] + data);
      var v2 := mac(k2, v1);
      if entropy.Length() < p.strength then s' == s
      else if entropy.Length() + nonce.Length() + personalization.Length() == 0 then s' == State(k1, v1, 1)
      else s' == State(k2, v2, 1)
  {}

  /** Section 10.1.2.4: the same from the old key and value. */
  lemma ReseedIs(p: Params, s: State, entropy: Input, more: Input)
    requires p.Valid()
    ensures var (s', mac, data) := (Next(p, s, Reseed(entropy, more)), p.hmac.mac, entropy.Octets() + more.Octets());
      var k1 := mac(s.k, s.v + [0] + data);
      var v1 := mac(k1, s.v);
      var k2 := mac(k1, v1 + [1] + data);
      var v2 := mac(k2, v1);
      if entropy.Length() < p.strength then s' == s
      else if entropy.Length() + more.Length() == 0 then s' == State(k1, v1, 1)
      else s' == State(k2, v2, 1)
  {}

  /** Key and value after step 2 of a request. */
  ghost predicate AfterStep2(h: Hmac, s: State, data: seq<byte>, k: seq<byte>, v: seq<byte>) {
    if data == [] then k == s.k && v == s.v else
      var k1 := h.mac(s.k, s.v + [0] + data);
      var v1 := h.mac(k1, s.v);
      k == h.mac(k1, v1 + [1] + data) && v == h.mac(k, v1)
  }

  /** Every string after the first is the keyed digest of the one before. */
  ghost predicate KeyedRun(h: Hmac, k: seq<byte>, run: seq<seq<byte>>) {
    |run| > 0 && forall i :: 0 < i < |run| ==> run[i] == h.mac(k, run[i - 1])
  }

  lemma {:induction false} ChainIsRun(h: Hmac, k: seq<byte>, run: seq<seq<byte>>, i: nat)
    requires KeyedRun(h, k, run) && i < |run|
    ensures Chain(h, k, run[0], i) == run[i]
  {
    if i > 0 { ChainIsRun(h, k, run, i - 1); }
  }

  /** Output made from a run: its strings after the first, cut. */
  lemma ChainStreamIs(h: Hmac, k: seq<byte>, run: seq<seq<byte>>, size: nat)
    requires h.Valid() && KeyedRun(h, k, run) && |run| == 1 + Blocks(size, h.size)
    ensures CutFrom(ChainStream(h, k, run[0], size), run[1..], h.size)
  {
    hide KeyedRun, Blocks, Take, CutFrom;
    ChainBlocksSized(h, k, run[0]);
    var f := ChainBlocks(h, k, run[0]);
    forall i | 0 <= i < |run| - 1 ensures run[1..][i] == f(i) {
      ChainIsRun(h, k, run, i + 1);
    }
    TakeIsCut(f, h.size, size, run[1..]);
  }

  /**
   Section 10.1.2.5: `run` starts from V after step 2 and has one keyed digest for each piece of
   the output. The output is cut from those digests, and the final update starts from the last.
   */
  lemma GenerateIs(p: Params, s: State, additional: Input, size: nat, k: seq<byte>, run: seq<seq<byte>>)
    requires p.Valid() && KeyedRun(p.hmac, k, run) && |run| == 1 + Blocks(size, p.hmac.size)
    requires AfterStep2(p.hmac, s, additional.Octets(), k, run[0])
    ensures CutFrom(Output(p, s, additional, size), run[1..], p.hmac.size)
    ensures var (s', mac, data) := (Next(p, s, Generate(additional, size)), p.hmac.mac, additional.Octets());
      var last := run[|run| - 1];
      var k1 := mac(k, last + [0] + data);
      var v1 := mac(k1, last);
      var k2 := mac(k1, v1 + [1] + data);
      var v2 := mac(k2, v1);
      if s.reseed >= 0x7fff_ffff || size > 65536 then s' == s
      else if additional.Length() == 0 then s' == State(k1, v1, s.reseed + 1)
      else s' == State(k2, v2, s.reseed + 1)
  {
    assert (k, run[0]) == Mixed(p.hmac, s, additional);
    ChainStreamIs(p.hmac, k, run, size);
    ChainIsRun(p.hmac, k, run, |run| - 1);
    hide KeyedRun, Blocks, CutFrom, ChainStream, Chain, AfterStep2, Mixed;
  }

  /** Such a run there is for every request. */
  lemma RunOf(h: Hmac, k: seq<byte>, v: seq<byte>, n: nat) returns (run: seq<seq<byte>>)
    ensures |run| == n + 1 && run[0] == v && KeyedRun(h, k, run)
  {
    run := [v];
    for i := 0 to n
      invariant |run| == i + 1 && run[0] == v && KeyedRun(h, k, run)
    {
      run := run + [h.mac(k, run[i])];
    }
  }

  // ----- the generator object

  class Generator {
    const p: Params
    var mK: array<byte>
    var mV: array<byte>
    var mReseed: nat

    ghost predicate Valid()
      reads this, mK, mV
    {
      p.Valid() && mK != mV && Sized(p, Value())
    }

    ghost function Value(): State
      reads this, mK, mV
    {
      State(mK[..], mV[..], mReseed)
    }

    constructor (p: Params)
      requires p.Valid()
      ensures Valid() && fresh(mK) && fresh(mV)
      ensures this.p == p && mReseed == 0
    {
      this.p, mReseed := p, 0;
      mK := new byte[p.hmac.size];
      mV := new byte[p.hmac.size];
    }

    /** The source's constructor: entropy, if there is any, instantiates; a refusal leaves no generator. */
    static method Create(p: Params, entropy: Input, nonce: Input, personalization: Input)
      returns (r: Outcome, g: Generator?)
      requires p.Valid()
      ensures r == if entropy.Octets() == [] then Accepted
                   else Verdict(p.strength, 0, Instantiate(entropy, nonce, personalization))
      ensures r == Accepted <==> g != null
      ensures g != null ==> (
        && g.Valid() && fresh(g) && fresh(g.mK) && fresh(g.mV) && g.p == p
        && (entropy.Octets() == [] ==> g.mReseed == 0)
        && (entropy.Octets() != [] ==>
              g.Value() == Seeded(p.hmac, Repeat(0, p.hmac.size), Repeat(1, p.hmac.size),
                                  entropy.Octets() + nonce.Octets() + personalization.Octets(), false)))
    {
      hide Updated;
      var unseeded := new Generator(p);
      r := Accepted;
      if entropy.Given? && entropy.Length() != 0 {
        r := unseeded.DrbgInstantiate(entropy, nonce, personalization);
      }
      g := if r == Accepted then unseeded else null;
    }

    /** TruncatedFinal into one of the buffers. */
    method Final(key: seq<byte>, message: seq<byte>, output: array<byte>)
      requires p.Valid() && output.Length == p.hmac.size
      modifies output
      ensures output[..] == p.hmac.mac(key, message)
    {
      Put(output, 0, p.hmac.mac(key, message));
    }

    method HmacUpdate(in1: Input, in2: Input, in3: Input)
      requires Valid()
      modifies mK, mV
      ensures Valid()
      ensures (mK[..], mV[..]) == Updated(p.hmac, old(mK[..]), old(mV[..]), in1.Octets() + in2.Octets() + in3.Octets(),
                                          in1.Length() == in2.Length() == in3.Length() == 0)
      ensures var (mac, data) := (p.hmac.mac, in1.Octets() + in2.Octets() + in3.Octets());
        var k1 := mac(old(mK[..]), old(mV[..]) + [0] + data);
        var v1 := mac(k1, old(mV[..]));
        if in1.Length() + in2.Length() + in3.Length() == 0 then mK[..] == k1 && mV[..] == v1
        else mK[..] == mac(k1, v1 + [1] + data) && mV[..] == mac(mK[..], v1)
    {
      var data := in1.Octets() + in2.Octets() + in3.Octets();
      Final(mK[..], mV[..] + [0] + data, mK);
      Final(mK[..], mV[..], mV);
      if in1.Length() == 0 && in2.Length() == 0 && in3.Length() == 0 { return; }
      Final(mK[..], mV[..] + [1] + data, mK);
      Final(mK[..], mV[..], mV);
    }

    method DrbgInstantiate(entropy: Input, nonce: Input, personalization: Input) returns (r: Outcome)
      requires Valid()
      modifies this`mReseed, mK, mV
      ensures Valid()
      ensures r == Verdict(p.strength, old(mReseed), Instantiate(entropy, nonce, personalization))
      ensures Value() == Next(p, old(Value()), Instantiate(entropy, nonce, personalization))
    {
      hide Updated;
      if entropy.Length() < p.strength { return InsufficientEntropy; }
      Put(mK, 0, Repeat(0, mK.Length));
      Put(mV, 0, Repeat(1, mV.Length));
      assert mK[..] == Repeat(0, p.hmac.size) && mV[..] == Repeat(1, p.hmac.size);
      HmacUpdate(entropy, nonce, personalization);
      mReseed := 1;
      r := Accepted;
    }

    method DrbgReseed(entropy: Input, additional: Input) returns (r: Outcome)
      requires Valid()
      modifies this`mReseed, mK, mV
      ensures Valid()
      ensures r == Verdict(p.strength, old(mReseed), Reseed(entropy, additional))
      ensures Value() == Next(p, old(Value()), Reseed(entropy, additional))
    {
      hide Updated;
      if entropy.Length() < p.strength { return InsufficientEntropy; }
      HmacUpdate(entropy, additional, Null(0));
      assert entropy.Octets() + additional.Octets() + [] == entropy.Octets() + additional.Octets();
      mReseed := 1;
      r := Accepted;
    }

    method HmacGenerate(additional: Input, output: array<byte>) returns (r: Outcome)
      requires Valid() && output != mK && output != mV
      modifies this`mReseed, mK, mV, output
      ensures Valid()
      ensures r == Verdict(p.strength, old(mReseed), Generate(additional, output.Length))
      ensures Value() == Next(p, old(Value()), Generate(additional, output.Length))
      ensures r == Accepted ==> output[..] == Output(p, old(Value()), additional, output.Length)
      ensures r != Accepted ==> output[..] == old(output[..])
    {
      hide Updated, Chain, ChainStream, Blocks;
      if mReseed >= INT_MAX { return ReseedRequired; }
      if output.Length > MAXIMUM_BYTES_PER_REQUEST { return RequestTooLarge; }
      ghost var s := Value();
      assert additional.Octets() + [] + [] == additional.Octets();
      if additional.Given? && additional.Length() != 0 {
        HmacUpdate(additional, Null(0), Null(0));
      }
      assert (mK[..], mV[..]) == Mixed(p.hmac, s, additional);
      ChainOut(output);
      HmacUpdate(additional, Null(0), Null(0));
      mReseed := mReseed + 1;
      r := Accepted;
    }

    /** Step 3: V is replaced by its keyed digest before each piece of output. */
    method ChainOut(output: array<byte>)
      requires Valid() && output != mK && output != mV
      modifies mV, output
      ensures output[..] == ChainStream(p.hmac, mK[..], old(mV[..]), output.Length)
      ensures mV[..] == Chain(p.hmac, mK[..], old(mV[..]), Blocks(output.Length, p.hmac.size))
    {
      hide Filled, ChainStream, Blocks;
      ghost var k, v, d := mK[..], mV[..], p.hmac.size;
      ChainBlocksSized(p.hmac, k, v);
      ghost var f := ChainBlocks(p.hmac, k, v);
      FilledStart(output[..], f, d);
      ghost var i: nat := 0;
      var pos: nat := 0;
      BlocksAt(0, 0, d);
      while pos < output.Length
        invariant pos <= output.Length && mK[..] == k && mV[..] == Chain(p.hmac, k, v, i)
        invariant |mV[..]| == d && Blocks(pos, d) == i
        invariant Filled(output[..], f, d, i, pos)
      {
        Final(mK[..], mV[..], mV);
        var count := Min(output.Length - pos, mV.Length);
        assert mV[..] == f(i);
        FilledNext(output[..], f, d, i, pos, count);
        BlocksAfter(output[..], f, d, i, pos, count);
        Put(output, pos, mV[..count]);
        assert mV[..count] == mV[..][..count];
        pos, i := pos + count, i + 1;
      }
      ChainDone(p.hmac, k, v, output[..], i);
    }
  }

  lemma ChainDone(h: Hmac, k: seq<byte>, v: seq<byte>, out: seq<byte>, i: nat)
    requires h.Valid() && Filled(out, ChainBlocks(h, k, v), h.size, i, |out|)
    ensures out == ChainStream(h, k, v, |out|)
  {
    FilledAll(out, ChainBlocks(h, k, v), h.size, i);
  }
}
