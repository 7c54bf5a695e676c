/**
 Authenticated key agreement by (F)HMQV: two roles that must reach the same value, for both
 the fully hashed protocol and its sibling with shorter hash inputs.
 */
module Mqv {
  import opened Bytes
  import Numbers
  import opened Options
  import opened Streams
  import opened Groups

  datatype Role = Server | Client

  /** Which header: FHMQV hashes all four public keys, HMQV only some. */
  datatype Protocol = Fhmqv | Hmqv

  /** Group parameters with their encodings, validation levels, and the hash. */
  datatype Params<!T> = Params(
    group: Group<T>, hash: Hash, elementSize: nat, agreedSize: nat,
    encode: T -> seq<byte>, decode: seq<byte> -> Option<T>,
    toInteger: T -> nat, validate: (nat, T) -> bool)

  ghost predicate Valid<T(!new)>(p: Params<T>) {
    && IsGroup(p.group) && p.group.q > 0 && p.hash.Valid()
    && forall x :: |p.encode(x)| == p.elementSize && p.decode(p.encode(x)) == Some(x)
  }

  lemma Encodings<T(!new)>(p: Params<T>, x: T)
    requires Valid(p)
    ensures |p.encode(x)| == p.elementSize && p.decode(p.encode(x)) == Some(x)
  {}

  // ----- the hash with a tail for large outputs

  /** The first block digests the input; every further one digests the block before it. */
  function Tail(h: Hash, input: seq<byte>, i: nat): seq<byte> {
    if i == 0 then h.digest(input) else h.digest(Tail(h, input, i - 1))
  }

  ghost function TailBlocks(h: Hash, input: seq<byte>): nat -> seq<byte> {
    i => Tail(h, input, i)
  }

  lemma TailBlocksSized(h: Hash, input: seq<byte>)
    requires h.Valid()
    ensures BlocksOf(TailBlocks(h, input), h.size)
  {
    var f := TailBlocks(h, input);
    forall i: nat ensures |f(i)| == h.size {
      assert f(i) == Tail(h, input, i);
    }
  }

  ghost function Hashed(h: Hash, input: seq<byte>, size: nat): (out: seq<byte>)
    requires h.Valid()
    ensures |out| == size
  {
    TailBlocksSized(h, input);
    Take(TailBlocks(h, input), h.size, size)
  }

  lemma HashedDone(h: Hash, input: seq<byte>, out: seq<byte>, i: nat)
    requires h.Valid() && Filled(out, TailBlocks(h, input), h.size, i, |out|)
    ensures out == Hashed(h, input, |out|)
  {
    FilledAll(out, TailBlocks(h, input), h.size, i);
  }

  /** A whole block just written is the stream's block, so it can be digested again. */
  lemma LastBlock(out: seq<byte>, h: Hash, input: seq<byte>, i: nat, idx: nat, pos: nat)
    requires h.Valid() && i > 0 && Filled(out, TailBlocks(h, input), h.size, i, pos)
    requires pos < |out| && idx + h.size == pos
    ensures out[idx..pos] == Tail(h, input, i - 1)
  {
    var f := TailBlocks(h, input);
    Distribute(i - 1, 1, h.size);
    TakeGrow(f, h.size, i - 1, h.size);
    assert out[idx..pos] == out[..pos][idx..];
    assert f(i - 1) == Tail(h, input, i - 1);
  }

  /** Hash: the tail loop reads back the block it wrote last. */
  method HashInto(h: Hash, input: seq<byte>, digest: array<byte>)
    requires h.Valid()
    modifies digest
    ensures digest[..] == Hashed(h, input, digest.Length)
  {
    hide Filled, Hashed, Take;
    TailBlocksSized(h, input);
    ghost var f, i: nat := TailBlocks(h, input), 0;
    FilledStart(digest[..], f, h.size);
    var pos: nat := 0;
    if digest.Length > 0 {
      pos := WriteBlock(h, h.digest(input), digest, f, 0, 0);
      i := 1;
    }
    var idx: nat := 0;
    while pos < digest.Length
      invariant pos <= digest.Length && Filled(digest[..], f, h.size, i, pos)
      invariant pos < digest.Length ==> i > 0 && idx + h.size == pos
    {
      LastBlock(digest[..], h, input, i, idx, pos);
      var block := h.digest(digest[idx..pos]);
      idx := pos;
      assert digest[..][idx - h.size..pos] == digest[idx - h.size..pos];
      pos := WriteBlock(h, block, digest, f, i, pos);
      i := i + 1;
    }
    HashedDone(h, input, digest[..], i);
  }

  /** TruncatedFinal into the buffer at `pos`. */
  method WriteBlock(h: Hash, block: seq<byte>, digest: array<byte>, ghost f: nat -> seq<byte>, ghost i: nat, pos: nat)
    returns (next: nat)
    requires h.Valid() && pos < digest.Length && Filled(digest[..], f, h.size, i, pos)
    requires block == f(i) && |block| == h.size
    modifies digest
    ensures Filled(digest[..], f, h.size, i + 1, next) && next <= digest.Length
    ensures next < digest.Length ==> next == pos + h.size
  {
    hide Filled;
    var blk := Min(digest.Length - pos, h.size);
    FilledNext(digest[..], f, h.size, i, pos, blk);
    Put(digest, pos, block[..blk]);
    next := pos + blk;
  }

  // ----- the protocol

  /** The four public keys as both sides see them: ephemeral X, Y and static A, B. */
  datatype Transcript = Transcript(xx: seq<byte>, yy: seq<byte>, aa: seq<byte>, bb: seq<byte>) {
    function InputD(protocol: Protocol): seq<byte> {
      if protocol.Fhmqv? then xx + yy + aa + bb else xx + bb
    }
    function InputE(protocol: Protocol): seq<byte> {
      if protocol.Fhmqv? then yy + xx + aa + bb else yy + aa
    }
    function InputKey(protocol: Protocol): seq<byte> {
      if protocol.Fhmqv? then xx + yy + aa + bb else []
    }
  }

  /** Half the bit length of q, in octets. */
  function HalfLength(q: nat): nat {
    ((Numbers.BitCount(q) + 1) / 2 + 7) / 8
  }

  ghost function ExponentD<T(!new)>(p: Params<T>, protocol: Protocol, t: Transcript): nat
    requires Valid(p)
  {
    Be(Hashed(p.hash, t.InputD(protocol), HalfLength(p.group.q)))
  }

  ghost function ExponentE<T(!new)>(p: Params<T>, protocol: Protocol, t: Transcript): nat
    requires Valid(p)
  {
    Be(Hashed(p.hash, t.InputE(protocol), HalfLength(p.group.q)))
  }

  ghost function AgreedFrom<T(!new)>(p: Params<T>, protocol: Protocol, t: Transcript, sigma: T): seq<byte>
    requires Valid(p)
  {
    var n := p.toInteger(sigma);
    Hashed(p.hash, ToBe(n, MinEncodedSize(n)) + t.InputKey(protocol), p.agreedSize)
  }

  /** One party's own keys: static exponent, and ephemeral exponent with its public half. */
  datatype OwnKeys = OwnKeys(staticKey: seq<byte>, ephemeralKey: seq<byte>)

  ghost predicate Sized<T>(p: Params<T>, own: OwnKeys) {
    var n := ByteCount(p.group.q);
    |own.staticKey| == n && |own.ephemeralKey| == n + p.elementSize
  }

  /** Which buffers become XX, YY, AA and BB in a role. */
  function TranscriptOf<T>(p: Params<T>, role: Role, own: OwnKeys, staticOther: seq<byte>, ephemeralOther: seq<byte>)
    : Transcript
    requires |own.ephemeralKey| >= ByteCount(p.group.q)
  {
    var tt := p.encode(PowG(p.group, Be(own.staticKey)));
    var mine := own.ephemeralKey[ByteCount(p.group.q)..];
    if role.Server? then Transcript(ephemeralOther, mine, staticOther, tt)
    else Transcript(mine, ephemeralOther, tt, staticOther)
  }

  /** The shared element of a role: the other side's keys raised to one's own exponent. */
  function Sigma<T>(p: Params<T>, role: Role, own: OwnKeys, staticOther: T, ephemeralOther: T, d: nat, e: nat): T
    requires p.group.q > 0 && |own.ephemeralKey| >= ByteCount(p.group.q)
  {
    var eph, stat := Be(own.ephemeralKey[..ByteCount(p.group.q)]), Be(own.staticKey);
    var (mine, theirs) := if role.Server? then (e, d) else (d, e);
    var s := (eph + mine * stat) % p.group.q;
    Pow(p.group, p.group.mul(ephemeralOther, Pow(p.group, staticOther, theirs)), s)
  }

  /** Both other keys decode and pass validation, the static one at the level asked for. */
  predicate OthersAccepted<T>(p: Params<T>, staticOther: seq<byte>, ephemeralOther: seq<byte>, validateStatic: bool) {
    var a, x := p.decode(staticOther), p.decode(ephemeralOther);
    && a.Some? && p.validate(if validateStatic then 3 else 1, a.value)
    && x.Some? && p.validate(3, x.value)
  }

  /** What a role computes: nothing unless the other side's keys are accepted. */
  ghost function AgreedValue<T(!new)>(p: Params<T>, protocol: Protocol, role: Role, own: OwnKeys,
                                      staticOther: seq<byte>, ephemeralOther: seq<byte>, validateStatic: bool)
    : Option<seq<byte>>
    requires Valid(p) && Sized(p, own)
  {
    if !OthersAccepted(p, staticOther, ephemeralOther, validateStatic) then None else
      var t := TranscriptOf(p, role, own, staticOther, ephemeralOther);
      var d, e := ExponentD(p, protocol, t), ExponentE(p, protocol, t);
      var sigma := Sigma(p, role, own, p.decode(staticOther).value, p.decode(ephemeralOther).value, d, e);
      Some(AgreedFrom(p, protocol, t, sigma))
  }

  class Domain<!T(!new)> {
    const p: Params<T>
    const protocol: Protocol
    const role: Role

    constructor (p: Params<T>, protocol: Protocol, role: Role)
      ensures this.p == p && this.protocol == protocol && this.role == role
    {
      this.p, this.protocol, this.role := p, protocol, role;
    }

    /** Generates an exponent already drawn from [1, q - 1]. */
    method GenerateStaticPrivateKey(x: nat) returns (privateKey: seq<byte>)
      requires 1 <= x < p.group.q
      ensures |privateKey| == ByteCount(p.group.q) && Be(privateKey) == x
    {
      ByteCountBounds(p.group.q);
      privateKey := ToBe(x, ByteCount(p.group.q));
      BeToBeSmall(x, ByteCount(p.group.q));
    }

    /** The other side decodes g to the private exponent. */
    method GenerateStaticPublicKey(privateKey: seq<byte>) returns (publicKey: seq<byte>)
      requires Valid(p)
      ensures |publicKey| == p.elementSize && p.decode(publicKey) == Some(PowG(p.group, Be(privateKey)))
    {
      publicKey := p.encode(PowG(p.group, Be(privateKey)));
      Encodings(p, PowG(p.group, Be(privateKey)));
    }

    method GenerateEphemeralPrivateKey(x: nat) returns (privateKey: seq<byte>)
      requires 1 <= x < p.group.q
      ensures |privateKey| >= ByteCount(p.group.q)
      ensures Be(privateKey[..ByteCount(p.group.q)]) == x
      ensures privateKey[ByteCount(p.group.q)..] == p.encode(PowG(p.group, x))
    {
      var first := GenerateStaticPrivateKey(x);
      privateKey := first + p.encode(PowG(p.group, x));
      assert privateKey[..ByteCount(p.group.q)] == first;
    }

    method GenerateEphemeralPublicKey(privateKey: seq<byte>) returns (publicKey: seq<byte>)
      requires Valid(p) && |privateKey| >= ByteCount(p.group.q)
      ensures privateKey == privateKey[..ByteCount(p.group.q)] + publicKey
      ensures forall x: nat :: privateKey[ByteCount(p.group.q)..] == p.encode(PowG(p.group, x)) ==>
        p.decode(publicKey) == Some(PowG(p.group, x))
    {
      publicKey := privateKey[ByteCount(p.group.q)..];
    }

    /** The role's branch of the computation of sigma. */
    method Raise(own: OwnKeys, staticOther: T, ephemeralOther: T, d: nat, e: nat) returns (sigma: T)
      requires p.group.q > 0 && Sized(p, own)
      ensures sigma == Sigma(p, role, own, staticOther, ephemeralOther, d, e)
    {
      hide Be, Pow, ByteCount;
      var n := ByteCount(p.group.q);
      var eph, stat := Be(own.ephemeralKey[..n]), Be(own.staticKey);
      match role {
        case Server =>
          var sB := (eph + e * stat) % p.group.q;
          var t1 := Pow(p.group, staticOther, d);
          var t2 := p.group.mul(ephemeralOther, t1);
          sigma := Pow(p.group, t2, sB);
        case Client =>
          var sA := (eph + d * stat) % p.group.q;
          var t1 := Pow(p.group, staticOther, e);
          var t2 := p.group.mul(ephemeralOther, t1);
          sigma := Pow(p.group, t2, sA);
      }
    }

    /** False leaves the caller's buffer as it was. */
    method Agree(agreedValue: array<byte>, own: OwnKeys, staticOther: seq<byte>, ephemeralOther: seq<byte>,
                 validateStatic: bool) returns (ok: bool)
      requires Valid(p) && Sized(p, own) && agreedValue.Length == p.agreedSize
      modifies agreedValue
      ensures var v := AgreedValue(p, protocol, role, own, staticOther, ephemeralOther, validateStatic);
        ok == v.Some? && agreedValue[..] == if ok then v.value else old(agreedValue[..])
    {
      hide Hashed, IsGroup, Be, ToBe, Numbers.BitCount, ByteCount, Sigma;
      var n := ByteCount(p.group.q);
      var tt := p.encode(PowG(p.group, Be(own.staticKey)));
      var t: Transcript;
      match role {
        case Server => t := Transcript(ephemeralOther, own.ephemeralKey[n..], staticOther, tt);
        case Client => t := Transcript(own.ephemeralKey[n..], ephemeralOther, tt, staticOther);
      }

      var v1 := p.decode(staticOther);
      if v1.None? || !p.validate(if validateStatic then 3 else 1, v1.value) { return false; }
      var v2 := p.decode(ephemeralOther);
      if v2.None? || !p.validate(3, v2.value) { return false; }

      var len := HalfLength(p.group.q);
      var dd, ee := new byte[len], new byte[len];
      HashInto(p.hash, t.InputD(protocol), dd);
      HashInto(p.hash, t.InputE(protocol), ee);
      var d, e := Be(dd[..]), Be(ee[..]);

      var sigma := Raise(own, v1.value, v2.value, d, e);
      var z := p.toInteger(sigma);
      HashInto(p.hash, ToBe(z, MinEncodedSize(z)) + t.InputKey(protocol), agreedValue);
      ok := true;
    }
  }

  // ----- agreement

  /** Keys an honest party holds for static exponent `s` and ephemeral exponent `e`. */
  ghost predicate HonestKeys<T(!new)>(p: Params<T>, own: OwnKeys, s: nat, e: nat)
    requires Valid(p)
  {
    var n := ByteCount(p.group.q);
    && Sized(p, own) && Be(own.staticKey) == s
    && Be(own.ephemeralKey[..n]) == e && own.ephemeralKey[n..] == p.encode(PowG(p.group, e))
  }

  /** (g^eph * (g^stat)^c)^(m mod q) = g^((eph + stat c) m) */
  lemma SharedElement<T(!new)>(G: Group<T>, eph: nat, stat: nat, c: nat, m: nat)
    requires IsGroup(G) && G.q > 0
    ensures (eph + stat * c) * m >= 0
    ensures Pow(G, G.mul(PowG(G, eph), Pow(G, PowG(G, stat), c)), m % G.q) == PowG(G, (eph + stat * c) * m)
  {
    hide *;
    PowGIs(G, eph);
    PowGIs(G, stat);
    PowMul(G, G.g, stat, c);
    PowAdd(G, G.g, eph, stat * c);
    var b := eph + stat * c;
    PowMul(G, G.g, b, m % G.q);
    Numbers.ModMul(m, b, G.q);
    Products(m % G.q, m, b);
    PowGIs(G, b * (m % G.q));
    PowCong(G, b * (m % G.q), b * m);
  }

  lemma PowGIs<T>(G: Group<T>, n: nat)
    ensures PowG(G, n) == Pow(G, G.g, n)
  {}

  lemma Products(a: nat, a': nat, b: nat)
    ensures a * b == b * a && a' * b == b * a' && b * a >= 0 && b * a' >= 0
  {}

  function PublicKey<T>(p: Params<T>, s: nat): seq<byte> {
    p.encode(PowG(p.group, s))
  }

  function HonestTranscript<T>(p: Params<T>, a: nat, x: nat, b: nat, y: nat): Transcript {
    Transcript(PublicKey(p, x), PublicKey(p, y), PublicKey(p, a), PublicKey(p, b))
  }

  /** (x + d a)(y + e b) */
  function SharedExponent(a: nat, x: nat, b: nat, y: nat, d: nat, e: nat): nat {
    (x + d * a) * (y + e * b)
  }

  /** In either role the shared element is g^((x + d a)(y + e b)). */
  lemma SigmaIs<T(!new)>(p: Params<T>, role: Role, own: OwnKeys, a: nat, x: nat, b: nat, y: nat, d: nat, e: nat)
    requires Valid(p)
    requires if role.Client? then HonestKeys(p, own, a, x) else HonestKeys(p, own, b, y)
    ensures var (s, eph) := if role.Client? then (b, y) else (a, x);
      Sigma(p, role, own, PowG(p.group, s), PowG(p.group, eph), d, e) == PowG(p.group, SharedExponent(a, x, b, y, d, e))
  {
    hide IsGroup, PowG, Pow, Be, ByteCount;
    var u, v := x + d * a, y + e * b;
    Products(d, d, a);
    Products(e, e, b);
    Products(u, u, v);
    if role.Client? {
      SharedElement(p.group, y, b, e, u);
    } else {
      SharedElement(p.group, x, a, d, v);
    }
  }

  /** One honest party, facing an honest one whose keys pass validation. */
  lemma RoleComputes<T(!new)>(p: Params<T>, protocol: Protocol, role: Role, own: OwnKeys,
                              a: nat, x: nat, b: nat, y: nat, validateStatic: bool)
    requires Valid(p)
    requires if role.Client? then HonestKeys(p, own, a, x) else HonestKeys(p, own, b, y)
    requires var (s, eph) := if role.Client? then (b, y) else (a, x);
      p.validate(if validateStatic then 3 else 1, PowG(p.group, s)) && p.validate(3, PowG(p.group, eph))
    ensures var (s, eph) := if role.Client? then (b, y) else (a, x);
      var t := HonestTranscript(p, a, x, b, y);
      var m := SharedExponent(a, x, b, y, ExponentD(p, protocol, t), ExponentE(p, protocol, t));
      AgreedValue(p, protocol, role, own, PublicKey(p, s), PublicKey(p, eph), validateStatic)
        == Some(AgreedFrom(p, protocol, t, PowG(p.group, m)))
  {
    hide IsGroup, Hashed, PowG, Pow, Be, ToBe, ByteCount, Sigma, AgreedFrom, ExponentD, ExponentE, SharedExponent;
    var (s, eph) := if role.Client? then (b, y) else (a, x);
    Encodings(p, PowG(p.group, s));
    Encodings(p, PowG(p.group, eph));
    var t := HonestTranscript(p, a, x, b, y);
    assert TranscriptOf(p, role, own, PublicKey(p, s), PublicKey(p, eph)) == t;
    SigmaIs(p, role, own, a, x, b, y, ExponentD(p, protocol, t), ExponentE(p, protocol, t));
  }

  /**
   Honest parties agree: with accepted public keys both calls succeed, and both compute the
   value derived from g^((x + d a)(y + e b)) and the same transcript.
   */
  lemma BothRolesAgree<T(!new)>(p: Params<T>, protocol: Protocol, client: OwnKeys, server: OwnKeys,
                                a: nat, x: nat, b: nat, y: nat, validateStatic: bool)
    requires Valid(p) && HonestKeys(p, client, a, x) && HonestKeys(p, server, b, y)
    requires forall k :: k == a || k == b ==> p.validate(if validateStatic then 3 else 1, PowG(p.group, k))
    requires forall k :: k == x || k == y ==> p.validate(3, PowG(p.group, k))
    ensures var atClient := AgreedValue(p, protocol, Client, client, PublicKey(p, b), PublicKey(p, y), validateStatic);
      var atServer := AgreedValue(p, protocol, Server, server, PublicKey(p, a), PublicKey(p, x), validateStatic);
      var t := HonestTranscript(p, a, x, b, y);
      var m := SharedExponent(a, x, b, y, ExponentD(p, protocol, t), ExponentE(p, protocol, t));
      atClient == atServer == Some(AgreedFrom(p, protocol, t, PowG(p.group, m)))
  {
    hide IsGroup, Hashed, PowG, Pow, AgreedFrom, ExponentD, ExponentE, SharedExponent, AgreedValue, HonestTranscript;
    RoleComputes(p, protocol, Client, client, a, x, b, y, validateStatic);
    RoleComputes(p, protocol, Server, server, a, x, b, y, validateStatic);
  }

  // ----- the agreed value, digest by digest

  /** The digest of the input, then digests of the block before. */
  ghost predicate DigestRun(h: Hash, input: seq<byte>, run: seq<seq<byte>>) {
    && (|run| > 0 ==> run[0] == h.digest(input))
    && forall i :: 0 < i < |run| ==> run[i] == h.digest(run[i - 1])
  }

  /** The string is the front of such a run. */
  ghost predicate DigestOf(h: Hash, input: seq<byte>, out: seq<byte>) {
    exists run :: DigestRun(h, input, run) && CutFrom(out, run, h.size)
  }

  lemma HashedIsDigest(h: Hash, input: seq<byte>, size: nat)
    requires h.Valid()
    ensures DigestOf(h, input, Hashed(h, input, size))
  {
    hide Blocks, Take, CutFrom;
    TailBlocksSized(h, input);
    var run := seq(Blocks(size, h.size), i requires i >= 0 => Tail(h, input, i));
    TakeIsCut(TailBlocks(h, input), h.size, size, run);
    assert DigestRun(h, input, run);
  }

  /** For outputs of at most one digest that is the digest, cut. */
  lemma ShortDigest(h: Hash, input: seq<byte>, out: seq<byte>)
    requires h.Valid() && DigestOf(h, input, out) && |out| <= h.size
    ensures |h.digest(input)| == h.size && out == h.digest(input)[..|out|]
  {
    hide Blocks;
    var run :| DigestRun(h, input, run) && CutFrom(out, run, h.size);
    forall j | 0 <= j < |out| ensures out[j] == h.digest(input)[j] {
      BlockOf(j, |out|, h.size);
      DivModUnique(j, h.size, 0, j);
    }
  }

  /** The octet strings both sides hash, from the four public elements and the shared one. */
  lemma AgreedIs<T(!new)>(p: Params<T>, protocol: Protocol, role: Role, own: OwnKeys,
                          a: nat, x: nat, b: nat, y: nat, validateStatic: bool,
                          xx: seq<byte>, yy: seq<byte>, aa: seq<byte>, bb: seq<byte>)
    returns (dd: seq<byte>, ee: seq<byte>, agreed: seq<byte>)
    requires Valid(p)
    requires if role.Client? then HonestKeys(p, own, a, x) else HonestKeys(p, own, b, y)
    requires var (s, eph) := if role.Client? then (b, y) else (a, x);
      p.validate(if validateStatic then 3 else 1, PowG(p.group, s)) && p.validate(3, PowG(p.group, eph))
    requires xx == p.encode(PowG(p.group, x)) && yy == p.encode(PowG(p.group, y))
    requires aa == p.encode(PowG(p.group, a)) && bb == p.encode(PowG(p.group, b))
    ensures |dd| == |ee| == ((Numbers.BitCount(p.group.q) + 1) / 2 + 7) / 8
    ensures DigestOf(p.hash, if protocol.Fhmqv? then xx + yy + aa + bb else xx + bb, dd)
    ensures DigestOf(p.hash, if protocol.Fhmqv? then yy + xx + aa + bb else yy + aa, ee)
    ensures (x + Be(dd) * a) * (y + Be(ee) * b) >= 0
    ensures var z := p.toInteger(PowG(p.group, (x + Be(dd) * a) * (y + Be(ee) * b)));
      var sigma := ToBe(z, MinEncodedSize(z));
      && |agreed| == p.agreedSize
      && DigestOf(p.hash, if protocol.Fhmqv? then sigma + xx + yy + aa + bb else sigma, agreed)
    ensures AgreedValue(p, protocol, role, own, if role.Client? then bb else aa, if role.Client? then yy else xx,
                        validateStatic) == Some(agreed)
  {
    hide IsGroup, Hashed, PowG, DigestOf, Be, ToBe, MinEncodedSize, Numbers.BitCount, AgreedValue, HonestKeys;
    RoleComputes(p, protocol, role, own, a, x, b, y, validateStatic);
    var t := HonestTranscript(p, a, x, b, y);
    var q := p.group.q;
    dd, ee := Hashed(p.hash, t.InputD(protocol), HalfLength(q)), Hashed(p.hash, t.InputE(protocol), HalfLength(q));
    HashedIsDigest(p.hash, t.InputD(protocol), HalfLength(q));
    HashedIsDigest(p.hash, t.InputE(protocol), HalfLength(q));
    Products(x + Be(dd) * a, x + Be(dd) * a, y + Be(ee) * b);
    agreed := AgreedFrom(p, protocol, t, PowG(p.group, SharedExponent(a, x, b, y, Be(dd), Be(ee))));
    var z := p.toInteger(PowG(p.group, SharedExponent(a, x, b, y, Be(dd), Be(ee))));
    var sigma := ToBe(z, MinEncodedSize(z));
    HashedIsDigest(p.hash, sigma + t.InputKey(protocol), p.agreedSize);
    assert protocol.Fhmqv? ==> sigma + t.InputKey(protocol) == sigma + xx + yy + aa + bb;
    assert protocol.Hmqv? ==> sigma + t.InputKey(protocol) == sigma;
  }

  /** The other side's keys are refused exactly when one does not decode or fails its validation. */
  lemma RefusedExactlyWhen<T(!new)>(p: Params<T>, protocol: Protocol, role: Role, own: OwnKeys,
                                    staticOther: seq<byte>, ephemeralOther: seq<byte>, validateStatic: bool)
    requires Valid(p) && Sized(p, own)
    ensures AgreedValue(p, protocol, role, own, staticOther, ephemeralOther, validateStatic).Some?
       <==> exists s, e :: p.decode(staticOther) == Some(s) && p.decode(ephemeralOther) == Some(e)
              && p.validate(if validateStatic then 3 else 1, s) && p.validate(3, e)
  {
    hide Hashed, Pow, PowG, Be, ByteCount;
  }
}
