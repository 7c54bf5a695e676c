/**
 Signatures as octet strings: what a signer writes, what a verifier reads back, and that the
 two fit for every algorithm, with random or with deterministic nonces.
 */
module SignatureScheme {
  import opened Bytes
  import opened Groups
  import opened Numbers
  import Streams
  import opened Signatures
  import Rfc6979

  datatype Algorithm = Gdsa | DeterministicGdsa(hmac: Streams.Hmac) | Ecgdsa | Nr

  /** The public element of a private exponent. */
  function PublicElement<T>(p: Params<T>, alg: Algorithm, x: nat): T
    requires p.Q() > 0
  {
    if alg.Ecgdsa? then EcgdsaPublic(p, x) else PowG(p.group, x)
  }

  /** A signature made from nonce k. */
  ghost predicate Honest<T>(p: Params<T>, alg: Algorithm, x: nat, k: nat, e: nat, r: nat, s: nat)
    requires p.Q() > 0
  {
    s < p.Q() &&
    match alg
    case Nr => r == (Commit(p, k) + e) % p.Q() && NrEquation(p.Q(), x, k, r, s)
    case Ecgdsa => r == Commit(p, k) % p.Q() && EcgdsaEquation(p.Q(), x, k, e, r, s)
    case _ => r == Commit(p, k) % p.Q() && GdsaEquation(p.Q(), x, k, e, r, s)
  }

  function Verify<T>(p: Params<T>, alg: Algorithm, y: T, e: nat, r: nat, s: nat): bool
    requires p.Q() > 0
  {
    match alg
    case Nr => VerifyNr(p, y, e, r, s)
    case Ecgdsa => VerifyEcgdsa(p, y, e, r, s)
    case _ => VerifyGdsa(p, y, e, r, s)
  }

  /** The parts that must not be zero. */
  predicate NonZero(alg: Algorithm, r: nat, s: nat) {
    r != 0 && (alg.Nr? || s != 0)
  }

  lemma HonestVerifies<T(!new)>(p: Params<T>, alg: Algorithm, x: nat, k: nat, e: nat, r: nat, s: nat)
    requires Valid(p) && 0 < x < p.Q() && 0 < k < p.Q() && Honest(p, alg, x, k, e, r, s)
    ensures Verify(p, alg, PublicElement(p, alg, x), e, r, s) <==> NonZero(alg, r, s)
  {
    hide IsGroup, Prime, Commit, NrEquation, EcgdsaEquation, GdsaEquation, VerifyNr, VerifyEcgdsa, VerifyGdsa;
    ModSmall(x, p.Q());
    ModSmall(k, p.Q());
    match alg {
      case Nr => NrAccepts(p, x, k, e, r, s);
      case Ecgdsa => EcgdsaAccepts(p, x, k, e, r, s);
      case _ => GdsaAccepts(p, x, k, e, r, s);
    }
  }

  // ----- octet strings

  /** r and s, each in as many octets as the group order has. */
  function Encoded(q: nat, r: nat, s: nat): (signature: seq<byte>)
    ensures |signature| == 2 * ByteCount(q)
  {
    ToBe(r, ByteCount(q)) + ToBe(s, ByteCount(q))
  }

  /** What the verifier decides about a signature of full length. */
  function VerifyOctets<T>(p: Params<T>, alg: Algorithm, y: T, e: nat, signature: seq<byte>): bool
    requires p.Q() > 0 && |signature| == 2 * ByteCount(p.Q())
  {
    var n := ByteCount(p.Q());
    Verify(p, alg, y, e, Be(signature[..n]), Be(signature[n..]))
  }

  lemma EncodedReads(q: nat, r: nat, s: nat)
    requires q > 0 && r < q && s < q
    ensures var n := ByteCount(q); Be(Encoded(q, r, s)[..n]) == r && Be(Encoded(q, r, s)[n..]) == s
  {
    ByteCountBounds(q);
    BeToBeSmall(r, ByteCount(q));
    BeToBeSmall(s, ByteCount(q));
  }

  lemma HonestIsReduced<T>(p: Params<T>, alg: Algorithm, x: nat, k: nat, e: nat, r: nat, s: nat)
    requires p.Q() > 0 && Honest(p, alg, x, k, e, r, s)
    ensures r < p.Q() && s < p.Q()
  {}

  lemma ReadBack<T(!new)>(p: Params<T>, alg: Algorithm, x: nat, k: nat, e: nat, r: nat, s: nat, signature: seq<byte>)
    requires p.Q() > 0 && Honest(p, alg, x, k, e, r, s) && signature == Encoded(p.Q(), r, s)
    ensures |signature| == 2 * ByteCount(p.Q())
    ensures Be(signature[..ByteCount(p.Q())]) == r && Be(signature[ByteCount(p.Q())..]) == s
  {
    hide Honest;
    HonestIsReduced(p, alg, x, k, e, r, s);
    EncodedReads(p.Q(), r, s);
  }

  /** A signature is accepted as written if and only if the parts that must not be zero are not. */
  lemma SignatureRoundTrip<T(!new)>(p: Params<T>, alg: Algorithm, x: nat, k: nat, e: nat, r: nat, s: nat)
    requires Valid(p) && 0 < x < p.Q() && 0 < k < p.Q() && Honest(p, alg, x, k, e, r, s)
    ensures VerifyOctets(p, alg, PublicElement(p, alg, x), e, Encoded(p.Q(), r, s)) <==> NonZero(alg, r, s)
  {
    hide IsGroup, Prime, Honest, Verify, PublicElement, Encoded, NonZero, Be, ByteCount;
    HonestIsReduced(p, alg, x, k, e, r, s);
    EncodedReads(p.Q(), r, s);
    HonestVerifies(p, alg, x, k, e, r, s);
  }

  // ----- which octets are accepted

  /** The power of g that the verifier converts, with the exponent the signature stands for. */
  function Reconstructed<T>(p: Params<T>, alg: Algorithm, x: nat, e: nat, r: nat, s: nat): T
    requires p.Q() > 0
  {
    var q := p.Q();
    match alg
    case Nr => PowG(p.group, (s + x * r) % q)
    case Ecgdsa => PowG(p.group, (InverseMod(r, q) * (e + InverseMod(x, q) * s)) % q)
    case _ => PowG(p.group, ((e + x * r) * InverseMod(s, q)) % q)
  }

  /**
   Any octets of full length are accepted exactly when their first half reads as an r in range,
   their second as an s in range, and r is what g to (s + x r), (e + s / x) / r or (e + x r) / s
   converts to modulo q, for Nyberg-Rueppel with the representative added.
   */
  lemma AcceptsExactlyWhen<T(!new)>(p: Params<T>, alg: Algorithm, x: nat, e: nat, signature: seq<byte>, r: nat, s: nat)
    requires Valid(p) && |signature| == 2 * ByteCount(p.Q())
    requires r == Be(signature[..ByteCount(p.Q())]) && s == Be(signature[ByteCount(p.Q())..])
    ensures VerifyOctets(p, alg, PublicElement(p, alg, x), e, signature)
       <==> 0 < r < p.Q() && s < p.Q() && (s > 0 || alg.Nr?)
            && r == (p.toInteger(Reconstructed(p, alg, x, e, r, s)) + if alg.Nr? then e else 0) % p.Q()
  {
    hide IsGroup, Prime, Be, ByteCount, VerifyNr, VerifyEcgdsa, VerifyGdsa, PowG;
    match alg {
      case Nr => NrAcceptsExactlyWhen(p, x, e, r, s);
      case Ecgdsa => EcgdsaAcceptsExactlyWhen(p, x, e, r, s);
      case _ => GdsaAcceptsExactlyWhen(p, x, e, r, s);
    }
  }

  /** No two powers of g convert to the same number modulo q. */
  ghost predicate Separates<T(!new)>(p: Params<T>)
    requires p.Q() > 0
  {
    p.group.g != p.group.one &&
    forall a: nat, b: nat :: p.toInteger(PowG(p.group, a)) % p.Q() == p.toInteger(PowG(p.group, b)) % p.Q() ==>
      PowG(p.group, a) == PowG(p.group, b)
  }

  lemma Separated<T(!new)>(p: Params<T>, a: nat, b: nat)
    requires p.Q() > 0 && Separates(p)
    ensures p.group.g != p.group.one
    ensures p.toInteger(PowG(p.group, a)) % p.Q() == p.toInteger(PowG(p.group, b)) % p.Q() ==>
      PowG(p.group, a) == PowG(p.group, b)
  {}

  lemma HonestVerifiesOnly<T(!new)>(p: Params<T>, alg: Algorithm, x: nat, k: nat, e: nat, r: nat, s: nat, e': nat)
    requires Valid(p) && 0 < x < p.Q() && Honest(p, alg, x, k, e, r, s) && NonZero(alg, r, s)
    requires p.Q() > 0 && (alg.Nr? || Separates(p))
    ensures Verify(p, alg, PublicElement(p, alg, x), e', r, s) <==> e' % p.Q() == e % p.Q()
  {
    hide IsGroup, Prime, Separates, PowG, NrEquation, EcgdsaEquation, GdsaEquation, VerifyNr, VerifyEcgdsa, VerifyGdsa;
    var q := p.Q();
    ModSmall(x, q);
    match alg {
      case Nr => NrOtherMessage(p, x, k, e, r, s, e');
      case Ecgdsa =>
        EcgdsaOtherMessage(p, x, k, e, r, s, e');
        Separated(p, (k + (e' - e) * InverseMod(r, q)) % q, k);
      case _ =>
        GdsaOtherMessage(p, x, k, e, r, s, e');
        Separated(p, (k + (e' - e) * InverseMod(s, q)) % q, k);
    }
  }

  /**
   An honest signature is accepted for exactly the messages whose representative is congruent to
   that of its own: for Nyberg-Rueppel always, for the others when the conversion separates the
   powers of g. (Where it does not, `GdsaOtherMessage` and `EcgdsaOtherMessage` say when.)
   */
  lemma AcceptsOnlyItsMessage<T(!new)>(p: Params<T>, alg: Algorithm, x: nat, k: nat, e: nat, r: nat, s: nat, e': nat)
    requires Valid(p) && 0 < x < p.Q() && Honest(p, alg, x, k, e, r, s) && NonZero(alg, r, s)
    requires p.Q() > 0 && (alg.Nr? || Separates(p))
    ensures VerifyOctets(p, alg, PublicElement(p, alg, x), e', Encoded(p.Q(), r, s)) <==> e' % p.Q() == e % p.Q()
  {
    hide IsGroup, Prime, Honest, Separates, Verify, PublicElement, Encoded, NonZero, Be, ByteCount;
    HonestIsReduced(p, alg, x, k, e, r, s);
    EncodedReads(p.Q(), r, s);
    HonestVerifiesOnly(p, alg, x, k, e, r, s, e');
  }

  // ----- signing

  method RawSign<T>(p: Params<T>, alg: Algorithm, x: nat, k: nat, e: nat) returns (r: nat, s: nat)
    requires Prime(p.Q()) && 0 < k < p.Q()
    ensures Honest(p, alg, x, k, e, r, s)
  {
    ModSmall(k, p.Q());
    hide Prime, NrEquation, EcgdsaEquation, GdsaEquation;
    var commitment := p.toInteger(PowG(p.group, k));
    match alg {
      case Nr => r, s := SignNr(p, x, k, e, commitment);
      case Ecgdsa => r, s := SignEcgdsa(p, x, k, e);
      case _ => r, s := SignGdsa(p, x, k, e, commitment);
    }
  }

  /** The nonce: drawn between 1 and q - 1, or the first acceptable candidate of RFC 6979. */
  ghost predicate NonceFor(alg: Algorithm, x: nat, q: nat, e: nat, drawn: nat, k: nat) {
    0 < k < q &&
    if alg.DeterministicGdsa? then
      alg.hmac.Valid() && exists n: nat :: Rfc6979.FirstInRange(alg.hmac, Rfc6979.Seed(alg.hmac, x, q, e), q, n, k)
    else k == drawn
  }

  /** What makes the nonce available: a draw in range, or a candidate in range at `bound`. */
  ghost predicate NonceAvailable(alg: Algorithm, x: nat, q: nat, e: nat, drawn: nat, bound: nat) {
    if alg.DeterministicGdsa? then Rfc6979.Reaches(alg.hmac, x, q, e, bound) else 0 < drawn < q
  }

  method Nonce(alg: Algorithm, x: nat, q: nat, e: nat, drawn: nat, ghost bound: nat) returns (k: nat)
    requires NonceAvailable(alg, x, q, e, drawn, bound)
    ensures NonceFor(alg, x, q, e, drawn, k)
  {
    hide Rfc6979.Seed, Rfc6979.ChainState, Rfc6979.Candidate, Rfc6979.FirstInRange;
    if alg.DeterministicGdsa? {
      k := Rfc6979.GenerateRandom(alg.hmac, x, q, e, bound);
    } else {
      k := drawn;
    }
  }

  /** r.Encode and s.Encode into the caller's buffer. */
  method WriteSignature(q: nat, r: nat, s: nat, signature: array<byte>)
    requires signature.Length == 2 * ByteCount(q)
    modifies signature
    ensures signature[..] == Encoded(q, r, s)
  {
    var rLen := ByteCount(q);
    Put(signature, 0, ToBe(r, rLen));
    Put(signature, rLen, ToBe(s, rLen));
  }

  /**
   The message encoding: the representative it computes from what the accumulator's hash was
   fed and whether that was nothing.
   */
  datatype Encoding = Encoding(represent: (seq<byte>, bool) -> seq<byte>)

  /** The integer that stands for a message. */
  function Representative(enc: Encoding, message: seq<byte>): nat {
    Be(enc.represent(message, message == []))
  }

  /** What a signer or a verifier keeps: the message fed so far, and a signature to be checked. */
  class Accumulator {
    var message: seq<byte>
    var empty: bool
    var semisignature: seq<byte>
    var s: nat

    predicate Valid()
      reads this
    {
      empty == (message == [])
    }

    constructor ()
      ensures Valid() && message == [] && semisignature == [] && s == 0
    {
      message, empty, semisignature, s := [], true, [], 0;
    }

    method Update(input: seq<byte>)
      requires Valid()
      modifies this
      ensures Valid() && message == old(message) + input && semisignature == old(semisignature) && s == old(s)
    {
      message := message + input;
      empty := empty && |input| == 0;
    }

    /** ComputeMessageRepresentative, which ends the hash, and the flag behind it. */
    method TakeRepresentative(enc: Encoding) returns (e: nat)
      requires Valid()
      modifies this`message, this`empty
      ensures Valid() && message == [] && e == Representative(enc, old(message))
    {
      e := Be(enc.represent(message, empty));
      message, empty := [], true;
    }

    method InputSignature(q: nat, signature: seq<byte>)
      requires Valid() && |signature| == 2 * ByteCount(q)
      modifies this
      ensures Valid() && message == old(message)
      ensures semisignature == signature[..ByteCount(q)] && s == Be(signature[ByteCount(q)..])
    {
      var rLen := ByteCount(q);
      semisignature := signature[..rLen];
      s := Be(signature[rLen..rLen + rLen]);
      assert signature[rLen..rLen + rLen] == signature[rLen..];
    }

    method VerifyAndRestart<T>(p: Params<T>, alg: Algorithm, enc: Encoding, y: T, ghost signature: seq<byte>)
      returns (accepted: bool)
      requires Valid() && p.Q() > 0 && |signature| == 2 * ByteCount(p.Q())
      requires semisignature == signature[..ByteCount(p.Q())] && s == Be(signature[ByteCount(p.Q())..])
      modifies this`message, this`empty
      ensures Valid() && message == []
      ensures accepted == VerifyOctets(p, alg, y, Representative(enc, old(message)), signature)
    {
      var e := TakeRepresentative(enc);
      accepted := Verify(p, alg, y, e, Be(semisignature), s);
    }
  }

  /**
   SignAndRestart: the octets of an honest signature of the message fed so far, which the
   verifier of any accumulator fed the same message accepts if the parts that must not be
   zero are not.
   */
  method SignAndRestart<T(!new)>(p: Params<T>, alg: Algorithm, enc: Encoding, x: nat, ma: Accumulator,
                                 drawn: nat, ghost bound: nat, signature: array<byte>)
    returns (ghost k: nat, ghost r: nat, ghost s: nat)
    requires ma.Valid() && Valid(p) && 0 < x < p.Q() && signature.Length == 2 * ByteCount(p.Q())
    requires NonceAvailable(alg, x, p.Q(), Representative(enc, ma.message), drawn, bound)
    modifies ma`message, ma`empty, signature
    ensures ma.Valid() && ma.message == []
    ensures var e := Representative(enc, old(ma.message));
      && NonceFor(alg, x, p.Q(), e, drawn, k) && Honest(p, alg, x, k, e, r, s)
      && signature[..] == Encoded(p.Q(), r, s)
      && Be(signature[..ByteCount(p.Q())]) == r && Be(signature[ByteCount(p.Q())..]) == s
      && (VerifyOctets(p, alg, PublicElement(p, alg, x), e, signature[..]) <==> NonZero(alg, r, s))
  {
    hide Valid, Honest, NonceAvailable, VerifyOctets, NonZero, Encoded, Representative, PublicElement;
    var e := ma.TakeRepresentative(enc);
    var k', r', s' := SignRepresentative(p, alg, x, e, drawn, bound);
    WriteSignature(p.Q(), r', s', signature);
    k, r, s := k', r', s';
    ReadBack(p, alg, x, k, e, r, s, signature[..]);
    assert signature[..ByteCount(p.Q())] == signature[..][..ByteCount(p.Q())];
    assert signature[ByteCount(p.Q())..] == signature[..][ByteCount(p.Q())..];
  }

  /** The nonce, the two parts, and what verifying them will say. */
  method SignRepresentative<T(!new)>(p: Params<T>, alg: Algorithm, x: nat, e: nat, drawn: nat, ghost bound: nat)
    returns (k: nat, r: nat, s: nat)
    requires Valid(p) && 0 < x < p.Q() && NonceAvailable(alg, x, p.Q(), e, drawn, bound)
    ensures NonceFor(alg, x, p.Q(), e, drawn, k) && Honest(p, alg, x, k, e, r, s)
    ensures VerifyOctets(p, alg, PublicElement(p, alg, x), e, Encoded(p.Q(), r, s)) <==> NonZero(alg, r, s)
  {
    hide IsGroup, Prime, Honest, NonceAvailable, VerifyOctets, NonZero, Encoded, PublicElement;
    k := Nonce(alg, x, p.Q(), e, drawn, bound);
    r, s := RawSign(p, alg, x, k, e);
    SignatureRoundTrip(p, alg, x, k, e, r, s);
  }
}
