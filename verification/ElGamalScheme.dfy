/**
 ElGamal encryption as a whole: an ephemeral Diffie-Hellman agreement, the agreed element as
 the key, and the padding and masking of the plaintext.
 */
module ElGamalScheme {
  import opened Bytes
  import opened Groups
  import Numbers
  import opened Options
  import opened ElGamal

  /** The group with its encodings, its modulus, and how membership is checked. */
  datatype Params<!T> = Params(
    group: Group<T>, modulus: nat, elementSize: nat,
    encode: T -> seq<byte>, decode: seq<byte> -> Option<T>, toInteger: T -> nat,
    fastSubgroupCheck: bool, validate: (nat, T) -> bool)

  /** Elements are encoded without loss and are units modulo a prime of three octets or more. */
  ghost predicate Valid<T(!new)>(p: Params<T>) {
    && IsGroup(p.group) && Numbers.Prime(p.modulus) && 3 <= ByteCount(p.modulus) < TWO32
    && (forall x :: |p.encode(x)| == p.elementSize && p.decode(p.encode(x)) == Some(x))
    && (forall x :: 0 < p.toInteger(x) < p.modulus)
  }

  /** AgreeWithStaticPrivateKey without cofactors; None stands for the exception on a bad element. */
  function AgreeStatic<T(==)>(p: Params<T>, y: T, a: nat): Option<T> {
    if p.fastSubgroupCheck then
      if !p.validate(2, y) then None else Some(Pow(p.group, y, a))
    else if Pow(p.group, y, p.group.q) != p.group.one then None
    else Some(Pow(p.group, y, a))
  }

  /** Derive: the agreed element itself is the key. */
  function Key<T>(p: Params<T>, z: T): (key: seq<byte>)
    ensures |key| == ByteCount(p.modulus)
  {
    ToBe(p.toInteger(z), ByteCount(p.modulus))
  }

  function Ciphertext<T>(p: Params<T>, y: T, x: nat, plain: seq<byte>, filler: seq<byte>): seq<byte>
    requires p.modulus > 0
  {
    p.encode(PowG(p.group, x)) + Masked(p.modulus, Key(p, Pow(p.group, y, x)), Block(filler, plain))
  }

  /** What decryption with private exponent `a` makes of a ciphertext. */
  function Decrypted<T(==)>(p: Params<T>, a: nat, cipher: seq<byte>): (DecodingResult, seq<byte>)
    requires p.modulus > 0 && |cipher| >= p.elementSize
  {
    var e, c := p.decode(cipher[..p.elementSize]), cipher[p.elementSize..];
    if e.None? || AgreeStatic(p, e.value, a).None? || |c| != ByteCount(p.modulus) then (Failed, [])
    else Unpad(p.modulus, Unmasked(p.modulus, Key(p, AgreeStatic(p, e.value, a).value), c))
  }

  // ----- the round trip

  /** Both sides arrive at g^(a x). */
  lemma SharedSecret<T(!new)>(G: Group<T>, a: nat, x: nat)
    requires IsGroup(G)
    ensures Pow(G, PowG(G, x), a) == Pow(G, PowG(G, a), x)
  {
    hide IsGroup;
    PowMul(G, G.g, x, a);
    PowMul(G, G.g, a, x);
    assert a * x == x * a;
  }

  /** Every power of the generator passes the subgroup check. */
  lemma HonestElementPasses<T(!new)>(G: Group<T>, x: nat)
    requires IsGroup(G)
    ensures Pow(G, PowG(G, x), G.q) == G.one
  {
    hide IsGroup;
    Order(G);
    SharedSecret(G, G.q, x);
    PowOne(G, x);
  }

  lemma KeyIsUnit<T(!new)>(p: Params<T>, z: T)
    requires Valid(p)
    ensures Be(Key(p, z)) == p.toInteger(z) && Be(Key(p, z)) % p.modulus != 0
  {
    ByteCountBounds(p.modulus);
    BeToBeSmall(p.toInteger(z), ByteCount(p.modulus));
    Numbers.ModSmall(p.toInteger(z), p.modulus);
  }

  lemma Parts<T(!new)>(p: Params<T>, y: T, x: nat, plain: seq<byte>, filler: seq<byte>)
    requires Valid(p) && p.modulus > 0
    ensures var c := Ciphertext(p, y, x, plain, filler);
      && |c| == p.elementSize + ByteCount(p.modulus) && p.decode(c[..p.elementSize]) == Some(PowG(p.group, x))
      && c[p.elementSize..] == Masked(p.modulus, Key(p, Pow(p.group, y, x)), Block(filler, plain))
  {
    hide IsGroup, Numbers.Prime, Pow, PowG, ByteCount;
    var head := p.encode(PowG(p.group, x));
    assert |head| == p.elementSize && p.decode(head) == Some(PowG(p.group, x));
    var c := Ciphertext(p, y, x, plain, filler);
    assert c[..p.elementSize] == head;
  }

  lemma Agreed<T(!new)>(p: Params<T>, a: nat, x: nat)
    requires Valid(p) && (p.fastSubgroupCheck ==> p.validate(2, PowG(p.group, x)))
    ensures AgreeStatic(p, PowG(p.group, x), a) == Some(Pow(p.group, PowG(p.group, a), x))
  {
    SharedSecret(p.group, a, x);
    HonestElementPasses(p.group, x);
  }

  /** What was encrypted to g^a comes back with `a`, whatever ephemeral exponent and filler were drawn. */
  lemma SchemeRoundTrip<T(!new)>(p: Params<T>, a: nat, x: nat, plain: seq<byte>, filler: seq<byte>)
    requires Valid(p) && (p.fastSubgroupCheck ==> p.validate(2, PowG(p.group, x)))
    requires Fills(p.modulus, plain, filler)
    ensures p.modulus > 0
    ensures var c := Ciphertext(p, PowG(p.group, a), x, plain, filler);
      |c| >= p.elementSize && Decrypted(p, a, c) == (Decoded(|plain|), plain)
  {
    var y := PowG(p.group, a);
    assert p.modulus > 0;
    Parts(p, y, x, plain, filler);
    Agreed(p, a, x);
    KeyIsUnit(p, Pow(p.group, y, x));
    RoundTrip(p.modulus, Key(p, Pow(p.group, y, x)), plain, filler);
    hide IsGroup, Numbers.Prime, Pow, PowG, Masked, Unmasked, Unpad, Key, Ciphertext, ByteCount, MaxPlaintext;
    hide AgreeStatic, Block;
  }

  /** A ciphertext to g^a is g^x, and g^(a x) times filler, plaintext and length modulo the prime. */
  lemma CiphertextIs<T(!new)>(p: Params<T>, a: nat, x: nat, plain: seq<byte>, filler: seq<byte>, m: nat, ax: nat)
    requires Valid(p) && p.modulus > 0 && |plain| < 256
    requires m == Be(filler + plain + [|plain| as byte]) && ax == a * x
    ensures var c := Ciphertext(p, PowG(p.group, a), x, plain, filler);
      && |c| == p.elementSize + ByteCount(p.modulus) && p.decode(c[..p.elementSize]) == Some(PowG(p.group, x))
      && Be(c[p.elementSize..]) == (p.toInteger(PowG(p.group, ax)) * m) % p.modulus
  {
    hide IsGroup, Numbers.Prime, Pow, Masked, Key, Be, ByteCount, Ciphertext;
    var y := PowG(p.group, a);
    Parts(p, y, x, plain, filler);
    KeyIsUnit(p, Pow(p.group, y, x));
    MaskedIs(p.modulus, Key(p, Pow(p.group, y, x)), Block(filler, plain));
    PowMul(p.group, p.group.g, a, x);
  }

  /** The element passes the check at the receiver: the fast one, or that its q-th power is the identity. */
  predicate Passes<T(==)>(p: Params<T>, e: T) {
    if p.fastSubgroupCheck then p.validate(2, e) else Pow(p.group, e, p.group.q) == p.group.one
  }

  /**
   Decryption of any octets yields a plaintext exactly when the first part decodes to an element
   that passes, the rest has the modulus length, and the block that the element's power takes to
   the rest modulo the prime ends in this plaintext and its length.
   */
  lemma DecryptsExactlyWhen<T(!new)>(p: Params<T>, a: nat, cipher: seq<byte>, e: T, m: nat, n: nat, plain: seq<byte>)
    requires Valid(p) && p.modulus > 0 && |cipher| >= p.elementSize && p.decode(cipher[..p.elementSize]) == Some(e)
    requires m < p.modulus
    requires (p.toInteger(Pow(p.group, e, a)) * m) % p.modulus == Be(cipher[p.elementSize..]) % p.modulus
    ensures Decrypted(p, a, cipher) == (Decoded(n), plain)
       <==> Passes(p, e) && |cipher| == p.elementSize + ByteCount(p.modulus)
            && m % 256 == n <= MaxPlaintext(ByteCount(p.modulus))
            && |plain| == n && Be(plain) == (m / 256) % Pow256(n)
  {
    var key := Key(p, Pow(p.group, e, a));
    KeyIsUnit(p, Pow(p.group, e, a));
    assert Unit(p.modulus, key);
    UnmaskedExactlyWhen(p.modulus, key, cipher[p.elementSize..], m);
    UnpadExactlyWhen(p.modulus, m, n, plain);
    hide Numbers.Prime, IsGroup, Pow, Key, Be, Pow256, Unmasked, Unpad, ByteCount, MaxPlaintext;
  }

  /** Without an element in front there is no plaintext. */
  lemma NoElementFails<T(!new)>(p: Params<T>, a: nat, cipher: seq<byte>)
    requires p.modulus > 0 && |cipher| >= p.elementSize && p.decode(cipher[..p.elementSize]) == None
    ensures Decrypted(p, a, cipher) == (Failed, [])
  {}

  // ----- the operations

  /** Encrypt with ephemeral exponent `x`. */
  method Encrypt<T>(p: Params<T>, y: T, x: nat, plain: seq<byte>, filler: seq<byte>, ciphertext: array<byte>)
    requires p.modulus > 0 && |p.encode(PowG(p.group, x))| == p.elementSize && 2 <= ByteCount(p.modulus)
    requires |filler| + |plain| + 2 == ByteCount(p.modulus)
    requires ciphertext.Length == p.elementSize + ByteCount(p.modulus)
    modifies ciphertext
    ensures ciphertext[..] == Ciphertext(p, y, x, plain, filler)
  {
    hide Masked, Pow, ByteCount, Block;
    var q := PowG(p.group, x);
    Put(ciphertext, 0, p.encode(q));
    var z := Pow(p.group, y, x);
    var body := new byte[ByteCount(p.modulus)];
    SymmetricEncrypt(p.modulus, Key(p, z), plain, filler, body);
    Put(ciphertext, p.elementSize, body[..]);
  }

  method Decrypt<T(==)>(p: Params<T>, a: nat, cipher: seq<byte>, plaintext: array<byte>) returns (r: DecodingResult)
    requires p.modulus > 0 && |cipher| >= p.elementSize
    requires 1 <= plaintext.Length && MaxPlaintext(ByteCount(p.modulus)) <= plaintext.Length
    modifies plaintext
    ensures var (r', plain) := Decrypted(p, a, cipher);
      r == r' && (r.Decoded? ==> |plain| <= plaintext.Length && plaintext[..|plain|] == plain)
  {
    hide Pow, ByteCount, Unmasked, MaxPlaintext;
    var e := p.decode(cipher[..p.elementSize]);
    if e.None? { return Failed; }
    var z := AgreeStatic(p, e.value, a);
    if z.None? { return Failed; }
    r := SymmetricDecrypt(p.modulus, Key(p, z.value), cipher[p.elementSize..], plaintext);
  }
}
