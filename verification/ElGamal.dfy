/** The padding and masking of ElGamal encryption. */
module ElGamal {
  import opened Bytes
  import opened Numbers

  datatype DecodingResult = Failed | Decoded(messageLength: nat)

  /** The longest plaintext for a modulus of `len` octets; the subtraction is in 32 bits. */
  function MaxPlaintext(len: nat): nat {
    Min(255, (len - 3) % TWO32)
  }

  function GetMaxSymmetricPlaintextLength(p: nat, cipherTextLength: nat): nat {
    if cipherTextLength == ByteCount(p) then MaxPlaintext(ByteCount(p)) else 0
  }

  function GetSymmetricCiphertextLength(p: nat, plainTextLength: nat): nat {
    if plainTextLength <= GetMaxSymmetricPlaintextLength(p, ByteCount(p)) then ByteCount(p) else 0
  }

  /** The advertised maximum leaves room for the length octet and never wraps from three octets on. */
  lemma MaxPlaintextFits(len: nat)
    requires len < TWO32
    ensures MaxPlaintext(len) + 2 <= len <==> len >= 3
    ensures len >= 3 ==> MaxPlaintext(len) == Min(255, len - 3)
  {
    if len >= 3 {
      ModSmall(len - 3, TWO32);
    } else {
      DivModUnique(len - 3, TWO32, -1, TWO32 + len - 3);
    }
  }

  /** filler, plaintext, and the plaintext's length in one octet */
  function Block(filler: seq<byte>, plain: seq<byte>): seq<byte> {
    filler + plain + [Octet(|plain|)]
  }

  /** a_times_b_mod_c on a key and a block, written to the modulus length. */
  function Masked(p: nat, key: seq<byte>, block: seq<byte>): seq<byte>
    requires p > 0
  {
    ToBe((Be(key) * Be(block)) % p, ByteCount(p))
  }

  /** SymmetricEncrypt; `filler` is what the random generator puts in front of the plaintext. */
  method SymmetricEncrypt(p: nat, key: seq<byte>, plain: seq<byte>, filler: seq<byte>, cipherText: array<byte>)
    requires p > 0 && |key| == ByteCount(p) == cipherText.Length >= 2
    requires |plain| + 2 <= ByteCount(p) && |filler| == ByteCount(p) - 2 - |plain|
    modifies cipherText
    ensures cipherText[..] == Masked(p, key, Block(filler, plain))
  {
    var modulusLen := ByteCount(p);
    var block := new byte[modulusLen - 1];
    Put(block, 0, filler);
    Put(block, modulusLen - 2 - |plain|, plain);
    block[modulusLen - 2] := Octet(|plain|);
    assert block[..] == Block(filler, plain);
    Put(cipherText, 0, ToBe((Be(key) * Be(block[..])) % p, modulusLen));
  }

  /** What decryption makes of a number: a length in the low octet, and the octets above it. */
  function Unpad(p: nat, m: nat): (r: (DecodingResult, seq<byte>))
    ensures |r.1| <= MaxPlaintext(ByteCount(p))
  {
    var n := m % 256;
    if n > MaxPlaintext(ByteCount(p)) then (Failed, []) else (Decoded(n), ToBe(m / 256, n))
  }

  /** The number decryption works on. */
  function Unmasked(p: nat, key: seq<byte>, cipherText: seq<byte>): nat
    requires p > 0
  {
    (Be(cipherText) * InverseMod(Be(key), p)) % p
  }

  method SymmetricDecrypt(p: nat, key: seq<byte>, cipherText: seq<byte>, plainText: array<byte>) returns (r: DecodingResult)
    requires p > 0 && |key| == ByteCount(p)
    requires 1 <= plainText.Length && MaxPlaintext(ByteCount(p)) <= plainText.Length
    modifies plainText
    ensures |cipherText| != ByteCount(p) ==> r == Failed && plainText[..] == old(plainText[..])
    ensures |cipherText| == ByteCount(p) ==>
      var m := Unmasked(p, key, cipherText);
      var (r', plain) := Unpad(p, m);
      var touched := old(plainText[..])[0 := Octet(m)];
      r == r' && plainText[..] == if r.Decoded? then plain + touched[|plain|..] else touched
  {
    var modulusLen := ByteCount(p);
    if |cipherText| != modulusLen { return Failed; }
    var m := (Be(cipherText) * InverseMod(Be(key), p)) % p;
    Put(plainText, 0, [Octet(m)]);
    assert plainText[..] == old(plainText[..])[0 := Octet(m)];
    var plainTextLength := plainText[0];
    if plainTextLength > GetMaxSymmetricPlaintextLength(p, modulusLen) { return Failed; }
    m := m / 256;
    Put(plainText, 0, ToBe(m, plainTextLength));
    r := Decoded(plainTextLength);
  }

  // ----- round trip

  /** A key that has an inverse modulo a prime. */
  predicate Unit(p: nat, key: seq<byte>) {
    Prime(p) && Be(key) % p != 0
  }

  /** A plaintext up to the maximum, and filler for what is left of the modulus length. */
  predicate Fills(p: nat, plain: seq<byte>, filler: seq<byte>) {
    && 3 <= ByteCount(p) < TWO32 && |plain| <= MaxPlaintext(ByteCount(p))
    && |filler| + |plain| + 2 == ByteCount(p)
  }

  /** A padded block is one octet shorter than the modulus, hence smaller. */
  lemma BlockBelowModulus(p: nat, block: seq<byte>)
    requires p > 0 && |block| + 1 == ByteCount(p)
    ensures Be(block) < p
  {
    ByteCountBounds(p);
    BeBound(block);
  }

  /** Multiplying by the key and then by its inverse gives the number back. */
  lemma UnmaskMask(k: nat, n: nat, p: nat)
    requires Prime(p) && k % p != 0 && n < p
    ensures (((k * n) % p) * InverseMod(k, p)) % p == n
  {
    hide Prime;
    PrimeInverse(k, p);
    ModMod(k * n, p);
    SolutionIsQuotient(k, InverseMod(k, p), (k * n) % p, n, p);
  }

  /** Only c times the inverse of k solves k m = c. */
  lemma SolutionIsQuotient(k: nat, y: nat, c: nat, m: nat, p: nat)
    requires p > 1 && (k * y) % p == 1 && m < p && (k * m) % p == c % p
    ensures (c * y) % p == m
  {
    ModMulCong(k * m, c, y, p);
    UnitTimes(k, y, m, p);
    ModSmall(m, p);
  }

  /** And it does solve it. */
  lemma QuotientSolves(k: nat, y: nat, c: nat, p: nat)
    requires p > 1 && (k * y) % p == 1
    ensures (k * ((c * y) % p)) % p == c % p
  {
    ModMul(c * y, k, p);
    assert ((c * y) % p) * k == k * ((c * y) % p);
    assert (c * y) * k == (k * c) * y;
    UnitTimes(k, y, c, p);
  }

  lemma UnitTimes(k: nat, y: nat, t: nat, p: nat)
    requires p > 1 && (k * y) % p == 1
    ensures ((k * t) * y) % p == t % p
  {
    assert (k * t) * y == (k * y) * t;
    ModSmall(1, p);
    ModMulCong(k * y, 1, t, p);
  }

  /** The octets of a block above its last one end with the plaintext. */
  lemma UnpadBlock(p: nat, filler: seq<byte>, plain: seq<byte>)
    requires |plain| <= MaxPlaintext(ByteCount(p))
    ensures Unpad(p, Be(Block(filler, plain))) == (Decoded(|plain|), plain)
  {
    var block := Block(filler, plain);
    assert block[..|block| - 1] == filler + plain;
    LowOctets(filler, plain);
    hide Be, ToBe, MaxPlaintext;
    LastOctet(block);
  }

  lemma LastOctet(s: seq<byte>)
    requires |s| > 0
    ensures Be(s) / 256 == Be(s[..|s| - 1]) && Be(s) % 256 == s[|s| - 1]
  {}

  /** Decrypting an encryption yields the plaintext, whatever the random filler was. */
  lemma RoundTrip(p: nat, key: seq<byte>, plain: seq<byte>, filler: seq<byte>)
    requires Unit(p, key) && Fills(p, plain, filler)
    ensures var cipher := Masked(p, key, Block(filler, plain));
      && |cipher| == GetSymmetricCiphertextLength(p, |plain|) == ByteCount(p)
      && Unpad(p, Unmasked(p, key, cipher)) == (Decoded(|plain|), plain)
  {
    assert p > 0;
    hide Prime, Unpad, Be, ToBe, ByteCount, Pow256;
    var block := Block(filler, plain);
    BlockBelowModulus(p, block);
    var n := (Be(key) * Be(block)) % p;
    ByteCountBounds(p);
    BeToBeSmall(n, ByteCount(p));
    UnmaskMask(Be(key), Be(block), p);
    UnpadBlock(p, filler, plain);
  }

  /** Distinct plaintexts have distinct ciphertexts under one key. */
  lemma MaskingIsInjective(p: nat, key: seq<byte>, plain: seq<byte>, filler: seq<byte>, plain': seq<byte>, filler': seq<byte>)
    requires Unit(p, key) && Fills(p, plain, filler) && Fills(p, plain', filler') && plain != plain'
    ensures Masked(p, key, Block(filler, plain)) != Masked(p, key, Block(filler', plain'))
  {
    assert p > 0;
    hide *;
    RoundTrip(p, key, plain, filler);
    RoundTrip(p, key, plain', filler');
  }

  // ----- encryption and decryption as congruences

  /** A ciphertext is the product of key and padded block modulo p, in as many octets as p has. */
  lemma MaskedIs(p: nat, key: seq<byte>, block: seq<byte>)
    requires p > 0
    ensures |Masked(p, key, block)| == ByteCount(p)
    ensures Be(Masked(p, key, block)) < p && Be(Masked(p, key, block)) == (Be(key) * Be(block)) % p
  {
    hide Be, ToBe, ByteCount;
    ByteCountBounds(p);
    BeToBeSmall((Be(key) * Be(block)) % p, ByteCount(p));
  }

  /** Decryption solves for the block, for every string of octets. */
  lemma UnmaskedExactlyWhen(p: nat, key: seq<byte>, cipher: seq<byte>, m: nat)
    requires Unit(p, key) && p > 0
    ensures m == Unmasked(p, key, cipher) <==> m < p && (Be(key) * m) % p == Be(cipher) % p
  {
    hide Prime, Be;
    var k, c := Be(key), Be(cipher);
    PrimeInverse(k, p);
    QuotientSolves(k, InverseMod(k, p), c, p);
    if m < p && (k * m) % p == c % p { SolutionIsQuotient(k, InverseMod(k, p), c, m, p); }
  }

  /** The low octet is the length, if it is not too large, and as many octets above it the plaintext. */
  lemma UnpadExactlyWhen(p: nat, m: nat, n: nat, plain: seq<byte>)
    ensures Unpad(p, m) == (Decoded(n), plain)
       <==> m % 256 == n <= MaxPlaintext(ByteCount(p)) && |plain| == n && Be(plain) == (m / 256) % Pow256(n)
  {
    hide Be, ToBe, Pow256, ByteCount, MaxPlaintext;
    BeToBe(m / 256, n);
    if |plain| == n && Be(plain) == (m / 256) % Pow256(n) { BeInjective(plain, ToBe(m / 256, n)); }
  }
}
