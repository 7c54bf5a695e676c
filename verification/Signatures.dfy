/**
 The three ElGamal-like signature algorithms over a group of prime order: GDSA (DSA),
 ECGDSA (ISO 15946) and Nyberg-Rueppel.
 */
module Signatures {
  import Bytes
  import opened Numbers
  import opened Groups

  /** Group parameters, and the conversion of elements to integers. */
  datatype Params<!T> = Params(group: Group<T>, toInteger: T -> nat) {
    function Q(): nat { group.q }
  }

  ghost predicate Valid<T(!new)>(p: Params<T>) {
    IsGroup(p.group) && Prime(p.Q())
  }

  /** g^baseExp * y^publicExp */
  function Cascade<T>(p: Params<T>, y: T, baseExp: nat, publicExp: nat): T {
    p.group.mul(PowG(p.group, baseExp), Pow(p.group, y, publicExp))
  }

  /** The integer a signer starts from: the commitment g^k. */
  function Commit<T>(p: Params<T>, k: nat): nat {
    p.toInteger(PowG(p.group, k))
  }

  lemma CascadeExponent<T(!new)>(p: Params<T>, x: nat, u1: nat, u2: nat)
    requires Valid(p)
    ensures x * u2 >= 0
    ensures Cascade(p, PowG(p.group, x), u1, u2) == PowG(p.group, u1 + x * u2)
  {
    hide IsGroup;
    PowMul(p.group, p.group.g, x, u2);
    PowAdd(p.group, p.group.g, u1, x * u2);
  }

  lemma SameElement<T(!new)>(p: Params<T>, a: nat, b: nat)
    requires Valid(p)
    ensures a % p.Q() == b % p.Q() ==> PowG(p.group, a) == PowG(p.group, b)
    ensures p.group.g != p.group.one && PowG(p.group, a) == PowG(p.group, b) ==> a % p.Q() == b % p.Q()
  {
    hide IsGroup, Prime;
    Order(p.group);
    if a % p.Q() == b % p.Q() { PowCong(p.group, a, b); }
    if p.group.g != p.group.one { PowInjective(p.group, a, b); }
  }

  // ----- GDSA

  /** The equation a signature satisfies: s times the nonce is e + x r. */
  predicate GdsaEquation(q: nat, x: nat, k: nat, e: nat, r: nat, s: nat)
    requires q > 0
  {
    (k * s) % q == (e + x * r) % q
  }

  method SignGdsa<T>(p: Params<T>, x: nat, k: nat, e: nat, commitment: nat) returns (r: nat, s: nat)
    requires Prime(p.Q()) && k % p.Q() != 0
    ensures r == commitment % p.Q() && s < p.Q()
    ensures GdsaEquation(p.Q(), x, k, e, r, s)
  {
    var q := p.Q();
    r := commitment % q;
    var kInv := InverseMod(k, q);
    s := (kInv * (x * r + e)) % q;
    PrimeInverse(k, q);
    InverseSolves(k, kInv, x * r + e, q);
  }

  /** Multiplying by an inverse solves the linear congruence. */
  lemma InverseSolves(k: nat, kInv: nat, t: int, q: nat)
    requires q > 1 && (k * kInv) % q == 1
    ensures (k * ((kInv * t) % q)) % q == t % q
  {
    ModMul(kInv * t, k, q);
    assert ((kInv * t) % q) * k == k * ((kInv * t) % q);
    assert (kInv * t) * k == (k * kInv) * t;
    ModSmall(1, q);
    ModMulCong(k * kInv, 1, t, q);
  }

  function VerifyGdsa<T>(p: Params<T>, y: T, e: nat, r: int, s: int): bool
    requires p.Q() > 0
  {
    var q := p.Q();
    if r >= q || r < 1 || s >= q || s < 1 then false else
      var w := InverseMod(s, q);
      var u1 := (e * w) % q;
      var u2 := (r * w) % q;
      r == p.toInteger(Cascade(p, y, u1, u2)) % q
  }

  /** The exponent the verifier reconstructs: s times it is e + x r. */
  lemma GdsaExponent(q: nat, x: nat, e: nat, r: nat, s: nat, w: nat)
    requires q > 1 && (s * w) % q == 1
    ensures ((e * w) % q + x * ((r * w) % q)) % q == ((e + x * r) * w) % q
  {
    ModMod(e * w, q);
    ModMul(r * w, x, q);
    assert ((r * w) % q) * x == x * ((r * w) % q);
    assert (r * w) * x == (x * r) * w;
    ModAddCong((e * w) % q, e * w, x * ((r * w) % q), (x * r) * w, q);
    Bytes.Distribute(e, x * r, w);
  }

  lemma GdsaNonce(q: nat, x: nat, k: nat, e: nat, r: nat, s: nat, w: nat)
    requires q > 1 && (s * w) % q == 1
    ensures GdsaEquation(q, x, k, e, r, s) <==> ((e + x * r) * w) % q == k % q
  {
    ModSmall(1, q);
    assert (k * s) * w == (s * w) * k;
    ModMulCong(s * w, 1, k, q);
    var t := e + x * r;
    assert (t * w) * s == (s * w) * t;
    ModMulCong(s * w, 1, t, q);
    if (k * s) % q == t % q {
      ModMulCong(k * s, t, w, q);
    }
    if (t * w) % q == k % q {
      ModMulCong(t * w, k, s, q);
    }
  }

  /** Every honest signature verifies, unless one of its parts is zero. */
  lemma GdsaAccepts<T(!new)>(p: Params<T>, x: nat, k: nat, e: nat, r: nat, s: nat)
    requires Valid(p) && k % p.Q() != 0
    requires r == Commit(p, k) % p.Q() && s < p.Q() && GdsaEquation(p.Q(), x, k, e, r, s)
    ensures VerifyGdsa(p, PowG(p.group, x), e, r, s) <==> r != 0 && s != 0
  {
    if r != 0 && s != 0 {
      GdsaCommitment(p, x, k, e, r, s);
    }
  }

  /** What the verifier compares is the signer's commitment exactly when the signing equation holds. */
  lemma GdsaCommitment<T(!new)>(p: Params<T>, x: nat, k: nat, e: nat, r: nat, s: nat)
    requires Valid(p) && 0 < s < p.Q()
    ensures var w := InverseMod(s, p.Q());
      var element := Cascade(p, PowG(p.group, x), (e * w) % p.Q(), (r * w) % p.Q());
      && (GdsaEquation(p.Q(), x, k, e, r, s) ==> element == PowG(p.group, k))
      && (p.group.g != p.group.one && element == PowG(p.group, k) ==> GdsaEquation(p.Q(), x, k, e, r, s))
  {
    hide IsGroup, Prime;
    var q := p.Q();
    ModSmall(s, q);
    PrimeInverse(s, q);
    var w := InverseMod(s, q);
    var u1, u2 := (e * w) % q, (r * w) % q;
    CascadeExponent(p, x, u1, u2);
    GdsaExponent(q, x, e, r, s, w);
    GdsaNonce(q, x, k, e, r, s, w);
    hide GdsaEquation, Cascade, PowG;
    SameElement(p, u1 + x * u2, k);
  }

  /**
   Every signature, honest or not, is accepted exactly when r is the conversion modulo q of g to
   (e + x r) / s.
   */
  lemma GdsaAcceptsExactlyWhen<T(!new)>(p: Params<T>, x: nat, e: nat, r: int, s: int)
    requires Valid(p)
    ensures VerifyGdsa(p, PowG(p.group, x), e, r, s)
       <==> 0 < r < p.Q() && 0 < s < p.Q()
            && r == p.toInteger(PowG(p.group, ((e + x * r) * InverseMod(s, p.Q())) % p.Q())) % p.Q()
  {
    hide IsGroup, Prime;
    var q := p.Q();
    if 0 < r < q && 0 < s < q {
      GdsaElement(p, x, e, r, s);
    }
    hide Cascade, PowG;
  }

  /** The element the verifier converts, as one power of g. */
  lemma GdsaElement<T(!new)>(p: Params<T>, x: nat, e: nat, r: nat, s: nat)
    requires Valid(p) && 0 < s < p.Q()
    ensures var w := InverseMod(s, p.Q());
      Cascade(p, PowG(p.group, x), (e * w) % p.Q(), (r * w) % p.Q()) == PowG(p.group, ((e + x * r) * w) % p.Q())
  {
    hide IsGroup, Prime;
    var q := p.Q();
    ModSmall(s, q);
    PrimeInverse(s, q);
    var w := InverseMod(s, q);
    var u1, u2 := (e * w) % q, (r * w) % q;
    CascadeExponent(p, x, u1, u2);
    GdsaExponent(q, x, e, r, s, w);
    hide Cascade, PowG;
    SameReduced(p, u1 + x * u2, (e + x * r) * w);
  }

  /**
   An honest signature for `e` under another representative: accepted exactly when g to the
   nonce, shifted by (e' - e) / s, still converts to r; and only for congruent representatives is
   that the same element.
   */
  lemma GdsaOtherMessage<T(!new)>(p: Params<T>, x: nat, k: nat, e: nat, r: nat, s: nat, e': nat)
    requires Valid(p) && 0 < r && 0 < s < p.Q()
    requires r == Commit(p, k) % p.Q() && GdsaEquation(p.Q(), x, k, e, r, s)
    ensures var k' := (k + (e' - e) * InverseMod(s, p.Q())) % p.Q();
      var accepted := VerifyGdsa(p, PowG(p.group, x), e', r, s);
      && (accepted <==> p.toInteger(PowG(p.group, k')) % p.Q() == p.toInteger(PowG(p.group, k)) % p.Q())
      && (p.group.g != p.group.one ==> (PowG(p.group, k') == PowG(p.group, k) <==> e' % p.Q() == e % p.Q()))
  {
    hide IsGroup, Prime;
    var q := p.Q();
    ModSmall(s, q);
    PrimeInverse(s, q);
    var w := InverseMod(s, q);
    GdsaAcceptsExactlyWhen(p, x, e', r, s);
    GdsaNonce(q, x, k, e, r, s, w);
    Shifted(e + x * r, e' - e, w, k, q);
    hide VerifyGdsa, GdsaEquation;
    OtherElement(p, k, e, e', w, s);
  }

  /** (t + d) w is k + d w when t w is k. */
  lemma Shifted(t: int, d: int, w: int, k: int, q: nat)
    requires q > 0 && (t * w) % q == k % q
    ensures ((t + d) * w) % q == (k + d * w) % q
  {
    Bytes.Distribute(t, d, w);
    ModAddCong(t * w, k, d * w, d * w, q);
  }

  /** Shifting the exponent by a unit times e' - e gives the same element only for congruent e and e'. */
  lemma OtherElement<T(!new)>(p: Params<T>, k: nat, e: nat, e': nat, unit: int, inverse: int)
    requires Valid(p) && p.Q() > 1 && (inverse * unit) % p.Q() == 1
    ensures p.group.g != p.group.one ==>
      (PowG(p.group, (k + (e' - e) * unit) % p.Q()) == PowG(p.group, k) <==> e' % p.Q() == e % p.Q())
  {
    hide IsGroup, Prime, PowG;
    var q, d := p.Q(), e' - e;
    var k' := (k + d * unit) % q;
    ModMod(k + d * unit, q);
    SameElement(p, k', k);
    Shifts(d * unit, 0 * unit, k, q);
    Scales(d, 0, unit, inverse, q);
    Shifts(d, 0, e, q);
  }

  lemma SameReduced<T(!new)>(p: Params<T>, a: nat, b: nat)
    requires Valid(p) && a % p.Q() == b % p.Q()
    ensures PowG(p.group, a) == PowG(p.group, b % p.Q())
  {
    hide IsGroup, Prime;
    Order(p.group);
    ModMod(b, p.Q());
    SameElement(p, a, b % p.Q());
  }

  // ----- ECGDSA (ISO 15946)

  /** MakePublicKey: the public element of ECGDSA is g to the inverse of the private exponent. */
  function EcgdsaPublic<T>(p: Params<T>, x: nat): T
    requires p.Q() > 0
  {
    PowG(p.group, InverseMod(x, p.Q()))
  }

  predicate EcgdsaEquation(q: nat, x: nat, k: nat, e: nat, r: nat, s: nat)
    requires q > 0
  {
    s % q == ((k * r - e) * x) % q
  }

  method SignEcgdsa<T>(p: Params<T>, x: nat, k: nat, e: nat) returns (r: nat, s: nat)
    requires p.Q() > 0
    ensures r == Commit(p, k) % p.Q() && s < p.Q()
    ensures EcgdsaEquation(p.Q(), x, k, e, r, s)
  {
    var q := p.Q();
    r := p.toInteger(PowG(p.group, k)) % q;
    s := ((k * r - e) * x) % q;
    ModMod((k * r - e) * x, q);
  }

  function VerifyEcgdsa<T>(p: Params<T>, y: T, e: nat, r: int, s: int): bool
    requires p.Q() > 0
  {
    var q := p.Q();
    if r >= q || r < 1 || s >= q || s < 1 then false else
      var rInv := InverseMod(r, q);
      var u1 := (rInv * e) % q;
      var u2 := (rInv * s) % q;
      r == p.toInteger(Cascade(p, y, u1, u2)) % q
  }

  lemma EcgdsaExponent(q: nat, e: nat, r: nat, s: nat, rInv: nat, xInv: nat)
    requires q > 0
    ensures ((rInv * e) % q + xInv * ((rInv * s) % q)) % q == (rInv * (e + xInv * s)) % q
  {
    ModMod(rInv * e, q);
    ModMul(rInv * s, xInv, q);
    assert ((rInv * s) % q) * xInv == xInv * ((rInv * s) % q);
    assert (rInv * s) * xInv == (xInv * s) * rInv;
    ModAddCong((rInv * e) % q, rInv * e, xInv * ((rInv * s) % q), (xInv * s) * rInv, q);
    Bytes.Distribute(e, xInv * s, rInv);
    assert (e + xInv * s) * rInv == rInv * (e + xInv * s);
  }

  lemma EcgdsaNonce(q: nat, x: nat, k: nat, e: nat, r: nat, s: nat, rInv: nat, xInv: nat)
    requires q > 1 && (r * rInv) % q == 1 && (x * xInv) % q == 1
    ensures EcgdsaEquation(q, x, k, e, r, s) <==> (rInv * (e + xInv * s)) % q == k % q
  {
    var t, u := k * r - e, xInv * s;
    Scales(s, t * x, xInv, x, q);
    Cancels(t, x, xInv, q);
    assert s * xInv == u;
    assert (t * x) * xInv == (x * xInv) * t;
    Shifts(u, t, e, q);
    Scales(e + u, k * r, rInv, r, q);
    assert (k * r) * rInv == (r * rInv) * k;
    Cancels(k, r, rInv, q);
    assert (e + u) * rInv == rInv * (e + u);
  }

  /** Congruences may be multiplied by a unit, and back. */
  lemma Scales(a: int, b: int, unit: int, inverse: int, q: nat)
    requires q > 1 && (inverse * unit) % q == 1
    ensures a % q == b % q <==> (a * unit) % q == (b * unit) % q
  {
    if a % q == b % q {
      ModMulCong(a, b, unit, q);
    }
    if (a * unit) % q == (b * unit) % q {
      ModMulCong(a * unit, b * unit, inverse, q);
      Cancels(a, inverse, unit, q);
      Cancels(b, inverse, unit, q);
      assert (a * unit) * inverse == (inverse * unit) * a;
      assert (b * unit) * inverse == (inverse * unit) * b;
    }
  }

  lemma Cancels(t: int, unit: int, inverse: int, q: nat)
    requires q > 1 && (unit * inverse) % q == 1
    ensures ((unit * inverse) * t) % q == t % q
  {
    ModSmall(1, q);
    ModMulCong(unit * inverse, 1, t, q);
  }

  lemma Shifts(a: int, b: int, c: int, q: nat)
    requires q > 0
    ensures a % q == b % q <==> (c + a) % q == (c + b) % q
  {
    if a % q == b % q {
      ModAddCong(a, b, c, c, q);
    }
    if (c + a) % q == (c + b) % q {
      ModAddCong(c + a, c + b, -c, -c, q);
    }
  }

  lemma EcgdsaAccepts<T(!new)>(p: Params<T>, x: nat, k: nat, e: nat, r: nat, s: nat)
    requires Valid(p) && x % p.Q() != 0
    requires r == Commit(p, k) % p.Q() && s < p.Q() && EcgdsaEquation(p.Q(), x, k, e, r, s)
    ensures VerifyEcgdsa(p, EcgdsaPublic(p, x), e, r, s) <==> r != 0 && s != 0
  {
    if r != 0 && s != 0 {
      EcgdsaCommitment(p, x, k, e, r, s);
    }
  }

  lemma EcgdsaCommitment<T(!new)>(p: Params<T>, x: nat, k: nat, e: nat, r: nat, s: nat)
    requires Valid(p) && x % p.Q() != 0 && 0 < r < p.Q()
    ensures var rInv := InverseMod(r, p.Q());
      var element := Cascade(p, EcgdsaPublic(p, x), (rInv * e) % p.Q(), (rInv * s) % p.Q());
      && (EcgdsaEquation(p.Q(), x, k, e, r, s) ==> element == PowG(p.group, k))
      && (p.group.g != p.group.one && element == PowG(p.group, k) ==> EcgdsaEquation(p.Q(), x, k, e, r, s))
  {
    hide IsGroup, Prime;
    var q := p.Q();
    ModSmall(r, q);
    PrimeInverse(r, q);
    PrimeInverse(x, q);
    var rInv, xInv := InverseMod(r, q), InverseMod(x, q);
    var u1, u2 := (rInv * e) % q, (rInv * s) % q;
    CascadeExponent(p, xInv, u1, u2);
    EcgdsaExponent(q, e, r, s, rInv, xInv);
    EcgdsaNonce(q, x, k, e, r, s, rInv, xInv);
    hide EcgdsaEquation, Cascade, PowG;
    SameElement(p, u1 + xInv * u2, k);
  }

  /**
   Every signature is accepted exactly when r is the conversion modulo q of g to
   (e + s / x) / r; the public element is g to 1 / x.
   */
  lemma EcgdsaAcceptsExactlyWhen<T(!new)>(p: Params<T>, x: nat, e: nat, r: int, s: int)
    requires Valid(p)
    ensures VerifyEcgdsa(p, PowG(p.group, InverseMod(x, p.Q())), e, r, s)
       <==> 0 < r < p.Q() && 0 < s < p.Q()
            && r == p.toInteger(PowG(p.group, (InverseMod(r, p.Q()) * (e + InverseMod(x, p.Q()) * s)) % p.Q())) % p.Q()
  {
    hide IsGroup, Prime;
    var q := p.Q();
    if 0 < r < q && 0 < s < q {
      EcgdsaElement(p, e, r, s, InverseMod(r, q), InverseMod(x, q));
    }
    hide Cascade, PowG;
  }

  /** The element the verifier converts, as one power of g. */
  lemma EcgdsaElement<T(!new)>(p: Params<T>, e: nat, r: nat, s: nat, rInv: nat, xInv: nat)
    requires Valid(p)
    ensures Cascade(p, PowG(p.group, xInv), (rInv * e) % p.Q(), (rInv * s) % p.Q())
         == PowG(p.group, (rInv * (e + xInv * s)) % p.Q())
  {
    hide IsGroup, Prime;
    Order(p.group);
    var q := p.Q();
    var u1, u2, t := (rInv * e) % q, (rInv * s) % q, rInv * (e + xInv * s);
    CascadeExponent(p, xInv, u1, u2);
    EcgdsaExponent(q, e, r, s, rInv, xInv);
    hide Cascade, PowG;
    assert t >= 0 by { Bytes.MulLe(0, rInv, e + xInv * s); }
    SameReduced(p, u1 + xInv * u2, t);
  }

  /** An honest signature under another representative: here the shift is (e' - e) / r. */
  lemma EcgdsaOtherMessage<T(!new)>(p: Params<T>, x: nat, k: nat, e: nat, r: nat, s: nat, e': nat)
    requires Valid(p) && x % p.Q() != 0 && 0 < r && 0 < s < p.Q()
    requires r == Commit(p, k) % p.Q() && EcgdsaEquation(p.Q(), x, k, e, r, s)
    ensures var k' := (k + (e' - e) * InverseMod(r, p.Q())) % p.Q();
      var accepted := VerifyEcgdsa(p, PowG(p.group, InverseMod(x, p.Q())), e', r, s);
      && (accepted <==> p.toInteger(PowG(p.group, k')) % p.Q() == p.toInteger(PowG(p.group, k)) % p.Q())
      && (p.group.g != p.group.one ==> (PowG(p.group, k') == PowG(p.group, k) <==> e' % p.Q() == e % p.Q()))
  {
    hide IsGroup, Prime;
    var q := p.Q();
    ModSmall(r, q);
    PrimeInverse(r, q);
    PrimeInverse(x, q);
    var rInv, xInv := InverseMod(r, q), InverseMod(x, q);
    EcgdsaAcceptsExactlyWhen(p, x, e', r, s);
    EcgdsaNonce(q, x, k, e, r, s, rInv, xInv);
    var t := e + xInv * s;
    assert t * rInv == rInv * t && (t + (e' - e)) * rInv == rInv * (e' + xInv * s);
    Shifted(t, e' - e, rInv, k, q);
    hide VerifyEcgdsa, EcgdsaEquation;
    OtherElement(p, k, e, e', rInv, r);
  }

  // ----- Nyberg-Rueppel

  predicate NrEquation(q: nat, x: nat, k: nat, r: nat, s: nat)
    requires q > 0
  {
    (s + x * r) % q == k % q
  }

  lemma NrSolves(k: int, t: int, q: nat)
    requires q > 0
    ensures ((k - t) % q + t) % q == k % q
  {
    ModAdd(k - t, t, q);
  }

  method SignNr<T>(p: Params<T>, x: nat, k: nat, e: nat, commitment: nat) returns (r: nat, s: nat)
    requires p.Q() > 0
    ensures r == (commitment + e) % p.Q() && s < p.Q()
    ensures NrEquation(p.Q(), x, k, r, s)
  {
    var q := p.Q();
    r := (commitment + e) % q;
    var t := x * r;
    s := (k - t) % q;
    NrSolves(k, t, q);
  }

  function VerifyNr<T>(p: Params<T>, y: T, e: nat, r: int, s: nat): bool
    requires p.Q() > 0
  {
    var q := p.Q();
    if r >= q || r < 1 || s >= q then false else
      r == (p.toInteger(Cascade(p, y, s, r)) + e) % q
  }

  lemma NrCommitment<T(!new)>(p: Params<T>, x: nat, k: nat, r: nat, s: nat)
    requires Valid(p)
    ensures var element := Cascade(p, PowG(p.group, x), s, r);
      && (NrEquation(p.Q(), x, k, r, s) ==> element == PowG(p.group, k))
      && (p.group.g != p.group.one && element == PowG(p.group, k) ==> NrEquation(p.Q(), x, k, r, s))
  {
    hide IsGroup, Prime;
    CascadeExponent(p, x, s, r);
    SameElement(p, s + x * r, k);
  }

  /** Here a zero `s` is accepted: only `r` has to be non-zero. */
  lemma NrAccepts<T(!new)>(p: Params<T>, x: nat, k: nat, e: nat, r: nat, s: nat)
    requires Valid(p)
    requires r == (Commit(p, k) + e) % p.Q() && s < p.Q() && NrEquation(p.Q(), x, k, r, s)
    ensures VerifyNr(p, PowG(p.group, x), e, r, s) <==> r != 0
  {
    hide IsGroup, Prime;
    NrCommitment(p, x, k, r, s);
  }

  /** Every signature is accepted exactly when r is e plus the conversion of g to s + x r, modulo q. */
  lemma NrAcceptsExactlyWhen<T(!new)>(p: Params<T>, x: nat, e: nat, r: int, s: nat)
    requires Valid(p)
    ensures VerifyNr(p, PowG(p.group, x), e, r, s)
       <==> 0 < r < p.Q() && s < p.Q()
            && r == (p.toInteger(PowG(p.group, (s + x * r) % p.Q())) + e) % p.Q()
  {
    hide IsGroup, Prime;
    if 0 < r < p.Q() && s < p.Q() {
      CascadeExponent(p, x, s, r);
      hide Cascade, PowG;
      SameReduced(p, s + x * r, s + x * r);
    }
  }

  /** An honest signature is accepted for exactly the representatives congruent to its own. */
  lemma NrOtherMessage<T(!new)>(p: Params<T>, x: nat, k: nat, e: nat, r: nat, s: nat, e': nat)
    requires Valid(p) && 0 < r && s < p.Q()
    requires r == (Commit(p, k) + e) % p.Q() && NrEquation(p.Q(), x, k, r, s)
    ensures VerifyNr(p, PowG(p.group, x), e', r, s) <==> e' % p.Q() == e % p.Q()
  {
    hide IsGroup, Prime;
    var c := Commit(p, k);
    NrCommitment(p, x, k, r, s);
    hide Cascade, PowG;
    Shifts(e', e, c, p.Q());
  }
}
