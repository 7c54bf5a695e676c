/** A cyclic group given by its operations, and the laws of its exponents. */
module Groups {
  import Bytes
  import opened Numbers

  datatype Group<!T> = Group(one: T, mul: (T, T) -> T, g: T, q: nat)

  /** Associativity, identity, and a generator whose `q`-th power is the identity. */
  ghost predicate IsGroup<T(!new)>(G: Group<T>) {
    && (forall x, y, z :: G.mul(G.mul(x, y), z) == G.mul(x, G.mul(y, z)))
    && (forall x :: G.mul(G.one, x) == x && G.mul(x, G.one) == x)
    && G.q > 0 && Pow(G, G.g, G.q) == G.one
  }

  /** ExponentiateElement; ExponentiateBase is the case of the generator. */
  function Pow<T>(G: Group<T>, x: T, n: nat): T {
    if n == 0 then G.one else G.mul(Pow(G, x, n - 1), x)
  }

  function PowG<T>(G: Group<T>, n: nat): T {
    Pow(G, G.g, n)
  }

  lemma Assoc<T(!new)>(G: Group<T>, x: T, y: T, z: T)
    requires IsGroup(G)
    ensures G.mul(G.mul(x, y), z) == G.mul(x, G.mul(y, z))
  {}

  lemma Identity<T(!new)>(G: Group<T>, x: T)
    requires IsGroup(G)
    ensures G.mul(G.one, x) == x && G.mul(x, G.one) == x
  {}

  lemma Order<T(!new)>(G: Group<T>)
    requires IsGroup(G)
    ensures G.q > 0 && Pow(G, G.g, G.q) == G.one
  {}

  lemma {:induction false} PowAdd<T(!new)>(G: Group<T>, x: T, a: nat, b: nat)
    requires IsGroup(G)
    ensures Pow(G, x, a + b) == G.mul(Pow(G, x, a), Pow(G, x, b))
  {
    hide IsGroup;
    if b == 0 {
      Identity(G, Pow(G, x, a));
    } else {
      PowAdd(G, x, a, b - 1);
      Assoc(G, Pow(G, x, a), Pow(G, x, b - 1), x);
    }
  }

  lemma {:induction false} PowMul<T(!new)>(G: Group<T>, x: T, a: nat, b: nat)
    requires IsGroup(G)
    ensures a * b >= 0
    ensures Pow(G, Pow(G, x, a), b) == Pow(G, x, a * b)
  {
    hide IsGroup;
    if b == 0 {
      assert a * b == 0;
    } else {
      PowMul(G, x, a, b - 1);
      Bytes.Distribute(b - 1, 1, a);
      assert (b - 1) * a == a * (b - 1) && b * a == a * b;
      PowAdd(G, x, a * (b - 1), a);
    }
  }

  lemma {:induction false} PowOne<T(!new)>(G: Group<T>, n: nat)
    requires IsGroup(G)
    ensures Pow(G, G.one, n) == G.one
  {
    hide IsGroup;
    if n > 0 {
      PowOne(G, n - 1);
      Identity(G, G.one);
    }
  }

  /** Exponents of the generator count modulo q. */
  lemma PowMod<T(!new)>(G: Group<T>, n: nat)
    requires IsGroup(G)
    ensures PowG(G, n) == PowG(G, n % G.q)
  {
    hide IsGroup;
    Order(G);
    var t, r := n / G.q, n % G.q;
    assert n == G.q * t + r;
    PowMul(G, G.g, G.q, t);
    PowOne(G, t);
    PowAdd(G, G.g, G.q * t, r);
    Identity(G, Pow(G, G.g, r));
  }

  lemma PowCong<T(!new)>(G: Group<T>, a: nat, b: nat)
    requires IsGroup(G) && a % G.q == b % G.q
    ensures PowG(G, a) == PowG(G, b)
  {
    hide IsGroup;
    Order(G);
    PowMod(G, a);
    PowMod(G, b);
  }

  /** In prime order, a generator other than the identity has no smaller period. */
  lemma PowIsOne<T(!new)>(G: Group<T>, n: nat)
    requires IsGroup(G) && Prime(G.q) && G.g != G.one
    ensures PowG(G, n) == G.one <==> n % G.q == 0
  {
    hide IsGroup;
    Order(G);
    PowMod(G, n);
    if n % G.q != 0 && PowG(G, n) == G.one {
      PrimeInverse(n, G.q);
      var y := InverseMod(n, G.q);
      PowMul(G, G.g, n, y);
      PowOne(G, y);
      ModSmall(1, G.q);
      PowCong(G, n * y, 1);
      assert PowG(G, 1) == G.mul(Pow(G, G.g, 0), G.g);
      Identity(G, G.g);
    }
  }

  /** Equal powers of the generator have congruent exponents. */
  lemma PowInjective<T(!new)>(G: Group<T>, a: nat, b: nat)
    requires IsGroup(G) && Prime(G.q) && G.g != G.one
    ensures PowG(G, a) == PowG(G, b) <==> a % G.q == b % G.q
  {
    hide IsGroup;
    Order(G);
    if a % G.q == b % G.q {
      PowCong(G, a, b);
    } else if PowG(G, a) == PowG(G, b) {
      var t := b * (G.q - 1);
      assert b + t == b * G.q + 0;
      PowAdd(G, G.g, a, t);
      PowAdd(G, G.g, b, t);
      ModShift(0, b, G.q);
      ModSmall(0, G.q);
      PowIsOne(G, b + t);
      PowIsOne(G, a + t);
      assert (a + t) % G.q == 0;
      ModAddCong(a + t, 0, b, b, G.q);
      ModWitness(a + t + b, a, b, G.q);
      assert false;
    }
  }
}
