/** Bit lengths, congruences, primes and the modular inverse of the big integers. */
module Numbers {
  import opened Bytes

  function Pow2(n: nat): (p: nat)
    ensures p > 0
  {
    if n == 0 then 1 else 2 * Pow2(n - 1)
  }

  function BitCount(n: nat): nat {
    if n == 0 then 0 else 1 + BitCount(n / 2)
  }

  /** Right shift: the low-order `k` bits are dropped. */
  function Shr(n: nat, k: nat): nat {
    if k == 0 then n else Shr(n / 2, k - 1)
  }

  // ----- bit lengths

  lemma {:induction false} ShrBound(n: nat, a: nat, k: nat)
    requires n < Pow2(a + k)
    ensures Shr(n, k) < Pow2(a)
  {
    if k > 0 { ShrBound(n / 2, a, k - 1); }
  }

  lemma {:induction false} ShrShrinks(n: nat, k: nat)
    requires k > 0
    ensures Shr(n, k) <= n / 2
  {
    if k > 1 { ShrShrinks(n / 2, k - 1); }
  }

  lemma {:induction false} ShrAdd(n: nat, a: nat, b: nat)
    ensures Shr(n, a + b) == Shr(Shr(n, a), b)
  {
    if a > 0 { ShrAdd(n / 2, a - 1, b); }
  }

  lemma ShrOctet(n: nat, k: nat)
    ensures Shr(n, 8 * (k + 1)) == Shr(n, 8 * k) / 256
  {
    ShrAdd(n, 8 * k, 8);
    ShrIsQuotient(Shr(n, 8 * k), 8);
    Pow2Bytes(1);
    assert Pow256(1) == 256;
  }

  lemma HalfQuotient(n: nat, p: nat)
    requires p > 0
    ensures n / (2 * p) == (n / 2) / p
  {
    var v, r := (n / 2) / p, (n / 2) % p;
    assert n / 2 == v * p + r;
    assert v * (2 * p) == 2 * (v * p);
    DivModUnique(n, 2 * p, v, 2 * r + n % 2);
  }

  /** A shift by `k` is the quotient by 2^k. */
  lemma {:induction false} ShrIsQuotient(n: nat, k: nat)
    ensures Shr(n, k) == n / Pow2(k)
  {
    if k > 0 {
      ShrIsQuotient(n / 2, k - 1);
      HalfQuotient(n, Pow2(k - 1));
    }
  }

  lemma {:induction false} Pow2Add(a: nat, b: nat)
    ensures Pow2(a + b) == Pow2(a) * Pow2(b)
  {
    if b > 0 {
      Pow2Add(a, b - 1);
      MulSwap(Pow2(a), 2, Pow2(b - 1));
    }
  }

  lemma {:induction false} Pow2Mono(a: nat, b: nat)
    requires a <= b
    ensures Pow2(a) <= Pow2(b)
  {
    if a < b { Pow2Mono(a, b - 1); }
  }

  lemma {:induction false} Pow2Bytes(n: nat)
    ensures Pow2(8 * n) == Pow256(n)
  {
    if n > 0 {
      Pow2Bytes(n - 1);
      Pow2Add(8, 8 * (n - 1));
      assert Pow2(8) == 256;
    }
  }

  lemma {:induction false} BitCountBounds(n: nat)
    requires n > 0
    ensures BitCount(n) > 0
    ensures Pow2(BitCount(n) - 1) <= n < Pow2(BitCount(n))
  {
    if n >= 2 {
      BitCountBounds(n / 2);
    } else {
      assert BitCount(n / 2) == 0;
      assert Pow2(1) == 2;
    }
  }

  lemma BitCountAtMost(n: nat, b: nat)
    requires n < Pow2(b)
    ensures BitCount(n) <= b
  {
    if n > 0 {
      BitCountBounds(n);
      var c: nat := BitCount(n) - 1;
      if b <= c { Pow2Mono(b, c); }
    }
  }

  /** The octets an integer needs are its bits, rounded up to whole octets. */
  lemma ByteCountIsBits(n: nat)
    ensures ByteCount(n) == (BitCount(n) + 7) / 8
  {
    if n > 0 {
      ByteCountBounds(n);
      BitCountBounds(n);
      var m, b := ByteCount(n), BitCount(n);
      Pow2Bytes(m);
      Pow2Bytes(m - 1);
      if b > 8 * m { Pow2Mono(8 * m, b - 1); }
      if b <= 8 * (m - 1) { Pow2Mono(b, 8 * (m - 1)); }
    }
  }

  lemma MinSizeFitsBits(n: nat, b: nat)
    requires n < Pow2(b) && b > 0 && b % 8 == 0
    ensures 8 * MinEncodedSize(n) <= b
  {
    hide BitCount, ByteCount, Pow2;
    BitCountAtMost(n, b);
    ByteCountIsBits(n);
  }

  // ----- congruences

  lemma ModShift(a: int, t: int, q: int)
    requires q > 0
    ensures (a + t * q) % q == a % q
  {
    assert a + t * q == (a / q + t) * q + a % q;
    DivModUnique(a + t * q, q, a / q + t, a % q);
  }

  lemma ModWitness(a: int, b: int, t: int, q: int)
    requires q > 0 && a == b + t * q
    ensures a % q == b % q
  {
    ModShift(b, t, q);
  }

  lemma ModMul(a: int, b: int, q: int)
    requires q > 0
    ensures ((a % q) * b) % q == (a * b) % q
  {
    var r, t := a % q, a / q;
    assert a * b == r * b + (t * b) * q by {
      assert a == r + t * q;
      assert (r + t * q) * b == r * b + (t * q) * b;
      assert (t * q) * b == (t * b) * q;
    }
    ModWitness(a * b, r * b, t * b, q);
  }

  lemma ModMulCong(a: int, a': int, b: int, q: int)
    requires q > 0 && a % q == a' % q
    ensures (a * b) % q == (a' * b) % q
  {
    ModMul(a, b, q);
    ModMul(a', b, q);
  }

  lemma ModAdd(a: int, b: int, q: int)
    requires q > 0
    ensures (a % q + b) % q == (a + b) % q
  {
    ModWitness(a + b, a % q + b, a / q, q);
  }

  lemma ModAddCong(a: int, a': int, b: int, b': int, q: int)
    requires q > 0 && a % q == a' % q && b % q == b' % q
    ensures (a + b) % q == (a' + b') % q
  {
    ModAdd(a, b, q);
    ModAdd(a', b, q);
    ModAdd(b, a', q);
    ModAdd(b', a', q);
  }

  lemma ModSmall(a: int, q: int)
    requires 0 <= a < q
    ensures a % q == a
  {
    DivModUnique(a, q, 0, a);
  }

  lemma ModMod(a: int, q: int)
    requires q > 0
    ensures (a % q) % q == a % q
  {
    ModSmall(a % q, q);
  }

  // ----- primes and inverses

  predicate Prime(q: nat) {
    q > 1 && forall d :: 1 < d < q ==> q % d != 0
  }

  predicate Inverts(a: int, y: int, n: nat)
    requires n > 0
  {
    (a * y) % n == 1 % n
  }

  function InverseFrom(a: int, n: nat, y: nat): (r: nat)
    requires n > 0
    ensures r != 0 ==> y <= r < n && Inverts(a, r, n)
    ensures r == 0 ==> forall z :: y <= z < n && z > 0 ==> !Inverts(a, z, n)
    decreases n - y
  {
    if y >= n then 0 else if y > 0 && Inverts(a, y, n) then y else InverseFrom(a, n, y + 1)
  }

  /** Integer::InverseMod: the inverse of `a` below `n`, or zero when there is none. */
  function InverseMod(a: int, n: nat): (r: nat)
    requires n > 0
    ensures r != 0 ==> r < n && Inverts(a, r, n)
    ensures r == 0 ==> forall z :: 0 < z < n ==> !Inverts(a, z, n)
  {
    InverseFrom(a, n, 0)
  }

  lemma {:induction false} Bezout(a: nat, b: nat) returns (g: int, x: int, y: int, u: int, v: int)
    requires a > 0 || b > 0
    ensures g > 0 && g == a * x + b * y
    ensures a == u * g && b == v * g
    decreases b
  {
    if b == 0 {
      g, x, y, u, v := a, 1, 0, 1, 0;
    } else {
      var t, r := a / b, a % b;
      assert a == t * b + r;
      var x', y', u', v';
      g, x', y', u', v' := Bezout(b, r);
      x, y := y', x' - t * y';
      u, v := t * u' + v', u';
      assert (t * b + r) * y' + b * (x' - t * y') == b * x' + r * y' by {
        assert (t * b + r) * y' == (t * b) * y' + r * y';
        assert b * (x' - t * y') == b * x' - b * (t * y');
        assert (t * b) * y' == b * (t * y');
      }
      assert (t * u' + v') * g == t * (u' * g) + v' * g by {
        assert (t * u' + v') * g == (t * u') * g + v' * g;
        assert (t * u') * g == t * (u' * g);
      }
    }
  }

  lemma DivisorIsPositive(v: int, g: int, q: int)
    requires g > 0 && q > 0 && q == v * g
    ensures 0 < g <= q
  {
    if v <= 0 { MulLe(v, 0, g); } else { MulLe(1, v, g); }
  }

  /** Modulo a prime everything that is not a multiple of it has an inverse. */
  lemma PrimeInverse(a: int, q: nat)
    requires Prime(q) && a % q != 0
    ensures InverseMod(a, q) != 0
    ensures (a * InverseMod(a, q)) % q == 1
  {
    ModSmall(1, q);
    var r := a % q;
    var g, x, y, u, v := Bezout(r, q);
    DivisorIsPositive(v, g, q);
    assert g == 1 by {
      if g == q {
        ModShift(0, u, q);
        ModSmall(0, q);
        ModMod(a, q);
      } else if g > 1 {
        ModShift(0, v, g);
        ModSmall(0, g);
      }
    }
    var z := x % q;
    assert (a * z) % q == 1 by {
      ModMul(x, r, q);
      assert r * x == 1 + (-y) * q;
      ModWitness(r * x, 1, -y, q);
      ModMul(a, z, q);
      assert z * r == r * z && x * r == r * x;
    }
    assert z > 0 by {
      ModSmall(0, q);
      assert z == 0 ==> a * z == 0;
    }
    assert Inverts(a, z, q);
  }
}
