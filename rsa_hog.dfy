/** `RsaHiddenOrderGroup`: the group QR_M^+ of absolute values of quadratic
    residues modulo M. An element stands for the class {x, -x} modulo M and
    is stored as its canonical representative min(x mod M, M - x mod M). */
module RsaHog {
  import opened Wrappers
  import opened Bigint
  import opened Hog

  datatype RsaHiddenOrderGroup = RsaHiddenOrderGroup(n: nat)

  /** `n` is the canonical representative of its class: it is not larger than
      its complement M - n, so 0 <= n <= M/2. */
  predicate Canonical(p: RsaGroupParams, n: int)
  {
    0 <= n <= p.m - n
  }

  /** `x` and `y` are in the same class {v, -v} modulo M. */
  predicate SameClass(p: RsaGroupParams, x: int, y: int)
    requires p.Valid()
  {
    (x - y) % p.m == 0 || (x + y) % p.m == 0
  }

  // ---------------------------------------------------------------------
  // Operations
  // ---------------------------------------------------------------------

  /** The `min(a, M - a)` step every operation ends with, for a residue a. */
  function MinWithComplement(p: RsaGroupParams, a: nat): (n: nat)
    requires p.Valid() && a < p.m
    ensures Canonical(p, n) && SameClass(p, n, a)
  {
    if a <= p.m - a then
      a
    else
      ModUnique(p.m, p.m, 1, 0);
      p.m - a
  }

  /** `from_nat`: reduce a positive integer to its canonical representative. */
  function FromNat(p: RsaGroupParams, x: int): (r: RsaHiddenOrderGroup)
    requires p.Valid() && x > 0
    ensures Canonical(p, r.n) && SameClass(p, r.n, x)
  {
    var n := MinWithComplement(p, x % p.m);
    SameClassResidue(p, x);
    SameClassTrans(p, n, x % p.m, x);
    RsaHiddenOrderGroup(n)
  }

  /** `op`: the product of two elements, canonicalised. */
  function Op(p: RsaGroupParams, a: RsaHiddenOrderGroup, b: RsaHiddenOrderGroup): (r: RsaHiddenOrderGroup)
    requires p.Valid()
    ensures Canonical(p, r.n) && SameClass(p, r.n, a.n * b.n)
  {
    var n := MinWithComplement(p, (a.n * b.n) % p.m);
    SameClassResidue(p, a.n * b.n);
    SameClassTrans(p, n, (a.n * b.n) % p.m, a.n * b.n);
    RsaHiddenOrderGroup(n)
  }

  /** `identity`: the element 1. */
  function Identity(p: RsaGroupParams): (r: RsaHiddenOrderGroup)
    requires p.Valid()
    ensures r.n == 1 && Canonical(p, r.n)
  {
    RsaHiddenOrderGroup(1)
  }

  /** `generator`: G exactly as the parameters give it, neither reduced nor
      canonicalised. */
  function Generator(p: RsaGroupParams): (r: RsaHiddenOrderGroup)
    ensures r.n == p.g
  {
    RsaHiddenOrderGroup(p.g)
  }

  /** `Default`: the element built from 2. */
  function Default(p: RsaGroupParams): (r: RsaHiddenOrderGroup)
    requires p.Valid()
    ensures Canonical(p, r.n) && SameClass(p, r.n, 2)
  {
    FromNat(p, 2)
  }

  /** `power`: `modpow` by a non-negative exponent, canonicalised. */
  function Power(p: RsaGroupParams, a: RsaHiddenOrderGroup, e: nat): (r: RsaHiddenOrderGroup)
    requires p.Valid()
    ensures Canonical(p, r.n) && SameClass(p, r.n, Pow(a.n, e))
  {
    var n := MinWithComplement(p, ModPow(a.n, e, p.m));
    SameClassResidue(p, Pow(a.n, e));
    SameClassTrans(p, n, Pow(a.n, e) % p.m, Pow(a.n, e));
    RsaHiddenOrderGroup(n)
  }

  /** `inverse`: fails with `NotInvertible` exactly when n has no inverse
      modulo M (the gcd exceeds 1); otherwise the Bezout coefficient of n,
      shifted by +M when negative, is canonicalised, and multiplying by it
      gives the identity. */
  function Inverse(p: RsaGroupParams, a: RsaHiddenOrderGroup): (r: Result<RsaHiddenOrderGroup, RsaHogError>)
    requires p.Valid()
    ensures r.Err? <==> !Invertible(a.n, p.m)
    ensures r.Err? ==> r.error == NotInvertible
    ensures r.Ok? ==> Canonical(p, r.value.n) && Op(p, a, r.value).n == 1
  {
    var w := ExtendedEuclideanGcd(a.n, p.m);
    if w.gcd > 1 then
      CommonFactorNotInvertible(a.n, p.m, w.gcd);
      Err(NotInvertible)
    else
      var inv := if w.x < 0 then w.x + p.m else w.x;
      ShiftedCoefficientIsInverse(a.n, p.m, w.x, w.y);
      OpWithInverse(p, a, inv);
      Ok(FromNat(p, inv))
  }

  // ---------------------------------------------------------------------
  // Properties
  // ---------------------------------------------------------------------

  /** The two representatives of a class give the same element: x and M - x
      are identified. */
  lemma FromNatSignQuotient(p: RsaGroupParams, x: int)
    requires p.Valid() && 0 < x < p.m
    ensures FromNat(p, x) == FromNat(p, p.m - x)
  {
    var a, b := FromNat(p, x), FromNat(p, p.m - x);
    ModUnique(p.m, p.m, 1, 0);
    assert SameClass(p, x, p.m - x);
    SameClassTrans(p, a.n, x, p.m - x);
    SameClassSymm(p, b.n, p.m - x);
    SameClassTrans(p, a.n, p.m - x, b.n);
    CanonicalUnique(p, a.n, b.n);
  }

  /** `from_nat` identifies exactly the integers in one class {x, -x}. */
  lemma FromNatEqualIff(p: RsaGroupParams, x: int, y: int)
    requires p.Valid() && x > 0 && y > 0
    ensures FromNat(p, x) == FromNat(p, y) <==> SameClass(p, x, y)
  {
    var a, b := FromNat(p, x), FromNat(p, y);
    SameClassSymm(p, a.n, x);
    SameClassSymm(p, b.n, y);
    if a == b {
      SameClassTrans(p, x, a.n, y);
    }
    if SameClass(p, x, y) {
      SameClassTrans(p, a.n, x, y);
      SameClassTrans(p, a.n, y, b.n);
      CanonicalUnique(p, a.n, b.n);
    }
  }

  lemma OpCommutative(p: RsaGroupParams, a: RsaHiddenOrderGroup, b: RsaHiddenOrderGroup)
    requires p.Valid()
    ensures Op(p, a, b) == Op(p, b, a)
  {
    assert a.n * b.n == b.n * a.n;
  }

  lemma OpAssociative(p: RsaGroupParams, a: RsaHiddenOrderGroup, b: RsaHiddenOrderGroup, c: RsaHiddenOrderGroup)
    requires p.Valid()
    ensures Op(p, Op(p, a, b), c) == Op(p, a, Op(p, b, c))
  {
    var ab, bc := Op(p, a, b), Op(p, b, c);
    var l, r := Op(p, ab, c), Op(p, a, bc);
    SameClassRefl(p, c.n);
    SameClassRefl(p, a.n);
    SameClassMul(p, ab.n, a.n * b.n, c.n, c.n);
    SameClassMul(p, a.n, a.n, bc.n, b.n * c.n);
    assert (a.n * b.n) * c.n == a.n * (b.n * c.n);
    SameClassTrans(p, l.n, ab.n * c.n, a.n * b.n * c.n);
    SameClassSymm(p, a.n * bc.n, a.n * (b.n * c.n));
    SameClassTrans(p, l.n, a.n * b.n * c.n, a.n * bc.n);
    SameClassSymm(p, r.n, a.n * bc.n);
    SameClassTrans(p, l.n, a.n * bc.n, r.n);
    CanonicalUnique(p, l.n, r.n);
  }

  /** The identity is neutral for every canonical element. */
  lemma IdentityLeft(p: RsaGroupParams, a: RsaHiddenOrderGroup)
    requires p.Valid() && Canonical(p, a.n)
    ensures Op(p, Identity(p), a) == a
  {
    var r := Op(p, Identity(p), a);
    assert Identity(p).n * a.n == a.n;
    CanonicalUnique(p, r.n, a.n);
  }

  /** Powers add their exponents under `op`. */
  lemma PowerAdd(p: RsaGroupParams, a: RsaHiddenOrderGroup, e1: nat, e2: nat)
    requires p.Valid()
    ensures Power(p, a, e1 + e2) == Op(p, Power(p, a, e1), Power(p, a, e2))
  {
    var x, y := Power(p, a, e1), Power(p, a, e2);
    var l, r := Power(p, a, e1 + e2), Op(p, x, y);
    PowAdd(a.n, e1, e2);
    SameClassMul(p, x.n, Pow(a.n, e1), y.n, Pow(a.n, e2));
    SameClassTrans(p, r.n, x.n * y.n, Pow(a.n, e1 + e2));
    SameClassSymm(p, l.n, Pow(a.n, e1 + e2));
    SameClassTrans(p, r.n, Pow(a.n, e1 + e2), l.n);
    CanonicalUnique(p, r.n, l.n);
  }

  /** `generator` does not canonicalise: whenever G is not its own canonical
      representative, `generator()` differs from `from_nat(G)`. */
  lemma GeneratorNotCanonicalised(p: RsaGroupParams)
    requires p.Valid() && p.g > 0 && !Canonical(p, p.g)
    ensures Generator(p) != FromNat(p, p.g)
  {
    assert !Canonical(p, Generator(p).n);
  }

  // ---------------------------------------------------------------------
  // Arithmetic on classes
  // ---------------------------------------------------------------------

  /** Multiplying by an inverse modulo M and canonicalising gives 1. */
  lemma OpWithInverse(p: RsaGroupParams, a: RsaHiddenOrderGroup, c: int)
    requires p.Valid() && 0 < c && (a.n * c) % p.m == 1
    ensures Op(p, a, FromNat(p, c)).n == 1
  {
    var b := FromNat(p, c);
    var r := Op(p, a, b);
    SameClassRefl(p, a.n);
    SameClassMul(p, a.n, a.n, b.n, c);
    SameClassTrans(p, r.n, a.n * b.n, a.n * c);
    ResidueOne(p, a.n * c);
    SameClassTrans(p, r.n, a.n * c, 1);
    CanonicalUnique(p, r.n, 1);
  }

  lemma ResidueOne(p: RsaGroupParams, t: int)
    requires p.Valid() && t % p.m == 1
    ensures SameClass(p, t, 1)
  {
    var k := t / p.m;
    assert t == k * p.m + 1;
    ModUnique(t - 1, p.m, k, 0);
  }

  lemma SameClassRefl(p: RsaGroupParams, x: int)
    requires p.Valid()
    ensures SameClass(p, x, x)
  {
  }

  lemma SameClassSymm(p: RsaGroupParams, x: int, y: int)
    requires p.Valid() && SameClass(p, x, y)
    ensures SameClass(p, y, x)
  {
    if (x - y) % p.m == 0 {
      DivLinear(p.m, x - y, 0, -1);
    } else {
      assert y + x == x + y;
    }
  }

  lemma SameClassTrans(p: RsaGroupParams, x: int, y: int, z: int)
    requires p.Valid() && SameClass(p, x, y) && SameClass(p, y, z)
    ensures SameClass(p, x, z)
  {
    var m := p.m;
    if (x - y) % m == 0 && (y - z) % m == 0 {
      DivLinear(m, x - y, y - z, 1);
      assert x - z == 1 * (x - y) + (y - z);
    } else if (x - y) % m == 0 {
      DivLinear(m, x - y, y + z, 1);
      assert x + z == 1 * (x - y) + (y + z);
    } else if (y - z) % m == 0 {
      DivLinear(m, y - z, x + y, -1);
      assert x + z == -1 * (y - z) + (x + y);
    } else {
      DivLinear(m, y + z, x + y, -1);
      assert x - z == -1 * (y + z) + (x + y);
    }
  }

  lemma SameClassResidue(p: RsaGroupParams, x: int)
    requires p.Valid()
    ensures SameClass(p, x % p.m, x)
  {
    ModUnique(x % p.m - x, p.m, -(x / p.m), 0);
  }

  /** Classes are compatible with multiplication. */
  lemma SameClassMul(p: RsaGroupParams, x: int, x': int, y: int, y': int)
    requires p.Valid() && SameClass(p, x, x') && SameClass(p, y, y')
    ensures SameClass(p, x * y, x' * y')
  {
    var m := p.m;
    if (x - x') % m == 0 && (y - y') % m == 0 {
      Combination(m, y - y', x - x', x, y');
      assert x * y - x' * y' == x * (y - y') + y' * (x - x');
    } else if (y - y') % m == 0 {
      Combination(m, y - y', x + x', x, y');
      assert x * y + x' * y' == x * (y - y') + y' * (x + x');
    } else if (x - x') % m == 0 {
      Combination(m, y + y', x - x', x, -y');
      assert x * y + x' * y' == x * (y + y') + (-y') * (x - x');
    } else {
      Combination(m, y + y', x + x', x, -y');
      assert x * y - x' * y' == x * (y + y') + (-y') * (x + x');
    }
  }

  lemma Combination(m: int, u: int, v: int, k1: int, k2: int)
    requires m > 0 && u % m == 0 && v % m == 0
    ensures (k1 * u + k2 * v) % m == 0
  {
    DivLinear(m, v, 0, k2);
    DivLinear(m, u, k2 * v, k1);
  }

  /** A class holds exactly one canonical representative. */
  lemma CanonicalUnique(p: RsaGroupParams, a: int, b: int)
    requires p.Valid() && Canonical(p, a) && Canonical(p, b) && SameClass(p, a, b)
    ensures a == b
  {
    var m := p.m;
    if (a - b) % m == 0 {
      if a > b {
        ModUnique(a - b, m, 0, a - b);
      } else if a < b {
        ModUnique(a - b, m, -1, m + a - b);
      }
    } else {
      if a + b < m {
        ModUnique(a + b, m, 0, a + b);
      }
    }
  }
}
