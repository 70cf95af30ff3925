/** `UnsignedRsaHiddenOrderGroup`: plain Z_M^*. Elements are residues in
    [0, M); there is no identification of x with -x. */
module UnsignedRsaHog {
  import opened Wrappers
  import opened Bigint
  import opened Hog

  datatype UnsignedRsaHiddenOrderGroup = UnsignedRsaHiddenOrderGroup(n: nat)

  /** `x` and `y` are congruent modulo M. */
  predicate Congruent(p: UnsignedRsaGroupParams, x: int, y: int)
    requires p.Valid()
  {
    (x - y) % p.m == 0
  }

  // ---------------------------------------------------------------------
  // Operations
  // ---------------------------------------------------------------------

  /** `from_nat`: the residue of a positive integer. */
  function FromNat(p: UnsignedRsaGroupParams, x: int): (r: UnsignedRsaHiddenOrderGroup)
    requires p.Valid() && x > 0
    ensures r.n < p.m && Congruent(p, r.n, x)
  {
    ResidueCongruent(p, x);
    UnsignedRsaHiddenOrderGroup(x % p.m)
  }

  /** `op`: the product of two elements modulo M. */
  function Op(p: UnsignedRsaGroupParams, a: UnsignedRsaHiddenOrderGroup, b: UnsignedRsaHiddenOrderGroup): (r: UnsignedRsaHiddenOrderGroup)
    requires p.Valid()
    ensures r.n < p.m && Congruent(p, r.n, a.n * b.n)
  {
    ResidueCongruent(p, a.n * b.n);
    UnsignedRsaHiddenOrderGroup((a.n * b.n) % p.m)
  }

  /** `identity`: the element 1. */
  function Identity(p: UnsignedRsaGroupParams): (r: UnsignedRsaHiddenOrderGroup)
    requires p.Valid()
    ensures r.n == 1 && r.n < p.m
  {
    UnsignedRsaHiddenOrderGroup(1)
  }

  /** `Default`: the element built from 2, i.e. 2 mod M. */
  function Default(p: UnsignedRsaGroupParams): (r: UnsignedRsaHiddenOrderGroup)
    requires p.Valid()
    ensures r.n < p.m && Congruent(p, r.n, 2)
    ensures p.m > 2 ==> r.n == 2
  {
    FromNat(p, 2)
  }

  /** `generator`: `NotCyclic` when the parameters carry no generator,
      otherwise `from_nat(G)`, which reduces G modulo M (`from_nat` asserts
      that G is positive). */
  function Generator(p: UnsignedRsaGroupParams): (r: Result<UnsignedRsaHiddenOrderGroup, RsaHogError>)
    requires p.Valid() && (p.g.Some? ==> p.g.value > 0)
    ensures r.Err? <==> p.g.None?
    ensures r.Err? ==> r.error == NotCyclic
    ensures r.Ok? ==> r.value.n < p.m && Congruent(p, r.value.n, p.g.value)
  {
    match p.g
    case Some(g) => Ok(FromNat(p, g))
    case None => Err(NotCyclic)
  }

  /** `power`: `modpow` by a non-negative exponent. */
  function Power(p: UnsignedRsaGroupParams, a: UnsignedRsaHiddenOrderGroup, e: nat): (r: UnsignedRsaHiddenOrderGroup)
    requires p.Valid()
    ensures r.n == Pow(a.n, e) % p.m
  {
    UnsignedRsaHiddenOrderGroup(ModPow(a.n, e, p.m))
  }

  /** `inverse`: fails with `NotInvertible` exactly when n has no inverse
      modulo M (the gcd exceeds 1); otherwise the Bezout coefficient of n,
      shifted by +M when negative, is the inverse. */
  function Inverse(p: UnsignedRsaGroupParams, a: UnsignedRsaHiddenOrderGroup): (r: Result<UnsignedRsaHiddenOrderGroup, RsaHogError>)
    requires p.Valid()
    ensures r.Err? <==> !Invertible(a.n, p.m)
    ensures r.Err? ==> r.error == NotInvertible
    ensures r.Ok? ==> r.value.n < p.m && Op(p, a, r.value).n == 1
  {
    var w := ExtendedEuclideanGcd(a.n, p.m);
    if w.gcd > 1 then
      CommonFactorNotInvertible(a.n, p.m, w.gcd);
      Err(NotInvertible)
    else
      var inv := if w.x < 0 then w.x + p.m else w.x;
      ShiftedCoefficientIsInverse(a.n, p.m, w.x, w.y);
      ModUnique(inv, p.m, 0, inv);
      Ok(FromNat(p, inv))
  }

  // ---------------------------------------------------------------------
  // Properties
  // ---------------------------------------------------------------------

  /** `from_nat` identifies exactly the integers congruent modulo M. */
  lemma FromNatEqualIff(p: UnsignedRsaGroupParams, x: int, y: int)
    requires p.Valid() && x > 0 && y > 0
    ensures FromNat(p, x) == FromNat(p, y) <==> Congruent(p, x, y)
  {
    var q := x / p.m - y / p.m;
    assert x - y == q * p.m + (x % p.m - y % p.m);
    if x % p.m == y % p.m {
      ModUnique(x - y, p.m, q, 0);
    } else if x % p.m > y % p.m {
      ModUnique(x - y, p.m, q, x % p.m - y % p.m);
    } else {
      assert x - y == (q - 1) * p.m + (p.m + x % p.m - y % p.m);
      ModUnique(x - y, p.m, q - 1, p.m + x % p.m - y % p.m);
    }
  }

  /** No sign identification: x and M - x are different elements unless
      they coincide as residues (2x = M). */
  lemma NoSignIdentification(p: UnsignedRsaGroupParams, x: int)
    requires p.Valid() && 0 < x < p.m && 2 * x != p.m
    ensures FromNat(p, x) != FromNat(p, p.m - x)
  {
    ModUnique(x, p.m, 0, x);
    ModUnique(p.m - x, p.m, 0, p.m - x);
  }

  /** The worked example of the source's tests: (M - 30) * 40 = M - 1200. */
  lemma OpExample(p: UnsignedRsaGroupParams)
    requires p.Valid() && p.m > 1200
    ensures Op(p, FromNat(p, p.m - 30), FromNat(p, 40)).n == p.m - 1200
  {
    ModUnique(p.m - 30, p.m, 0, p.m - 30);
    ModUnique(40, p.m, 0, 40);
    assert (p.m - 30) * 40 == 39 * p.m + (p.m - 1200);
    ModUnique((p.m - 30) * 40, p.m, 39, p.m - 1200);
  }

  lemma OpCommutative(p: UnsignedRsaGroupParams, a: UnsignedRsaHiddenOrderGroup, b: UnsignedRsaHiddenOrderGroup)
    requires p.Valid()
    ensures Op(p, a, b) == Op(p, b, a)
  {
    assert a.n * b.n == b.n * a.n;
  }

  lemma OpAssociative(p: UnsignedRsaGroupParams, a: UnsignedRsaHiddenOrderGroup, b: UnsignedRsaHiddenOrderGroup, c: UnsignedRsaHiddenOrderGroup)
    requires p.Valid()
    ensures Op(p, Op(p, a, b), c) == Op(p, a, Op(p, b, c))
  {
    var m, x, y, z := p.m, a.n, b.n, c.n;
    ModMulLeft(x * y, z, m);
    ModMulLeft(y * z, x, m);
    assert (x * y) * z == (y * z) * x;
    assert x * ((y * z) % m) == ((y * z) % m) * x;
  }

  /** The identity is neutral for every reduced element. */
  lemma IdentityLeft(p: UnsignedRsaGroupParams, a: UnsignedRsaHiddenOrderGroup)
    requires p.Valid() && a.n < p.m
    ensures Op(p, Identity(p), a) == a
  {
    ModUnique(a.n, p.m, 0, a.n);
  }

  /** Powers add their exponents under `op`. */
  lemma PowerAdd(p: UnsignedRsaGroupParams, a: UnsignedRsaHiddenOrderGroup, e1: nat, e2: nat)
    requires p.Valid()
    ensures Power(p, a, e1 + e2) == Op(p, Power(p, a, e1), Power(p, a, e2))
  {
    PowAdd(a.n, e1, e2);
    ModMul(Pow(a.n, e1), Pow(a.n, e2), p.m);
  }

  lemma ResidueCongruent(p: UnsignedRsaGroupParams, x: int)
    requires p.Valid()
    ensures Congruent(p, x % p.m, x)
  {
    ModUnique(x % p.m - x, p.m, -(x / p.m), 0);
  }
}
