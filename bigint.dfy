/** The arbitrary-precision integer operations the core relies on: Euclidean
    division facts, `modpow`, the extended Euclidean algorithm behind
    `extended_euclidean_gcd`, and the conversions `to_bytes_be` and
    `to_u64_digits`. Values are Dafny's unbounded integers. */
module Bigint {

  type byte = x: int | 0 <= x < 256
  type u64 = x: int | 0 <= x < 0x1_0000_0000_0000_0000

  const LimbBase: nat := 0x1_0000_0000_0000_0000

  // ---------------------------------------------------------------------
  // Division with remainder (non-negative remainders, as for num-bigint on
  // non-negative operands)
  // ---------------------------------------------------------------------

  lemma MulAtLeast(k: int, m: int)
    requires k >= 1 && m > 0
    ensures k * m >= m
  {
    if k > 1 {
      MulAtLeast(k - 1, m);
      assert k * m == (k - 1) * m + m;
    }
  }

  lemma MulMonotone(q: int, y: int, b: int)
    requires q >= 0 && y <= b
    ensures q * y <= q * b
  {
    assert q * b - q * y == q * (b - y);
    if q > 0 && b > y {
      MulAtLeast(q, b - y);
    }
  }

  /** Quotient and remainder are unique. */
  lemma ModUnique(a: int, m: int, q: int, r: int)
    requires m > 0 && a == q * m + r && 0 <= r < m
    ensures a % m == r && a / m == q
  {
    var q0, r0 := a / m, a % m;
    assert a == q0 * m + r0;
    assert (q - q0) * m == r0 - r;
    if q > q0 {
      MulAtLeast(q - q0, m);
    } else if q < q0 {
      MulAtLeast(q0 - q, m);
    }
  }

  lemma ModAddMultiple(a: int, k: int, m: int)
    requires m > 0
    ensures (a + k * m) % m == a % m
  {
    assert a + k * m == (a / m + k) * m + a % m;
    ModUnique(a + k * m, m, a / m + k, a % m);
  }

  lemma ModMod(a: int, m: int)
    requires m > 0
    ensures (a % m) % m == a % m
  {
    ModUnique(a % m, m, 0, a % m);
  }

  lemma ModMul(a: int, b: int, m: int)
    requires m > 0
    ensures (a * b) % m == ((a % m) * (b % m)) % m
  {
    var qa, ra, qb, rb := a / m, a % m, b / m, b % m;
    assert a == qa * m + ra;
    assert b == qb * m + rb;
    var k := qa * qb * m + qa * rb + ra * qb;
    calc {
      a * b;
      (qa * m + ra) * (qb * m + rb);
      ra * rb + (qa * qb * m + qa * rb + ra * qb) * m;
    }
    ModAddMultiple(ra * rb, k, m);
  }

  /** Reducing one factor first does not change the residue of a product. */
  lemma ModMulLeft(x: int, y: int, m: int)
    requires m > 0
    ensures ((x % m) * y) % m == (x * y) % m
  {
    ModMul(x, y, m);
    ModMul(x % m, y, m);
    ModMod(x, m);
  }

  /** A multiple of `d` stays a multiple after scaling and adding a multiple. */
  lemma DivLinear(d: int, x: int, y: int, k: int)
    requires d > 0 && x % d == 0 && y % d == 0
    ensures (k * x + y) % d == 0
  {
    var qx, qy := x / d, y / d;
    assert x == qx * d;
    assert y == qy * d;
    assert k * x + y == (k * qx + qy) * d;
    ModUnique(k * x + y, d, k * qx + qy, 0);
  }

  // ---------------------------------------------------------------------
  // Powers and modpow
  // ---------------------------------------------------------------------

  function Pow(b: int, e: nat): int
  {
    if e == 0 then 1 else b * Pow(b, e - 1)
  }

  lemma {:induction false} PowAdd(b: int, e1: nat, e2: nat)
    ensures Pow(b, e1 + e2) == Pow(b, e1) * Pow(b, e2)
  {
    if e1 > 0 {
      PowAdd(b, e1 - 1, e2);
      assert Pow(b, e1 + e2) == b * Pow(b, e1 - 1 + e2);
    }
  }

  lemma {:induction false} PowMul(b: int, k: nat, e: nat)
    ensures Pow(b, k * e) == Pow(Pow(b, k), e)
  {
    if e > 0 {
      PowMul(b, k, e - 1);
      assert k * e == k * (e - 1) + k;
      PowAdd(b, k * (e - 1), k);
    }
  }

  /** `BigInt::modpow` for a non-negative base and exponent and a positive
      modulus, computed by square-and-multiply. */
  function ModPow(b: nat, e: nat, m: nat): (r: nat)
    requires m > 0
    ensures r < m && r == Pow(b, e) % m
    decreases e
  {
    if e == 0 then
      1 % m
    else if e % 2 == 0 then
      var h := ModPow(b, e / 2, m);
      PowAdd(b, e / 2, e / 2);
      ModMul(Pow(b, e / 2), Pow(b, e / 2), m);
      (h * h) % m
    else
      var t := ModPow(b, e - 1, m);
      ModMul(b, Pow(b, e - 1), m);
      ModMul(b, t, m);
      ModMod(Pow(b, e - 1), m);
      (b * t) % m
  }

  // ---------------------------------------------------------------------
  // Extended Euclidean algorithm (crate::bigint::extended_euclidean_gcd)
  // ---------------------------------------------------------------------

  /** Bezout coefficients `x`, `y` with `x * a + y * b == gcd`. */
  datatype Bezout = Bezout(x: int, y: int, gcd: nat)

  function AtLeastOne(a: nat): nat { if a == 0 then 1 else a }

  /** The extended Euclidean algorithm on non-negative operands. The gcd is
      returned non-negative, and the first coefficient is bounded by `b`
      (this bound is what makes the `+M` shift in `inverse` land in (0, M)). */
  function ExtendedEuclideanGcd(a: nat, b: nat): (r: Bezout)
    ensures EuclidResult(a, b, r)
    decreases b
  {
    if b == 0 then
      Bezout(1, 0, a)
    else
      var w := ExtendedEuclideanGcd(b, a % b);
      EuclidStep(a, b, w);
      Bezout(w.y, w.x - (a / b) * w.y, w.gcd)
  }

  /** What the algorithm returns for `(a, b)`: the Bezout identity, a gcd that
      is zero only for two zeros and divides both operands, `(1, 0, a)` when
      `b` is zero, and coefficients bounded by the operands otherwise. */
  predicate EuclidResult(a: nat, b: nat, r: Bezout)
  {
    && r.x * a + r.y * b == r.gcd
    && (r.gcd == 0 <==> a == 0 && b == 0)
    && (r.gcd > 0 ==> a % r.gcd == 0 && b % r.gcd == 0)
    && (b == 0 ==> r == Bezout(1, 0, a))
    && (b > 0 ==> -(b as int) <= r.x <= b && -(AtLeastOne(a) as int) <= r.y <= AtLeastOne(a))
  }

  /** One step of the algorithm: from the result for `(b, a % b)` to the
      result for `(a, b)`. */
  lemma EuclidStep(a: nat, b: nat, w: Bezout)
    requires b > 0 && EuclidResult(b, a % b, w)
    ensures EuclidResult(a, b, Bezout(w.y, w.x - (a / b) * w.y, w.gcd))
  {
    var q, rem := a / b, a % b;
    assert a == q * b + rem;
    EuclidBezout(a, b, q, rem, w.x, w.y);
    EuclidDivides(a, b, q, rem, w.gcd);
    EuclidBound(a, b, q, rem, w);
  }

  /** The three facts one step of the algorithm carries from the result for
      `(b, a % b)` to the result for `(a, b)`: the Bezout identity ... */
  lemma EuclidBezout(a: int, b: int, q: int, rem: int, x: int, y: int)
    requires a == q * b + rem
    ensures y * a + (x - q * y) * b == x * b + y * rem
  {
    calc {
      y * a + (x - q * y) * b;
      y * (q * b + rem) + (x - q * y) * b;
      y * q * b + y * rem + x * b - q * y * b;
      x * b + y * rem;
    }
  }

  /** ... the divisibility of `a` by the gcd ... */
  lemma EuclidDivides(a: int, b: int, q: int, rem: int, g: nat)
    requires a == q * b + rem
    requires g > 0 ==> b % g == 0 && rem % g == 0
    ensures g > 0 ==> a % g == 0
  {
    if g > 0 {
      DivLinear(g, b, rem, q);
    }
  }

  /** ... and the bound on the second coefficient. */
  lemma EuclidBound(a: nat, b: nat, q: int, rem: int, w: Bezout)
    requires b > 0 && q == a / b && rem == a % b && a == q * b + rem
    requires rem == 0 ==> w == Bezout(1, 0, b)
    requires rem > 0 ==> -rem <= w.x <= rem && -(b as int) <= w.y <= b
    ensures -(AtLeastOne(a) as int) <= w.x - q * w.y <= AtLeastOne(a)
  {
    if rem > 0 {
      MulMonotone(q, w.y, b);
      MulMonotone(q, -w.y, b);
    }
  }

  /** Every common divisor of `a` and `b` divides the computed gcd: it is the
      greatest common divisor. */
  lemma GcdIsGreatest(a: nat, b: nat, d: int)
    requires d > 0 && a % d == 0 && b % d == 0
    ensures ExtendedEuclideanGcd(a, b).gcd % d == 0
  {
    var w := ExtendedEuclideanGcd(a, b);
    DivLinear(d, b, 0, w.y);
    DivLinear(d, a, w.y * b, w.x);
  }

  /** `a` has a multiplicative inverse modulo `m`. */
  ghost predicate Invertible(a: int, m: nat)
    requires m > 0
  {
    exists c: int :: (a * c) % m == 1
  }

  /** A common factor greater than one rules out an inverse. */
  lemma CommonFactorNotInvertible(a: int, m: nat, g: int)
    requires m > 1 && g > 1 && a % g == 0 && m % g == 0
    ensures !Invertible(a, m)
  {
    forall c: int
      ensures (a * c) % m != 1
    {
      if (a * c) % m == 1 {
        var k := (a * c) / m;
        assert a * c == k * m + 1;
        DivLinear(g, a, 0, c);
        DivLinear(g, m, a * c, -k);
        assert -k * m + a * c == 1;
        ModUnique(1, g, 0, 1);
      }
    }
  }

  /** With gcd 1 and |x| <= m, the coefficient shifted by `+m` when negative
      lies in (0, m) and is an inverse of `a`. */
  lemma ShiftedCoefficientIsInverse(a: nat, m: nat, x: int, y: int)
    requires m > 1 && x * a + y * m == 1 && -(m as int) <= x <= m
    ensures var s := if x < 0 then x + m else x;
      0 < s < m && (a * s) % m == 1
  {
    var s := if x < 0 then x + m else x;
    if x == 0 {
      assert y * m == 1;
      if y >= 1 { MulAtLeast(y, m); } else { MulMonotone(m, y, 0); }
      assert false;
    }
    if x == m || x == -(m as int) {
      var k := if x == m then a + y else y - a;
      assert k * m == 1;
      if k >= 1 { MulAtLeast(k, m); } else { MulMonotone(m, k, 0); }
      assert false;
    }
    var q := if x < 0 then a - y else -y;
    assert a * s == q * m + 1;
    ModUnique(a * s, m, q, 1);
  }

  // ---------------------------------------------------------------------
  // Byte and limb conversions of BigInt magnitudes
  // ---------------------------------------------------------------------

  function Zeros(k: nat): (r: seq<byte>)
    ensures |r| == k && forall i :: 0 <= i < k ==> r[i] == 0
  {
    seq(k, _ => 0)
  }

  /** The value of a big-endian byte string. */
  function FromBytesBe(s: seq<byte>): nat
  {
    if s == [] then 0 else FromBytesBe(s[..|s| - 1]) * 256 + s[|s| - 1]
  }

  /** `BigUint::to_bytes_be`: the minimal big-endian bytes of `n`, and `[0]`
      for zero. */
  function ToBytesBe(n: nat): (r: seq<byte>)
    ensures |r| > 0
    ensures n > 0 ==> r[0] != 0
    ensures n == 0 ==> r == [0]
    ensures FromBytesBe(r) == n
  {
    if n < 256 then
      [n]
    else
      var hi := ToBytesBe(n / 256);
      assert (hi + [n % 256])[..|hi|] == hi;
      hi + [n % 256]
  }

  /** Leading zero bytes do not change the value. */
  lemma {:induction false} FromBytesBeLeadingZeros(k: nat, s: seq<byte>)
    ensures FromBytesBe(Zeros(k) + s) == FromBytesBe(s)
    decreases |s|, k
  {
    if s == [] {
      assert Zeros(k) + s == Zeros(k);
      if k > 0 {
        assert Zeros(k)[..k - 1] == Zeros(k - 1);
        assert Zeros(k - 1) + [] == Zeros(k - 1);
        FromBytesBeLeadingZeros(k - 1, []);
      }
    } else {
      var t := Zeros(k) + s;
      assert t[..|t| - 1] == Zeros(k) + s[..|s| - 1];
      assert t[|t| - 1] == s[|s| - 1];
      FromBytesBeLeadingZeros(k, s[..|s| - 1]);
    }
  }

  /** The value of little-endian u64 limbs. */
  function LimbsValue(s: seq<u64>): nat
  {
    if s == [] then 0 else s[0] + LimbBase * LimbsValue(s[1..])
  }

  /** Splitting limbs: the high limbs count `LimbBase^n` times. */
  lemma {:induction false} LimbsValueSplit(s: seq<u64>, n: nat)
    requires n <= |s|
    ensures LimbsValue(s) == LimbsValue(s[..n]) + Pow(LimbBase, n) * LimbsValue(s[n..])
  {
    if n == 0 {
      assert s[..0] == [] && s[0..] == s;
    } else {
      LimbsValueSplit(s[1..], n - 1);
      assert s[1..][..n - 1] == s[..n][1..];
      assert s[1..][n - 1..] == s[n..];
      var lo, hi := LimbsValue(s[1..][..n - 1]), LimbsValue(s[n..]);
      var p := Pow(LimbBase, n - 1);
      assert LimbsValue(s) == s[0] + LimbBase * (lo + p * hi);
      assert LimbsValue(s[..n]) == s[0] + LimbBase * lo;
      assert LimbBase * (lo + p * hi) == LimbBase * lo + (LimbBase * p) * hi;
    }
  }

  /** The value of four limbs, written out. */
  lemma LimbsValueFour(c: seq<u64>)
    requires |c| == 4
    ensures LimbsValue(c) == c[0] + LimbBase * (c[1] + LimbBase * (c[2] + LimbBase * c[3]))
  {
    assert c[1..][1..] == c[2..];
    assert c[2..][1..] == c[3..];
    assert c[3..][1..] == [];
    assert LimbsValue(c[3..]) == c[3];
    assert LimbsValue(c[2..]) == c[2] + LimbBase * c[3];
    assert LimbsValue(c[1..]) == c[1] + LimbBase * (c[2] + LimbBase * c[3]);
  }

  /** `BigUint::to_u64_digits`: the minimal little-endian u64 limbs of `n`
      (empty for zero). */
  function ToU64Digits(n: nat): (r: seq<u64>)
    ensures LimbsValue(r) == n
    ensures r == [] <==> n == 0
    ensures r != [] ==> r[|r| - 1] != 0
  {
    if n == 0 then [] else [n % LimbBase] + ToU64Digits(n / LimbBase)
  }
}
