/** The Beckmann microfacet distribution: its normal distribution D, its
    shadowing-masking term G (with the rational approximation G_helper) and
    its half-vector sampler. */
module Beckmann {
  import opened VecMath
  import opened Hemisphere

  // The float literals of G_helper (1.6f, 3.535f, ...), each the exact float
  // value that Java widens to double.
  const Cutoff: real := 1.60000002384185791015625
  const K1: real := 3.5350000858306884765625
  const K2: real := 2.1809999942779541015625
  const K3: real := 2.27600002288818359375
  const K4: real := 2.5769999027252197265625

  /** tan^2 of the angle whose cosine is c: (1 - c^2) / c^2. */
  function TanSq(c: real): real
    requires c != 0.0
  {
    Square(c);
    (1.0 - Mul(c, c)) / Mul(c, c)
  }

  /** Beckmann.D: exp(-tan^2 / alpha^2) / (pi alpha^2 cos^4) for a half-vector
      above the surface, zero otherwise. */
  function D(lib: Lib, alpha: real, h: Vec3, n: Vec3): (d: real)
    requires alpha != 0.0
    ensures Dot(h, n) <= 0.0 ==> d == 0.0
    ensures ExpLawful(lib) && 0.0 < Dot(h, n) ==> 0.0 < d
    ensures ExpLawful(lib) ==> 0.0 <= d
  {
    var c := Dot(h, n);
    if c > 0.0 then
      var c2 := Mul(c, c);
      var c4 := Mul(c2, c2);
      var a2 := Mul(alpha, alpha);
      DenominatorPositive(alpha, c);
      lib.exp(-TanSq(c) / a2) / Mul(Pi, Mul(a2, c4))
    else 0.0
  }

  lemma DenominatorPositive(alpha: real, c: real)
    requires alpha != 0.0 && c != 0.0
    ensures 0.0 < Mul(alpha, alpha) && 0.0 < Mul(Mul(c, c), Mul(c, c))
    ensures 0.0 < Mul(Pi, Mul(Mul(alpha, alpha), Mul(Mul(c, c), Mul(c, c))))
  {
    Square(alpha);
    Square(c);
    MulPos(Mul(c, c), Mul(c, c));
    MulPos(Mul(alpha, alpha), Mul(Mul(c, c), Mul(c, c)));
    MulPos(Pi, Mul(Mul(alpha, alpha), Mul(Mul(c, c), Mul(c, c))));
  }

  /** The denominator of G_helper's rational approximation has no real root. */
  lemma HelperDenominator(a: real)
    ensures 0.0 < 1.0 + K3 * a + K4 * (a * a)
  {
    SquareRaw(2.0 * K4 * a + K3);
    assert 4.0 * K4 * (1.0 + K3 * a + K4 * (a * a))
        == (2.0 * K4 * a + K3) * (2.0 * K4 * a + K3) + (4.0 * K4 - K3 * K3);
  }

  /** Beckmann.G_helper: 1 from the cut-off on, the rational approximation
      (3.535 a + 2.181 a^2) / (1 + 2.276 a + 2.577 a^2) below it. */
  function GHelper(a: real): (r: real)
    ensures Cutoff <= a ==> r == 1.0
    ensures 0.0 <= a ==> 0.0 <= r
  {
    if a >= Cutoff then 1.0
    else
      HelperDenominator(a);
      if 0.0 <= a then
        HelperNumerator(a);
        (K1 * a + K2 * (a * a)) / (1.0 + K3 * a + K4 * (a * a))
      else
        (K1 * a + K2 * (a * a)) / (1.0 + K3 * a + K4 * (a * a))
  }

  lemma HelperNumerator(a: real)
    requires 0.0 <= a
    ensures 0.0 <= K1 * a + K2 * (a * a)
  {
    SquareRaw(a);
  }

  /** The approximation overshoots 1 just below the cut-off: at a = 1.59,
      G_helper is above 1, so G is not bounded by 1. */
  lemma HelperOvershoots()
    ensures GHelper(1.59) > 1.0
  {
    var a := 1.59;
    assert a * a == 2.5281;
    assert K1 * a + K2 * (a * a) > 1.0 + K3 * a + K4 * (a * a);
  }

  /** Beckmann.G on values: zero unless v . m and v . n have the same sign;
      otherwise G_helper(1 / (alpha tan(theta_v))), where theta_v is the angle
      between the normalised v and n.  When tan(theta_v) is zero Java's
      division gives +infinity, which is past the cut-off, so the result is 1. */
  function G(lib: Lib, alpha: real, v: Vec3, m: Vec3, n: Vec3): (g: real)
    requires Lawful(lib) && 0.0 < alpha && Dot(v, n) != 0.0
    ensures Dot(v, m) / Dot(v, n) <= 0.0 ==> g == 0.0
    ensures 0.0 <= g
  {
    if Dot(v, m) / Dot(v, n) > 0.0 then
      NormalisedCosine(lib, v, n);
      var c := Abs(Dot(Normalize(lib, v), Normalize(lib, n)));
      var s := lib.sqrt(1.0 - Mul(c, c));
      var t := s / c;
      if t == 0.0 then 1.0
      else
        MulPos(alpha, t);
        GHelper(1.0 / Mul(alpha, t))
    else 0.0
  }

  /** Beckmann.G, which normalises its arguments v and n in place when the
      sign test passes. */
  method GInPlace(lib: Lib, alpha: real, v: Vector3d, m: Vec3, n: Vector3d) returns (r: real)
    requires Lawful(lib) && 0.0 < alpha && Dot(v.v, n.v) != 0.0 && v != n
    modifies v, n
    ensures r == G(lib, alpha, old(v.v), m, old(n.v))
    ensures Dot(old(v.v), m) / Dot(old(v.v), old(n.v)) > 0.0
            ==> v.v == Normalize(lib, old(v.v)) && n.v == Normalize(lib, old(n.v))
    ensures Dot(old(v.v), m) / Dot(old(v.v), old(n.v)) <= 0.0 ==> v.v == old(v.v) && n.v == old(n.v)
  {
    r := 0.0;
    var vm := Dot(v.v, m);
    var vn := Dot(v.v, n.v);
    if vm / vn > 0.0 {
      NormalisedCosine(lib, v.v, n.v);
      v.v := Normalize(lib, v.v);
      n.v := Normalize(lib, n.v);
      var c := Abs(Dot(v.v, n.v));
      var s := lib.sqrt(1.0 - Mul(c, c));
      var t := s / c;
      if t == 0.0 {
        r := 1.0;
      } else {
        MulPos(alpha, t);
        var a := 1.0 / Mul(alpha, t);
        r := GHelper(a);
      }
    }
  }

  /** tan^2(theta) of the sampled half-vector: -alpha^2 log(1 - u). */
  function SampleTanSq(lib: Lib, alpha: real, u: real): (t: real)
    requires LogLawful(lib) && 0.0 <= u < 1.0
    ensures 0.0 <= t
  {
    Square(alpha);
    Mul(-alpha, alpha) * lib.log(1.0 - u)
  }

  /** Beckmann.sample_helper: the local half-vector with cos^2(theta) =
      1 / (1 + tan^2(theta)), at azimuth 2 pi seed.y. */
  function SampleHelper(lib: Lib, alpha: real, seed: Vec2): (h: Vec3)
    requires Lawful(lib) && LogLawful(lib) && 0.0 <= seed.x < 1.0
    ensures 0.0 < h.z <= 1.0
    ensures TrigLawful(lib) ==> Unit(h)
  {
    var t := SampleTanSq(lib, alpha, seed.x);
    var c2 := 1.0 / (1.0 + t);
    HalfAngle(lib, c2, 2.0 * Pi * seed.y);
    SphericalDirection(lib, lib.sqrt(Max(0.0, 1.0 - c2)), lib.sqrt(c2), 2.0 * Pi * seed.y)
  }

  /** G gives the same value after the normal has been normalised, which is
      what lets MicrofacetDistribution.eval's second shadowing call use the
      normal the first call normalised. */
  lemma {:induction false} GNormalInvariant(lib: Lib, alpha: real, v: Vec3, m: Vec3, n: Vec3)
    requires Lawful(lib) && 0.0 < alpha && Dot(v, n) != 0.0
    ensures Dot(v, Normalize(lib, n)) != 0.0
    ensures G(lib, alpha, v, m, Normalize(lib, n)) == G(lib, alpha, v, m, n)
  {
    NormalisedNormal(lib, v, m, n);
  }

  /** Every sampled half-vector lies where the distribution is positive. */
  lemma {:induction false} SampledHalfVectorHasDensity(lib: Lib, alpha: real, seed: Vec2)
    requires Lawful(lib) && LogLawful(lib) && ExpLawful(lib) && alpha != 0.0 && 0.0 <= seed.x < 1.0
    ensures 0.0 < D(lib, alpha, SampleHelper(lib, alpha, seed), AxisZ)
  {
    var h := SampleHelper(lib, alpha, seed);
    assert Dot(h, AxisZ) == h.z;
  }
}
