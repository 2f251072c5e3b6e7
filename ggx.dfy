/** The GGX microfacet distribution: its normal distribution D, its
    shadowing-masking term G and its half-vector sampler. */
module Ggx {
  import opened VecMath
  import opened Hemisphere

  /** (float)Math.PI, the float nearest to pi, written out exactly. */
  const FloatPi: real := 3.1415927410125732421875

  /** tan^2 of the angle whose cosine is c: (1 - c^2) / c^2. */
  function TanSq(c: real): real
    requires c != 0.0
  {
    Square(c);
    (1.0 - Mul(c, c)) / Mul(c, c)
  }

  /** What GGX.D needs so that it never divides by zero: above the surface,
      alpha^2 + tan^2 is not zero (it can be only for alpha = 0 at normal
      incidence, or for a half-vector longer than one). */
  predicate DDefined(alpha: real, h: Vec3, n: Vec3) {
    0.0 < Dot(h, n) ==> Mul(alpha, alpha) + TanSq(Dot(h, n)) != 0.0
  }

  /** GGX.D: alpha^2 / (pi cos^4 (alpha^2 + tan^2)^2) for a half-vector above
      the surface, zero otherwise. */
  function D(alpha: real, h: Vec3, n: Vec3): (d: real)
    requires DDefined(alpha, h, n)
    ensures Dot(h, n) <= 0.0 ==> d == 0.0
    ensures alpha != 0.0 && 0.0 < Dot(h, n) ==> 0.0 < d
    ensures 0.0 <= d
  {
    var c := Dot(h, n);
    if c > 0.0 then
      var c2 := Mul(c, c);
      var c4 := Mul(c2, c2);
      var a2 := Mul(alpha, alpha);
      var w := a2 + TanSq(c);
      Positives(alpha, c, w);
      a2 / FloatPi / c4 / Mul(w, w)
    else 0.0
  }

  lemma Positives(alpha: real, c: real, w: real)
    requires c != 0.0 && w != 0.0
    ensures 0.0 < Mul(Mul(c, c), Mul(c, c)) && 0.0 < Mul(w, w)
    ensures alpha != 0.0 ==> 0.0 < Mul(alpha, alpha)
    ensures 0.0 <= Mul(alpha, alpha)
  {
    Square(alpha);
    Square(c);
    Square(w);
    MulPos(Mul(c, c), Mul(c, c));
  }

  /** For unit h and n, D is defined whenever alpha is not zero. */
  lemma {:induction false} DDefinedForUnit(alpha: real, h: Vec3, n: Vec3)
    requires Unit(h) && Unit(n) && alpha != 0.0
    ensures DDefined(alpha, h, n)
  {
    var c := Dot(h, n);
    if 0.0 < c {
      UnitCosine(h, n);
      Square(c);
      Square(alpha);
      var t := TanSq(c);
      assert t * Mul(c, c) == 1.0 - Mul(c, c);
      MulSign(t, Mul(c, c));
    }
  }

  /** GGX.G on values: zero unless v . m and v . n have the same sign;
      otherwise 2 / (1 + sqrt(1 + alpha^2 tan^2(theta_v))), where theta_v is
      the angle between the normalised v and n. */
  function G(lib: Lib, alpha: real, v: Vec3, m: Vec3, n: Vec3): (g: real)
    requires Lawful(lib) && Dot(v, n) != 0.0
    ensures Dot(v, m) / Dot(v, n) <= 0.0 ==> g == 0.0
    ensures Dot(v, m) / Dot(v, n) > 0.0 ==> 0.0 < g <= 1.0
  {
    if Dot(v, m) / Dot(v, n) > 0.0 then
      NormalisedCosine(lib, v, n);
      var c := Dot(Normalize(lib, v), Normalize(lib, n));
      var s := lib.sqrt(1.0 - Mul(c, c));
      var t := s / c;
      var x := Mul(Mul(alpha, alpha), Mul(t, t));
      Smith(lib, alpha, t);
      2.0 / (1.0 + lib.sqrt(1.0 + x))
    else 0.0
  }

  /** 1 <= sqrt(1 + alpha^2 t^2), so the Smith term lies in (0, 1]. */
  lemma {:induction false} Smith(lib: Lib, alpha: real, t: real)
    requires Lawful(lib)
    ensures 1.0 <= lib.sqrt(1.0 + Mul(Mul(alpha, alpha), Mul(t, t)))
    ensures 0.0 < 2.0 / (1.0 + lib.sqrt(1.0 + Mul(Mul(alpha, alpha), Mul(t, t)))) <= 1.0
  {
    Square(alpha);
    Square(t);
    MulNonneg(Mul(alpha, alpha), Mul(t, t));
    var x := Mul(Mul(alpha, alpha), Mul(t, t));
    SqrtMonotone(lib, 1.0, 1.0 + x);
    SqrtOne(lib);
  }

  /** GGX.G, which normalises its arguments v and n in place when the sign
      test passes. */
  method GInPlace(lib: Lib, alpha: real, v: Vector3d, m: Vec3, n: Vector3d) returns (r: real)
    requires Lawful(lib) && Dot(v.v, n.v) != 0.0 && v != n
    modifies v, n
    ensures r == G(lib, alpha, old(v.v), m, old(n.v))
    ensures Dot(old(v.v), m) / Dot(old(v.v), old(n.v)) > 0.0
            ==> v.v == Normalize(lib, old(v.v)) && n.v == Normalize(lib, old(n.v))
    ensures Dot(old(v.v), m) / Dot(old(v.v), old(n.v)) <= 0.0 ==> v.v == old(v.v) && n.v == old(n.v)
  {
    r := 0.0;
    var vm := Dot(v.v, m);
    var vn := Dot(v.v, n.v);
    if vm / vn > 0.0 {
      NormalisedCosine(lib, v.v, n.v);
      v.v := Normalize(lib, v.v);
      n.v := Normalize(lib, n.v);
      var c := Dot(v.v, n.v);
      var s := lib.sqrt(1.0 - Mul(c, c));
      var t := s / c;
      var a2 := Mul(alpha, alpha);
      var t2 := Mul(t, t);
      r := 2.0 / (1.0 + lib.sqrt(1.0 + Mul(a2, t2)));
    }
  }

  /** G gives the same value after the normal has been normalised. */
  lemma {:induction false} GNormalInvariant(lib: Lib, alpha: real, v: Vec3, m: Vec3, n: Vec3)
    requires Lawful(lib) && Dot(v, n) != 0.0
    ensures Dot(v, Normalize(lib, n)) != 0.0
    ensures G(lib, alpha, v, m, Normalize(lib, n)) == G(lib, alpha, v, m, n)
  {
    NormalisedNormal(lib, v, m, n);
  }

  /** tan^2(theta) of the sampled half-vector: alpha^2 u / (1 - u). */
  function SampleTanSq(alpha: real, u: real): (t: real)
    requires 0.0 <= u < 1.0
    ensures 0.0 <= t
  {
    Square(alpha);
    MulNonneg(Mul(alpha, alpha), u);
    DivNonneg(Mul(Mul(alpha, alpha), u), 1.0 - u);
    Mul(Mul(alpha, alpha), u) / (1.0 - u)
  }

  /** GGX.sample_helper: the local half-vector with cos^2(theta) =
      1 / (1 + tan^2(theta)), at azimuth 2 pi seed.y. */
  function SampleHelper(lib: Lib, alpha: real, seed: Vec2): (h: Vec3)
    requires Lawful(lib) && 0.0 <= seed.x < 1.0
    ensures 0.0 < h.z <= 1.0
    ensures TrigLawful(lib) ==> Unit(h)
  {
    var t := SampleTanSq(alpha, seed.x);
    var c2 := 1.0 / (1.0 + t);
    HalfAngle(lib, c2, 2.0 * Pi * seed.y);
    SphericalDirection(lib, lib.sqrt(Max(0.0, 1.0 - c2)), lib.sqrt(c2), 2.0 * Pi * seed.y)
  }

  /** Every sampled half-vector lies where the distribution is positive. */
  lemma {:induction false} SampledHalfVectorHasDensity(lib: Lib, alpha: real, seed: Vec2)
    requires Lawful(lib) && TrigLawful(lib) && alpha != 0.0 && 0.0 <= seed.x < 1.0
    ensures DDefined(alpha, SampleHelper(lib, alpha, seed), AxisZ)
    ensures 0.0 < D(alpha, SampleHelper(lib, alpha, seed), AxisZ)
  {
    var h := SampleHelper(lib, alpha, seed);
    assert Dot(h, AxisZ) == h.z;
    DDefinedForUnit(alpha, h, AxisZ);
  }
}
