/** The direction samplers and the local frame that LambertianBSDF,
    MicrofacetDistribution and GlazedBSDF share (each of those classes has
    its own identical copy of cosineHemisphere and basisFromW). */
module Hemisphere {
  import opened VecMath

  /** LambertianBSDF.cosineHemisphere: a direction about +z whose height is
      sqrt(1 - seed.x), at azimuth 2 pi seed.y. */
  function CosineHemisphere(lib: Lib, seed: Vec2): (d: Vec3)
    requires Lawful(lib)
    ensures 0.0 <= seed.x <= 1.0 ==> 0.0 <= d.z && Mul(d.z, d.z) == 1.0 - seed.x
  {
    var r := lib.sqrt(seed.x);
    var phi := 2.0 * Pi * seed.y;
    Vec3(r * lib.cos(phi), r * lib.sin(phi), lib.sqrt(1.0 - seed.x))
  }

  /** LambertianBSDF.uniformHemisphere: a direction about +z whose height is
      seed.x itself. */
  function UniformHemisphere(lib: Lib, seed: Vec2): (d: Vec3)
    requires Lawful(lib)
    ensures d.z == seed.x
  {
    var r := lib.sqrt(1.0 - Mul(seed.x, seed.x));
    var phi := 2.0 * Pi * seed.y;
    Vec3(r * lib.cos(phi), r * lib.sin(phi), seed.x)
  }

  /** A point on the circle of radius r at height z is at distance
      sqrt(r^2 + z^2) from the origin. */
  lemma PolarRaw(r: real, c: real, s: real, z: real)
    ensures (r * c) * (r * c) + (r * s) * (r * s) + z * z == (r * r) * (s * s + c * c) + z * z
  {
  }

  lemma {:induction false} PolarUnit(lib: Lib, r: real, phi: real, z: real)
    requires TrigLawful(lib) && Mul(r, r) + Mul(z, z) == 1.0
    ensures Unit(Vec3(r * lib.cos(phi), r * lib.sin(phi), z))
  {
    var c, s := lib.cos(phi), lib.sin(phi);
    assert Mul(s, s) + Mul(c, c) == 1.0;
    PolarRaw(r, c, s, z);
  }

  /** For seed.x in [0, 1] cosineHemisphere returns a unit vector. */
  lemma {:induction false} CosineHemisphereUnit(lib: Lib, seed: Vec2)
    requires Lawful(lib) && TrigLawful(lib) && 0.0 <= seed.x <= 1.0
    ensures Unit(CosineHemisphere(lib, seed))
  {
    SqrtPositive(lib, seed.x);
    SqrtPositive(lib, 1.0 - seed.x);
    PolarUnit(lib, lib.sqrt(seed.x), 2.0 * Pi * seed.y, lib.sqrt(1.0 - seed.x));
  }

  /** For seed.x in [-1, 1] uniformHemisphere returns a unit vector. */
  lemma {:induction false} UniformHemisphereUnit(lib: Lib, seed: Vec2)
    requires Lawful(lib) && TrigLawful(lib) && -1.0 <= seed.x <= 1.0
    ensures Unit(UniformHemisphere(lib, seed))
  {
    var x := seed.x;
    assert Mul(x, x) <= 1.0 by {
      if 0.0 <= x {
        MulLe(x, x, 1.0);
      } else {
        MulLe(-x, -x, 1.0);
      }
    }
    SqrtPositive(lib, 1.0 - Mul(x, x));
    PolarUnit(lib, lib.sqrt(1.0 - Mul(x, x)), 2.0 * Pi * seed.y, x);
  }

  const AxisX := Vec3(1.0, 0.0, 0.0)
  const AxisY := Vec3(0.0, 1.0, 0.0)
  const AxisZ := Vec3(0.0, 0.0, 1.0)

  /** The helper axis basisFromW starts from: the axis of the component of
      `w` with the smallest magnitude, ties going to x, then y. */
  function BasisSeed(w: Vec3): (a: Vec3)
    ensures a == AxisX || a == AxisY || a == AxisZ
    ensures Abs(Dot(a, w)) <= Abs(w.x) && Abs(Dot(a, w)) <= Abs(w.y) && Abs(Dot(a, w)) <= Abs(w.z)
    ensures Abs(w.x) <= Abs(w.y) && Abs(w.x) <= Abs(w.z) ==> a == AxisX
    ensures a == AxisZ ==> Abs(w.z) < Abs(w.x) && Abs(w.z) < Abs(w.y)
  {
    if Abs(w.x) <= Abs(w.y) && Abs(w.x) <= Abs(w.z) then AxisX
    else if Abs(w.y) <= Abs(w.x) && Abs(w.y) <= Abs(w.z) then AxisY
    else AxisZ
  }

  /** A non-zero vector is never parallel to its helper axis. */
  lemma SeedNotParallel(w: Vec3)
    requires w != Zero
    ensures Cross(BasisSeed(w), w) != Zero
  {
    var a := BasisSeed(w);
    if a == AxisX {
      assert Cross(a, w) == Vec3(0.0, -w.z, w.y);
    } else if a == AxisY {
      assert Cross(a, w) == Vec3(w.z, 0.0, -w.x);
    } else {
      assert Cross(a, w) == Vec3(-w.y, w.x, 0.0);
    }
  }

  /** basisFromW: u = normalize(seed x w) and v = normalize(w x u).  Both are
      perpendicular to w for every w. */
  function BasisFromW(lib: Lib, w: Vec3): (uv: (Vec3, Vec3))
    requires Lawful(lib)
    ensures Dot(uv.0, w) == 0.0 && Dot(uv.1, w) == 0.0
  {
    var s := Cross(BasisSeed(w), w);
    var u := Normalize(lib, s);
    var t := Cross(w, u);
    var v := Normalize(lib, t);
    CrossOrthogonal(BasisSeed(w), w);
    DotScaleLeft(s, NormScale(lib, s), w);
    CrossOrthogonal(w, u);
    DotScaleLeft(t, NormScale(lib, t), w);
    (u, v)
  }

  /** For a unit w, basisFromW completes w to an orthonormal frame. */
  lemma {:induction false} BasisFromWOrthonormal(lib: Lib, w: Vec3)
    requires Lawful(lib) && Unit(w)
    ensures var (u, v) := BasisFromW(lib, w);
            Unit(u) && Unit(v) && Dot(v, u) == 0.0
  {
    SeedNotParallel(w);
    CrossFrame(lib, BasisSeed(w), w);
  }

  /** The world direction the samplers build from a local one:
      n * l.z + u * l.x + v * l.y (set, mul, then two addMultiple calls). */
  function ToWorld(n: Vec3, u: Vec3, v: Vec3, l: Vec3): Vec3 {
    Add(Add(Scale(n, l.z), Scale(u, l.x)), Scale(v, l.y))
  }

  /** With u and v perpendicular to n, the world direction's dot product with
      n is the local height times |n|^2, whatever the lengths involved. */
  lemma {:induction false} ToWorldCosine(n: Vec3, u: Vec3, v: Vec3, l: Vec3)
    requires Dot(u, n) == 0.0 && Dot(v, n) == 0.0
    ensures Dot(ToWorld(n, u, v, l), n) == Mul(l.z, LenSq(n))
  {
    DotAddLeft(Add(Scale(n, l.z), Scale(u, l.x)), Scale(v, l.y), n);
    DotAddLeft(Scale(n, l.z), Scale(u, l.x), n);
    DotScaleLeft(n, l.z, n);
    DotScaleLeft(u, l.x, n);
    DotScaleLeft(v, l.y, n);
  }

  /** In an orthonormal frame a unit local direction stays a unit vector. */
  lemma {:induction false} ToWorldUnit(n: Vec3, u: Vec3, v: Vec3, l: Vec3)
    requires Unit(n) && Unit(u) && Unit(v) && Unit(l)
    requires Dot(u, n) == 0.0 && Dot(v, n) == 0.0 && Dot(v, u) == 0.0
    ensures Unit(ToWorld(n, u, v, l))
  {
    var a, b, c := Scale(n, l.z), Scale(u, l.x), Scale(v, l.y);
    DotScale(n, n, l.z, l.z);
    DotScale(u, u, l.x, l.x);
    DotScale(v, v, l.y, l.y);
    DotScale(u, n, l.x, l.z);
    DotScale(v, n, l.y, l.z);
    DotScale(v, u, l.y, l.x);
    DotComm(b, a);
    DotComm(c, a);
    DotComm(c, b);
    OrthogonalSum(a, b, c);
    assert LenSq(l) == Mul(l.x, l.x) + Mul(l.y, l.y) + Mul(l.z, l.z);
  }

  /** |a + b + c|^2 = |a|^2 + |b|^2 + |c|^2 for pairwise perpendicular vectors. */
  lemma {:induction false} OrthogonalSum(a: Vec3, b: Vec3, c: Vec3)
    requires Dot(a, b) == 0.0 && Dot(a, c) == 0.0 && Dot(b, c) == 0.0
    ensures LenSq(Add(Add(a, b), c)) == LenSq(a) + LenSq(b) + LenSq(c)
  {
    OrthogonalSumRaw(a.x, a.y, a.z, b.x, b.y, b.z, c.x, c.y, c.z);
  }

  lemma OrthogonalSumRaw(a1: real, a2: real, a3: real, b1: real, b2: real, b3: real,
                         c1: real, c2: real, c3: real)
    ensures (a1 + b1 + c1) * (a1 + b1 + c1) + (a2 + b2 + c2) * (a2 + b2 + c2) + (a3 + b3 + c3) * (a3 + b3 + c3)
         == (a1 * a1 + a2 * a2 + a3 * a3) + (b1 * b1 + b2 * b2 + b3 * b3) + (c1 * c1 + c2 * c2 + c3 * c3)
            + 2.0 * (a1 * b1 + a2 * b2 + a3 * b3) + 2.0 * (a1 * c1 + a2 * c2 + a3 * c3)
            + 2.0 * (b1 * c1 + b2 * c2 + b3 * c3)
  {
  }

  /** MicrofacetDistribution.SphericalDirection: the direction with polar
      sine and cosine `s` and `c` at azimuth `phi`. */
  function SphericalDirection(lib: Lib, s: real, c: real, phi: real): (d: Vec3)
    ensures d.z == c
  {
    Vec3(s * lib.cos(phi), s * lib.sin(phi), c)
  }

  /** With s^2 + c^2 = 1 the direction is a unit vector. */
  lemma SphericalDirectionUnit(lib: Lib, s: real, c: real, phi: real)
    requires TrigLawful(lib) && Mul(s, s) + Mul(c, c) == 1.0
    ensures Unit(SphericalDirection(lib, s, c, phi))
  {
    PolarUnit(lib, s, phi, c);
  }

  /** For cos^2 in (0, 1] the cosine is in (0, 1], and sine and cosine of the
      half-vector make a unit vector. */
  lemma {:induction false} HalfAngle(lib: Lib, c2: real, phi: real)
    requires Lawful(lib) && 0.0 < c2 <= 1.0
    ensures 0.0 < lib.sqrt(c2) <= 1.0
    ensures Mul(lib.sqrt(Max(0.0, 1.0 - c2)), lib.sqrt(Max(0.0, 1.0 - c2))) + Mul(lib.sqrt(c2), lib.sqrt(c2)) == 1.0
    ensures TrigLawful(lib) ==> Unit(SphericalDirection(lib, lib.sqrt(Max(0.0, 1.0 - c2)), lib.sqrt(c2), phi))
  {
    SqrtPositive(lib, c2);
    SqrtPositive(lib, 1.0 - c2);
    SqrtMonotone(lib, c2, 1.0);
    SqrtOne(lib);
    if TrigLawful(lib) {
      SphericalDirectionUnit(lib, lib.sqrt(Max(0.0, 1.0 - c2)), lib.sqrt(c2), phi);
    }
  }

  /** The cosine of the angle between two vectors whose dot product is not
      zero, taken after normalising both: non-zero, at most one in
      magnitude, and with a real sine. */
  lemma {:induction false} NormalisedCosine(lib: Lib, v: Vec3, n: Vec3)
    requires Lawful(lib) && Dot(v, n) != 0.0
    ensures var c := Dot(Normalize(lib, v), Normalize(lib, n));
            c != 0.0 && Mul(c, c) <= 1.0 && 0.0 <= lib.sqrt(1.0 - Mul(c, c))
            && Mul(Abs(c), Abs(c)) == Mul(c, c)
  {
    NormalizeDotSign(lib, v, n);
    assert v != Zero && n != Zero;
    var c := Dot(Normalize(lib, v), Normalize(lib, n));
    UnitCosine(Normalize(lib, v), Normalize(lib, n));
    SqrtPositive(lib, 1.0 - Mul(c, c));
  }

  /** Replacing n by its normalisation (as the first shadowing call of
      MicrofacetDistribution.eval does to the caller's normal) changes
      neither the sign test v.m / v.n > 0 nor the normalised n. */
  lemma {:induction false} NormalisedNormal(lib: Lib, v: Vec3, m: Vec3, n: Vec3)
    requires Lawful(lib) && Dot(v, n) != 0.0
    ensures Dot(v, Normalize(lib, n)) != 0.0
    ensures Dot(v, m) / Dot(v, Normalize(lib, n)) > 0.0 <==> Dot(v, m) / Dot(v, n) > 0.0
    ensures Normalize(lib, Normalize(lib, n)) == Normalize(lib, n)
  {
    var k := NormScale(lib, n);
    NormalizeIsPositiveScale(lib, n);
    DotComm(v, Normalize(lib, n));
    DotScaleLeft(n, k, v);
    DotComm(n, v);
    RatioSign(Dot(v, m), Dot(v, n), k);
    NormalizeIdempotent(lib, n);
  }

  lemma RatioSign(a: real, b: real, k: real)
    requires b != 0.0 && 0.0 < k
    ensures Mul(k, b) != 0.0
    ensures a / Mul(k, b) > 0.0 <==> a / b > 0.0
  {
    var q := a / b;
    assert a == q * b;
    assert a / Mul(k, b) == q / k;
  }
}
