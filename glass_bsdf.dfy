/** GlassBSDF: a smooth dielectric interface that reflects or refracts,
    choosing between the two by the Fresnel reflectance. */
module GlassBsdf {
  import opened VecMath
  import opened BsdfRecord
  import Bsdf

  /** What sample produces: the (possibly flipped) record normal, the new
      dir2, the grey value written to outValue and the returned probability. */
  datatype Outcome = Outcome(normal: Vec3, dir2: Vec3, value: real, prob: real)

  /** The indices on the incident and the far side: (n1, n2) is (ior, 1)
      from inside (dir1 . normal <= 0) and (1, ior) from outside. */
  function Indices(ior: real, i: Vec3, n: Vec3): (r: (real, real))
    ensures Dot(i, n) <= 0.0 ==> r == (ior, 1.0)
    ensures Dot(i, n) > 0.0 ==> r == (1.0, ior)
  {
    if Dot(i, n) <= 0.0 then (ior, 1.0) else (1.0, ior)
  }

  /** The normal on dir1's side: negated from inside. */
  function FacingNormal(i: Vec3, n: Vec3): (f: Vec3)
    ensures Dot(i, n) != 0.0 ==> 0.0 < Dot(i, f)
    ensures f == n || f == Neg(n)
  {
    DotComm(i, n);
    DotComm(i, Neg(n));
    DotNeg(n, i);
    if Dot(i, n) <= 0.0 then Neg(n) else n
  }

  /** cos^2 of the transmitted angle as GlassBSDF writes it:
      1 - n1^2 (1 - cos1^2) / n2^2.  Negative means total internal
      reflection. */
  function TransmittedSq(n1: real, n2: real, cos1: real): real
    requires n2 != 0.0
  {
    Square(n2);
    1.0 - Mul(Mul(n1, n1), 1.0 - Mul(cos1, cos1)) / Mul(n2, n2)
  }

  /** It is the transmitted cos^2 that fresnel computes for the relative
      index n2 / n1. */
  lemma TransmittedSqIsSnell(n1: real, n2: real, cos1: real)
    requires n1 != 0.0 && n2 != 0.0
    ensures TransmittedSq(n1, n2, cos1) == Bsdf.CosTransmittedSq(cos1, n2 / n1)
  {
    var k := 1.0 - Mul(cos1, cos1);
    var r := n2 / n1;
    assert r * n1 == n2;
    Square(n1);
    Square(n2);
    Square(r);
    var a, b, rr := Mul(n1, n1), Mul(n2, n2), Mul(r, r);
    assert b == rr * a;
    var x := Mul(a, k) / b;
    assert x * b == a * k;
    assert (x * rr) * a == k * a;
    assert x * rr == k;
    assert x == k / rr;
  }

  /** What sample needs so that it never divides by zero: a positive index,
      a direction not perpendicular to the normal, and a transmitted cosine
      other than zero where the transmitted branch could be taken (only for
      seed.x > 1, since at the critical angle the reflectance is 1). */
  predicate SampleDefined(ior: real, i: Vec3, n: Vec3, seed: Vec2) {
    && 0.0 < ior && Dot(i, n) != 0.0
    && (1.0 < seed.x ==>
          var (n1, n2) := Indices(ior, i, n);
          TransmittedSq(n1, n2, Dot(i, FacingNormal(i, n))) != 0.0)
  }

  /** The Fresnel reflectance sample uses: 1 under total internal
      reflection, otherwise fresnel(facing normal, dir1, n2 / n1). */
  function Reflectance(lib: Lib, ior: real, i: Vec3, n: Vec3): (r: real)
    requires Lawful(lib) && 0.0 < ior && Dot(i, n) != 0.0
    ensures 0.0 <= r <= 1.0
    ensures var (n1, n2) := Indices(ior, i, n);
            TransmittedSq(n1, n2, Dot(i, FacingNormal(i, n))) <= 0.0 ==> r == 1.0
  {
    var (n1, n2) := Indices(ior, i, n);
    var f := FacingNormal(i, n);
    var cos1 := Dot(i, f);
    if TransmittedSq(n1, n2, cos1) < 0.0 then 1.0
    else
      TransmittedSqIsSnell(n1, n2, cos1);
      DotComm(i, f);
      PositiveRatio(n2, n1);
      var r := Bsdf.Fresnel(lib, f, i, n2 / n1);
      if TransmittedSq(n1, n2, cos1) == 0.0 then
        Bsdf.FresnelCriticalAngle(lib, f, i, n2 / n1);
        r
      else r
  }

  /** GlassBSDF.sample on values.  With probability R (seed.x <= R) the
      direction is reflected, dir2 + 2 cos1 normal - dir1 normalised, with
      value R / cos1; otherwise, unless the reflection is total, it is
      refracted, (n1 / n2) (cos1 normal - dir1) - cos2 normal normalised,
      with value (1 - R) / cos2; under total internal reflection with
      seed.x > R nothing is written and the probability is zero. */
  function SampleOutcome(lib: Lib, ior: real, i: Vec3, n: Vec3, dir2: Vec3, seed: Vec2): (r: Outcome)
    requires Lawful(lib) && SampleDefined(ior, i, n, seed)
    ensures r.normal == FacingNormal(i, n) && 0.0 < Dot(i, r.normal)
    ensures 0.0 <= r.prob <= 1.0
    ensures seed.x <= Reflectance(lib, ior, i, n) ==> r.prob == Reflectance(lib, ior, i, n)
    ensures Reflectance(lib, ior, i, n) < seed.x ==> r.prob == 0.0 || r.prob == 1.0 - Reflectance(lib, ior, i, n)
  {
    var (n1, n2) := Indices(ior, i, n);
    var f := FacingNormal(i, n);
    var cos1 := Dot(i, f);
    var cos2Sq := TransmittedSq(n1, n2, cos1);
    var tir := cos2Sq < 0.0;
    var rr := Reflectance(lib, ior, i, n);
    if seed.x <= rr then
      Outcome(f, Normalize(lib, Sub(Add(dir2, Scale(f, 2.0 * cos1)), i)), rr / cos1, rr)
    else if !tir then
      var cos2 := lib.sqrt(cos2Sq);
      SqrtPositive(lib, cos2Sq);
      Outcome(f, Normalize(lib, Add(Scale(Sub(Scale(f, cos1), i), n1 / n2), Scale(f, -cos2))),
              (1.0 - rr) / cos2, 1.0 - rr)
    else
      Outcome(f, dir2, 0.0, 0.0)
  }

  /** Under total internal reflection every seed in [0, 1] reflects, with
      probability one. */
  lemma {:induction false} TotalInternalReflection(lib: Lib, ior: real, i: Vec3, n: Vec3, dir2: Vec3, seed: Vec2)
    requires Lawful(lib) && SampleDefined(ior, i, n, seed) && seed.x <= 1.0
    requires var (n1, n2) := Indices(ior, i, n); TransmittedSq(n1, n2, Dot(i, FacingNormal(i, n))) < 0.0
    ensures var f := FacingNormal(i, n);
            SampleOutcome(lib, ior, i, n, dir2, seed)
            == Outcome(f, Normalize(lib, Sub(Add(dir2, Scale(f, 2.0 * Dot(i, f))), i)), 1.0 / Dot(i, f), 1.0)
  {
  }

  /** The mirror direction: for a unit dir1 and normal and a cleared dir2,
      the reflected direction is the unit vector 2 cos1 f - dir1, which makes
      the same angle with the facing normal f as dir1 does. */
  lemma {:induction false} MirrorReflection(lib: Lib, i: Vec3, f: Vec3)
    requires Lawful(lib) && Unit(i) && Unit(f)
    ensures var r := Sub(Add(Zero, Scale(f, 2.0 * Dot(i, f))), i);
            Unit(r) && Normalize(lib, r) == r && Dot(r, f) == Dot(i, f)
  {
    var c := Dot(i, f);
    var r := Sub(Add(Zero, Scale(f, 2.0 * c)), i);
    assert r == Add(Scale(f, 2.0 * c), Scale(i, -1.0));
    LenSqCombination(f, i, 2.0 * c, -1.0);
    DotComm(f, i);
    UnitReflectionRaw(c);
    NormalizeUnit(lib, r);
    DotAddLeft(Scale(f, 2.0 * c), Scale(i, -1.0), f);
    DotScaleLeft(f, 2.0 * c, f);
    DotScaleLeft(i, -1.0, f);
  }

  /** Snell's law for the refracted direction: for a unit dir1 and facing
      normal f and a transmitted cos2 >= 0 with cos2^2 as sample computes it,
      the direction (n1 / n2) (cos1 f - dir1) - cos2 f is a unit vector on the
      far side, at cosine -cos2 to f, and n1^2 sin^2(theta1) = n2^2
      sin^2(theta2). */
  lemma {:induction false} RefractionSnell(lib: Lib, n1: real, n2: real, i: Vec3, f: Vec3, cos2: real)
    requires Lawful(lib) && Unit(i) && Unit(f) && n2 != 0.0 && 0.0 <= cos2
    requires Mul(cos2, cos2) == TransmittedSq(n1, n2, Dot(i, f))
    ensures var t := Add(Scale(Sub(Scale(f, Dot(i, f)), i), n1 / n2), Scale(f, -cos2));
            Unit(t) && Normalize(lib, t) == t && Dot(t, f) == -cos2
    ensures Mul(Mul(n1, n1), 1.0 - Mul(Dot(i, f), Dot(i, f)))
            == Mul(Mul(n2, n2), 1.0 - Mul(cos2, cos2))
  {
    var c := Dot(i, f);
    var q := n1 / n2;
    var p := Sub(Scale(f, c), i);
    var t := Add(Scale(p, q), Scale(f, -cos2));
    assert Dot(p, f) == 0.0 by {
      assert p == Add(Scale(f, c), Scale(i, -1.0));
      DotAddLeft(Scale(f, c), Scale(i, -1.0), f);
      DotScaleLeft(f, c, f);
      DotScaleLeft(i, -1.0, f);
    }
    assert LenSq(p) == 1.0 - Mul(c, c) by {
      assert p == Add(Scale(f, c), Scale(i, -1.0));
      LenSqCombination(f, i, c, -1.0);
      DotComm(f, i);
      TangentRaw(c);
    }
    DotAddLeft(Scale(p, q), Scale(f, -cos2), f);
    DotScaleLeft(p, q, f);
    DotScaleLeft(f, -cos2, f);
    DotScale(p, f, q, -cos2);
    DotComm(Scale(f, -cos2), Scale(p, q));
    OrthogonalPair(Scale(p, q), Scale(f, -cos2));
    DotScale(p, p, q, q);
    DotScale(f, f, -cos2, -cos2);
    RefractionLength(n1, n2, q, c, cos2, LenSq(p));
    assert LenSq(t) == 1.0;
    NormalizeUnit(lib, t);
  }

  /** The coefficients of the tangential part c f - i of unit vectors at
      cosine c. */
  lemma TangentRaw(c: real)
    ensures Mul(Mul(c, c), 1.0) + 2.0 * Mul(Mul(c, -1.0), c) + Mul(Mul(-1.0, -1.0), 1.0) == 1.0 - Mul(c, c)
  {
  }

  /** |a + b|^2 = |a|^2 + |b|^2 for perpendicular a and b. */
  lemma OrthogonalPair(a: Vec3, b: Vec3)
    requires Dot(a, b) == 0.0
    ensures LenSq(Add(a, b)) == LenSq(a) + LenSq(b)
  {
    PairRaw(a.x, a.y, a.z, b.x, b.y, b.z);
  }

  lemma PairRaw(a1: real, a2: real, a3: real, b1: real, b2: real, b3: real)
    ensures (a1 + b1) * (a1 + b1) + (a2 + b2) * (a2 + b2) + (a3 + b3) * (a3 + b3)
         == (a1 * a1 + a2 * a2 + a3 * a3) + (b1 * b1 + b2 * b2 + b3 * b3) + 2.0 * (a1 * b1 + a2 * b2 + a3 * b3)
  {
  }

  /** q^2 (1 - c^2) + cos2^2 = 1 when cos2^2 = 1 - n1^2 (1 - c^2) / n2^2 and
      q = n1 / n2, and Snell's law in squared form. */
  lemma RefractionLength(n1: real, n2: real, q: real, c: real, cos2: real, s: real)
    requires n2 != 0.0 && q == n1 / n2 && s == 1.0 - Mul(c, c)
    requires Mul(cos2, cos2) == TransmittedSq(n1, n2, c)
    ensures Mul(Mul(q, q), s) + Mul(Mul(-cos2, -cos2), 1.0) == 1.0
    ensures Mul(Mul(n1, n1), s) == Mul(Mul(n2, n2), 1.0 - Mul(cos2, cos2))
  {
    Square(n2);
    assert q * n2 == n1;
    assert Mul(n1, n1) == Mul(q, q) * Mul(n2, n2);
    var k := Mul(Mul(n1, n1), s) / Mul(n2, n2);
    assert k * Mul(n2, n2) == Mul(Mul(n1, n1), s);
    assert k == Mul(Mul(q, q), s);
  }

  /** sample's reflected lobe, for a unit dir1 and normal and a cleared
      dir2: the new dir2 is the mirror image of dir1 about the facing normal,
      a unit vector at the same cosine, with value R / cos1. */
  lemma {:induction false} ReflectedOutcome(lib: Lib, ior: real, i: Vec3, n: Vec3, seed: Vec2)
    requires Lawful(lib) && SampleDefined(ior, i, n, seed) && Unit(i) && Unit(n)
    requires seed.x <= Reflectance(lib, ior, i, n)
    ensures var r := SampleOutcome(lib, ior, i, n, Zero, seed);
            && r.dir2 == Sub(Scale(r.normal, 2.0 * Dot(i, r.normal)), i)
            && Unit(r.dir2) && Dot(r.dir2, r.normal) == Dot(i, r.normal)
            && r.value == Reflectance(lib, ior, i, n) / Dot(i, r.normal)
  {
    var f := FacingNormal(i, n);
    FacingNormalUnit(i, n);
    MirrorReflection(lib, i, f);
    assert Add(Zero, Scale(f, 2.0 * Dot(i, f))) == Scale(f, 2.0 * Dot(i, f));
  }

  /** sample's transmitted lobe, for a unit dir1 and normal: the new dir2 is
      a unit vector on the far side of the facing normal at cosine -cos2,
      where cos2 = sqrt(1 - n1^2 (1 - cos1^2) / n2^2) obeys Snell's law
      n1 sin(theta1) = n2 sin(theta2); the value is (1 - R) / cos2. */
  lemma {:induction false} RefractedOutcome(lib: Lib, ior: real, i: Vec3, n: Vec3, dir2: Vec3, seed: Vec2)
    requires Lawful(lib) && SampleDefined(ior, i, n, seed) && Unit(i) && Unit(n)
    requires Reflectance(lib, ior, i, n) < seed.x
    requires var (n1, n2) := Indices(ior, i, n); 0.0 <= TransmittedSq(n1, n2, Dot(i, FacingNormal(i, n)))
    ensures var r := SampleOutcome(lib, ior, i, n, dir2, seed);
            var (n1, n2) := Indices(ior, i, n);
            var cos1 := Dot(i, r.normal);
            var cos2 := lib.sqrt(TransmittedSq(n1, n2, cos1));
            && 0.0 < cos2 && Unit(r.dir2) && Dot(r.dir2, r.normal) == -cos2
            && Mul(Mul(n1, n1), 1.0 - Mul(cos1, cos1)) == Mul(Mul(n2, n2), 1.0 - Mul(cos2, cos2))
            && r.value == (1.0 - Reflectance(lib, ior, i, n)) / cos2
            && r.prob == 1.0 - Reflectance(lib, ior, i, n)
  {
    var (n1, n2) := Indices(ior, i, n);
    var f := FacingNormal(i, n);
    var k := TransmittedSq(n1, n2, Dot(i, f));
    var rr := Reflectance(lib, ior, i, n);
    var c2 := lib.sqrt(k);
    SqrtPositive(lib, k);
    var t := Add(Scale(Sub(Scale(f, Dot(i, f)), i), n1 / n2), Scale(f, -c2));
    RefractBranch(lib, ior, i, n, dir2, seed);
    FacingNormalUnit(i, n);
    RefractionSnell(lib, n1, n2, i, f, c2);
  }

  lemma FacingNormalUnit(i: Vec3, n: Vec3)
    requires Unit(n)
    ensures Unit(FacingNormal(i, n))
  {
  }

  class GlassBSDF {
    var refractiveIndex: real

    /** The default glass: index 1.5. */
    constructor ()
      ensures refractiveIndex == 1.5
    {
      refractiveIndex := 1.5;
    }

    constructor WithIndex(ior: real)
      ensures refractiveIndex == ior
    {
      refractiveIndex := ior;
    }

    /** GlassBSDF.eval: a purely discrete BSDF has no value for a given
        pair of directions. */
    method Eval(dir1: Vec3, dir2: Vec3, normal: Vec3, outValue: Colord)
      modifies outValue
      ensures outValue.c == Black
    {
      outValue.c := Black;
    }

    /** GlassBSDF.sample: flips the record's normal to dir1's side, writes
        dir2 and outValue as SampleOutcome says, returns its probability and
        marks the sample discrete. */
    method Sample(lib: Lib, rec: BSDFSamplingRecord, seed: Vec2, outValue: Colord) returns (prob: real)
      requires Lawful(lib) && rec.Valid() && SampleDefined(refractiveIndex, rec.dir1.v, rec.normal.v, seed)
      modifies rec`isDiscrete, rec.normal, rec.dir2, outValue
      ensures var r := SampleOutcome(lib, refractiveIndex, old(rec.dir1.v), old(rec.normal.v), old(rec.dir2.v), seed);
              && rec.normal.v == r.normal && rec.dir2.v == r.dir2
              && outValue.c == Gray(r.value) && prob == r.prob
      ensures rec.isDiscrete && rec.dir1.v == old(rec.dir1.v)
    {
      var incoming := rec.dir1.v;
      ghost var n0, ior := rec.normal.v, refractiveIndex;
      outValue.c := Black;
      var r := 0.0;
      var inside := Dot(incoming, rec.normal.v) <= 0.0;
      var n1, n2;
      if inside {
        n1, n2 := refractiveIndex, 1.0;
        rec.normal.v := Neg(rec.normal.v);
      } else {
        n1, n2 := 1.0, refractiveIndex;
      }
      var normal := rec.normal.v;
      var cos1 := Dot(incoming, normal);
      var cos2 := 0.0;
      var cos2Sq := TransmittedSq(n1, n2, cos1);
      var tir := cos2Sq < 0.0;
      assert n1 == Indices(refractiveIndex, incoming, n0).0 && n2 == Indices(refractiveIndex, incoming, n0).1;
      assert normal == FacingNormal(incoming, n0);
      if tir {
        r := 1.0;
      } else {
        cos2 := lib.sqrt(cos2Sq);
        SqrtPositive(lib, cos2Sq);
        TransmittedSqIsSnell(n1, n2, cos1);
        DotComm(incoming, normal);
        PositiveRatio(n2, n1);
        r := Bsdf.Fresnel(lib, normal, incoming, n2 / n1);
      }
      assert r == Reflectance(lib, refractiveIndex, incoming, n0);
      prob := SampleLobe(lib, refractiveIndex, n0, rec, seed, incoming, normal, cos1, cos2, n1, n2, r, tir, outValue);
      rec.isDiscrete := true;
      assert rec.dir1.v == incoming && rec.normal.v == normal && refractiveIndex == ior;
    }

    /** GlassBSDF.pdf: zero for every pair, since the two lobes are
        discrete. */
    function Pdf(dir1: Vec3, dir2: Vec3, normal: Vec3): (p: real)
      ensures p == 0.0
    {
      0.0
    }

    /** GlassBSDF.getDiffuseReflectance: black. */
    function DiffuseReflectance(): (c: Color)
      ensures c == Black
    {
      Black
    }
  }

  /** The end of GlassBSDF.sample, from the probability that starts at 0:
      the mirror lobe for seed.x <= R, otherwise the refracted lobe unless
      the reflection is total, in which case dir2 and the cleared value stay
      as they were. */
  method SampleLobe(lib: Lib, ghost ior: real, ghost n0: Vec3, rec: BSDFSamplingRecord, seed: Vec2,
                    incoming: Vec3, normal: Vec3, cos1: real, cos2: real, n1: real, n2: real, r: real, tir: bool,
                    outValue: Colord)
    returns (prob: real)
    requires Lawful(lib) && rec.Valid() && SampleDefined(ior, incoming, n0, seed) && outValue.c == Black
    requires (n1, n2) == Indices(ior, incoming, n0) && normal == FacingNormal(incoming, n0)
    requires cos1 == Dot(incoming, normal) && tir == (TransmittedSq(n1, n2, cos1) < 0.0)
    requires !tir ==> cos2 == lib.sqrt(TransmittedSq(n1, n2, cos1))
    requires r == Reflectance(lib, ior, incoming, n0)
    modifies rec.dir2, outValue
    ensures var res := SampleOutcome(lib, ior, incoming, n0, old(rec.dir2.v), seed);
            rec.dir2.v == res.dir2 && outValue.c == Gray(res.value) && prob == res.prob
  {
    prob := 0.0;
    if seed.x <= r {
      MirrorBranch(lib, ior, incoming, n0, rec.dir2.v, seed);
      rec.dir2.v := Normalize(lib, Sub(Add(rec.dir2.v, Scale(normal, 2.0 * cos1)), incoming));
      outValue.c := Gray(r / cos1);
      prob := r;
    } else if !tir {
      RefractBranch(lib, ior, incoming, n0, rec.dir2.v, seed);
      rec.dir2.v := Normalize(lib, Add(Scale(Sub(Scale(normal, cos1), incoming), n1 / n2), Scale(normal, -cos2)));
      outValue.c := Gray((1.0 - r) / cos2);
      prob := 1.0 - r;
    } else {
      TotalBranch(lib, ior, incoming, n0, rec.dir2.v, seed);
    }
  }

  // The three branches of SampleOutcome.

  lemma MirrorBranch(lib: Lib, ior: real, i: Vec3, n: Vec3, dir2: Vec3, seed: Vec2)
    requires Lawful(lib) && SampleDefined(ior, i, n, seed) && seed.x <= Reflectance(lib, ior, i, n)
    ensures var f, rr := FacingNormal(i, n), Reflectance(lib, ior, i, n);
            SampleOutcome(lib, ior, i, n, dir2, seed)
            == Outcome(f, Normalize(lib, Sub(Add(dir2, Scale(f, 2.0 * Dot(i, f))), i)), rr / Dot(i, f), rr)
  {
  }

  lemma RefractBranch(lib: Lib, ior: real, i: Vec3, n: Vec3, dir2: Vec3, seed: Vec2)
    requires Lawful(lib) && SampleDefined(ior, i, n, seed) && Reflectance(lib, ior, i, n) < seed.x
    requires var (n1, n2) := Indices(ior, i, n); 0.0 <= TransmittedSq(n1, n2, Dot(i, FacingNormal(i, n)))
    ensures var (n1, n2) := Indices(ior, i, n);
            var f, rr := FacingNormal(i, n), Reflectance(lib, ior, i, n);
            var c2 := lib.sqrt(TransmittedSq(n1, n2, Dot(i, f)));
            SampleOutcome(lib, ior, i, n, dir2, seed)
            == Outcome(f, Normalize(lib, Add(Scale(Sub(Scale(f, Dot(i, f)), i), n1 / n2), Scale(f, -c2))),
                       (1.0 - rr) / c2, 1.0 - rr)
  {
  }

  lemma TotalBranch(lib: Lib, ior: real, i: Vec3, n: Vec3, dir2: Vec3, seed: Vec2)
    requires Lawful(lib) && SampleDefined(ior, i, n, seed) && Reflectance(lib, ior, i, n) < seed.x
    requires var (n1, n2) := Indices(ior, i, n); TransmittedSq(n1, n2, Dot(i, FacingNormal(i, n))) < 0.0
    ensures SampleOutcome(lib, ior, i, n, dir2, seed) == Outcome(FacingNormal(i, n), dir2, 0.0, 0.0)
  {
  }
}
