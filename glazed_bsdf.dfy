/** GlazedBSDF: a clear coat over a substrate BSDF.  eval and
    getDiffuseReflectance defer to the substrate; sample chooses between a
    mirror reflection and a diffuse direction by the Fresnel reflectance of
    the coat, and then reflects once more. */
module GlazedBsdf {
  import opened VecMath
  import opened JavaNum
  import opened BsdfRecord
  import Bsdf
  import Lambertian
  import MicrofacetBsdf
  import MicrofacetDistribution
  import GlassBsdf

  /** The substrate: one of the other BSDF classes. */
  datatype Substrate =
    | OnLambertian(lam: Lambertian.LambertianBSDF)
    | OnMicrofacet(mf: MicrofacetBsdf.MicrofacetBSDF)
    | OnGlass(glass: GlassBsdf.GlassBSDF)

  /** The one object a substrate refers to. */
  function Footprint(s: Substrate): (fs: set<object>)
    ensures |fs| == 1
  {
    match s
    case OnLambertian(l) => {l}
    case OnMicrofacet(m) => {m}
    case OnGlass(g) => {g}
  }

  /** The coat's reflection about the normal, added onto the vector d that
      dir2 held: normalize(d + 2 cos1 normal - dir1). */
  function Mirror(lib: Lib, d: Vec3, i: Vec3, n: Vec3): Vec3
    requires Lawful(lib)
  {
    Normalize(lib, Sub(Add(d, Scale(n, 2.0 * Dot(i, n))), i))
  }

  /** What sample needs: a positive index (fresnel divides by it), an
      incident direction not perpendicular to the normal (the value is divided
      by cos1). */
  predicate SampleDefined(ior: real, i: Vec3, n: Vec3) {
    0.0 < ior && Dot(i, n) != 0.0
  }

  /** The direction the branch on xi leaves in dir2: the coat's reflection
      of the old dir2 for xi <= R, a cosine-weighted diffuse direction about
      the normal otherwise. */
  function BranchDirection(lib: Lib, ior: real, i: Vec3, n: Vec3, d2: Vec3, seed: Vec2, xi: real): Vec3
    requires Lawful(lib) && SampleDefined(ior, i, n)
  {
    if xi <= Bsdf.Fresnel(lib, n, i, ior) then Mirror(lib, d2, i, n)
    else Lambertian.LambertianBSDF.SampleDirection(lib, seed, n)
  }

  /** The direction sample finally writes: the branch's direction, reflected
      once more by the trailing block that runs whatever xi was. */
  function SampledDirection(lib: Lib, ior: real, i: Vec3, n: Vec3, d2: Vec3, seed: Vec2, xi: real): Vec3
    requires Lawful(lib) && SampleDefined(ior, i, n)
  {
    Mirror(lib, BranchDirection(lib, ior, i, n, d2, seed, xi), i, n)
  }

  /** Reflecting a mirror direction a second time changes nothing: for a
      unit dir1 and normal, the mirror image r of dir1 is a unit vector with
      r . n = cos1, so r + 2 cos1 n - dir1 = 2 r, which normalises to r. */
  lemma {:induction false} MirrorTwice(lib: Lib, i: Vec3, n: Vec3)
    requires Lawful(lib) && Unit(i) && Unit(n)
    ensures var r := Sub(Scale(n, 2.0 * Dot(i, n)), i);
            Mirror(lib, Zero, i, n) == r && Mirror(lib, r, i, n) == r
            && Unit(r) && Dot(r, n) == Dot(i, n)
  {
    var c := Dot(i, n);
    var r := Sub(Scale(n, 2.0 * c), i);
    GlassBsdf.MirrorReflection(lib, i, n);
    assert Sub(Add(Zero, Scale(n, 2.0 * c)), i) == r;
    assert Normalize(lib, r) == r;
    assert Mirror(lib, Zero, i, n) == r;
    var d := Sub(Add(r, Scale(n, 2.0 * c)), i);
    assert d == Scale(r, 2.0);
    NormalizeScaleInvariant(lib, r, 2.0);
    assert Mirror(lib, r, i, n) == Normalize(lib, d);
  }

  /** The specular branch: for a cleared dir2 and a unit dir1 and normal,
      the direction sample writes is the mirror image of dir1. */
  lemma {:induction false} SpecularSample(lib: Lib, ior: real, i: Vec3, n: Vec3, seed: Vec2, xi: real)
    requires Lawful(lib) && SampleDefined(ior, i, n) && Unit(i) && Unit(n)
    requires xi <= Bsdf.Fresnel(lib, n, i, ior)
    ensures var d := SampledDirection(lib, ior, i, n, Zero, seed, xi);
            d == Sub(Scale(n, 2.0 * Dot(i, n)), i) && Unit(d) && Dot(d, n) == Dot(i, n)
  {
    MirrorTwice(lib, i, n);
  }

  /** The diffuse branch: the trailing reflection is added onto the diffuse
      direction, so from above the surface the result is neither the diffuse
      sample nor the mirror direction, but it stays above the surface. */
  lemma {:induction false} DiffuseSampleAbove(lib: Lib, ior: real, i: Vec3, n: Vec3, d2: Vec3, seed: Vec2, xi: real)
    requires Lawful(lib) && SampleDefined(ior, i, n) && Unit(n) && 0.0 < Dot(i, n)
    requires Bsdf.Fresnel(lib, n, i, ior) < xi && 0.0 <= seed.x <= 1.0
    ensures 0.0 < Dot(SampledDirection(lib, ior, i, n, d2, seed, xi), n)
  {
    var c := Dot(i, n);
    var d := Lambertian.LambertianBSDF.SampleDirection(lib, seed, n);
    var s := Sub(Add(d, Scale(n, 2.0 * c)), i);
    assert s == Add(Add(d, Scale(n, 2.0 * c)), Scale(i, -1.0));
    DotAddLeft(Add(d, Scale(n, 2.0 * c)), Scale(i, -1.0), n);
    DotAddLeft(d, Scale(n, 2.0 * c), n);
    DotScaleLeft(n, 2.0 * c, n);
    DotScaleLeft(i, -1.0, n);
    assert Dot(s, n) == Dot(d, n) + c;
    NormalizeIsPositiveScale(lib, s);
    DotScaleLeft(s, NormScale(lib, s), n);
    MulPos(NormScale(lib, s), Dot(s, n));
  }

  class GlazedBSDF {
    var refractiveIndex: real
    /** Null until setSubstrate is called. */
    var substrate: Option<Substrate>

    /** The default coat: index 1.5, no substrate yet. */
    constructor ()
      ensures refractiveIndex == 1.5 && substrate == None
    {
      refractiveIndex := 1.5;
      substrate := None;
    }

    constructor WithIndex(ior: real)
      ensures refractiveIndex == ior && substrate == None
    {
      refractiveIndex := ior;
      substrate := None;
    }

    method SetSubstrate(s: Substrate)
      modifies this
      ensures substrate == Some(s) && refractiveIndex == old(refractiveIndex)
    {
      substrate := Some(s);
    }

    /** GlazedBSDF.eval: whatever the substrate's eval does, to outValue and
        (for a microfacet substrate) to the caller's vectors. */
    method Eval(lib: Lib, dir1: Vector3d, dir2: Vector3d, normal: Vector3d, outValue: Colord)
      requires Lawful(lib) && substrate.Some? && dir1 != dir2 && dir1 != normal && dir2 != normal
      requires substrate.value.OnMicrofacet? ==>
                 substrate.value.mf.dist.Some?
                 && MicrofacetDistribution.EvalDefined(lib, substrate.value.mf.dist.value, dir1.v, dir2.v, normal.v)
      modifies dir1, dir2, normal, outValue
      ensures substrate.value.OnLambertian? ==>
                outValue.c == substrate.value.lam.Value(dir1.v, dir2.v, normal.v)
                && dir1.v == old(dir1.v) && dir2.v == old(dir2.v) && normal.v == old(normal.v)
      ensures substrate.value.OnMicrofacet? ==>
                outValue.c == MicrofacetBsdf.EvalColor(lib, substrate.value.mf.dist.value,
                                 substrate.value.mf.diffuseReflectance, substrate.value.mf.specularColor,
                                 old(outValue.c), old(dir1.v), old(dir2.v), old(normal.v))
                && (dir1.v, dir2.v, normal.v)
                   == MicrofacetDistribution.EvalEffect(lib, old(dir1.v), old(dir2.v), old(normal.v))
      ensures substrate.value.OnGlass? ==>
                outValue.c == Black
                && dir1.v == old(dir1.v) && dir2.v == old(dir2.v) && normal.v == old(normal.v)
    {
      match substrate.value
      case OnLambertian(l) =>
        l.Eval(dir1.v, dir2.v, normal.v, outValue);
      case OnMicrofacet(m) =>
        m.Eval(lib, dir1, dir2, normal, outValue);
      case OnGlass(g) =>
        g.Eval(dir1.v, dir2.v, normal.v, outValue);
    }

    /** GlazedBSDF.sample, with Math.random()'s draw passed as xi.  Whatever
        branch xi selects, the trailing block reflects dir2 once more and
        overwrites the value with R / cos1, the probability with 1 and the
        discrete flag with true. */
    method Sample(lib: Lib, rec: BSDFSamplingRecord, seed: Vec2, xi: real, outValue: Colord) returns (prob: real)
      requires Lawful(lib) && rec.Valid() && SampleDefined(refractiveIndex, rec.dir1.v, rec.normal.v)
      modifies rec.dir2, rec`isDiscrete, outValue
      ensures rec.dir2.v == SampledDirection(lib, refractiveIndex, rec.dir1.v, rec.normal.v, old(rec.dir2.v), seed, xi)
      ensures outValue.c == Gray(Bsdf.Fresnel(lib, rec.normal.v, rec.dir1.v, refractiveIndex) / Dot(rec.dir1.v, rec.normal.v))
      ensures prob == 1.0 && rec.isDiscrete
    {
      prob := 0.0;
      var incoming := rec.dir1.v;
      var normal := rec.normal.v;
      var cos1 := Dot(incoming, normal);
      var r := Bsdf.Fresnel(lib, normal, incoming, refractiveIndex);
      if xi <= r {
        rec.dir2.v := Mirror(lib, rec.dir2.v, incoming, normal);
        outValue.c := Gray(r / cos1);
        prob := r;
        rec.isDiscrete := true;
      } else {
        rec.dir2.v := Lambertian.LambertianBSDF.SampleDirection(lib, seed, normal);
        outValue.c := Gray(r / cos1);
        prob := r * cos1 / Pi;
        rec.isDiscrete := false;
      }
      rec.dir2.v := Mirror(lib, rec.dir2.v, incoming, normal);
      outValue.c := Gray(r / cos1);
      prob := 1.0;
      rec.isDiscrete := true;
      assert rec.dir1.v == incoming && rec.normal.v == normal;
    }

    /** GlazedBSDF.pdf: zero for every pair of directions. */
    function Pdf(dir1: Vec3, dir2: Vec3, normal: Vec3): (p: real)
      ensures p == 0.0
    {
      0.0
    }

    /** GlazedBSDF.getDiffuseReflectance: the substrate's. */
    function DiffuseReflectance(): (c: Color)
      reads this, if substrate.Some? then Footprint(substrate.value) else {}
      requires substrate.Some?
      ensures substrate.value.OnLambertian? ==> c == substrate.value.lam.diffuseReflectance
      ensures substrate.value.OnMicrofacet? ==> c == substrate.value.mf.diffuseReflectance
      ensures substrate.value.OnGlass? ==> c == Black
    {
      match substrate.value
      case OnLambertian(l) => l.DiffuseReflectance()
      case OnMicrofacet(m) => m.DiffuseReflectance()
      case OnGlass(g) => g.DiffuseReflectance()
    }
  }
}
