/** MicrofacetBSDF: a diffuse lobe plus a microfacet specular lobe whose
    distribution (Beckmann or GGX) is chosen by a type code. */
module MicrofacetBsdf {
  import opened VecMath
  import opened JavaNum
  import opened BsdfRecord
  import opened MicrofacetDistribution

  class MicrofacetBSDF {
    var diffuseReflectance: Color
    var specularColor: Color
    var refractiveIndex: real
    var roughness: real
    /** 0 for Beckmann, 1 for GGX. */
    var disttype: int
    /** The distribution; null when the full constructor was given another
        type code. */
    var dist: Option<Distribution>

    /** The default material: index 1.5, roughness 0.5, a Beckmann
        distribution built from those, white diffuse and specular colours. */
    constructor ()
      ensures refractiveIndex == 1.5 && roughness == 0.5 && disttype == 0
      ensures dist == Some(BeckmannDist(0.5, 1.5))
      ensures diffuseReflectance == White && specularColor == White
    {
      diffuseReflectance := White;
      specularColor := White;
      roughness := 1.0;
      disttype := 0;
      dist := None;
      refractiveIndex := 1.5;
      roughness := 0.5;
      new;
      SetDisttype(0);
    }

    /** The full constructor.  The distribution gets the given roughness and
        index, but the roughness and disttype fields keep their initial
        values 1.0 and 0; a type code other than 0 or 1 leaves the
        distribution null. */
    constructor WithParameters(diffuse: Color, specular: Color, rough: real, ior: real, code: int)
      ensures code == 0 ==> dist == Some(BeckmannDist(rough, ior))
      ensures code == 1 ==> dist == Some(GGXDist(rough, ior))
      ensures code != 0 && code != 1 ==> dist == None
      ensures refractiveIndex == ior && roughness == 1.0 && disttype == 0
      ensures diffuseReflectance == diffuse && specularColor == specular
    {
      diffuseReflectance := White;
      specularColor := White;
      roughness := 1.0;
      disttype := 0;
      if code == 0 {
        dist := Some(BeckmannDist(rough, ior));
      } else if code == 1 {
        dist := Some(GGXDist(rough, ior));
      } else {
        dist := None;
      }
      refractiveIndex := ior;
      diffuseReflectance := diffuse;
      specularColor := specular;
    }

    /** setDisttype: records the code and, for 0 or 1, replaces the
        distribution by one built from the current roughness and index;
        another code keeps the old distribution. */
    method SetDisttype(code: int)
      modifies this
      ensures disttype == code
      ensures code == 0 ==> dist == Some(BeckmannDist(roughness, refractiveIndex))
      ensures code == 1 ==> dist == Some(GGXDist(roughness, refractiveIndex))
      ensures code != 0 && code != 1 ==> dist == old(dist)
      ensures roughness == old(roughness) && refractiveIndex == old(refractiveIndex)
      ensures diffuseReflectance == old(diffuseReflectance) && specularColor == old(specularColor)
    {
      disttype := code;
      if code == 0 {
        dist := Some(BeckmannDist(roughness, refractiveIndex));
      } else if code == 1 {
        dist := Some(GGXDist(roughness, refractiveIndex));
      }
    }

    /** MicrofacetBSDF.eval: accumulates into outValue, and the distribution's
        eval normalises the caller's vectors as EvalEffect says. */
    method Eval(lib: Lib, dir1: Vector3d, dir2: Vector3d, normal: Vector3d, outValue: Colord)
      requires Lawful(lib) && dist.Some? && dir1 != dir2 && dir1 != normal && dir2 != normal
      requires EvalDefined(lib, dist.value, dir1.v, dir2.v, normal.v)
      modifies dir1, dir2, normal, outValue
      ensures outValue.c == EvalColor(lib, dist.value, diffuseReflectance, specularColor,
                                      old(outValue.c), old(dir1.v), old(dir2.v), old(normal.v))
      ensures Dot(old(dir1.v), old(normal.v)) <= 0.0 || Dot(old(dir2.v), old(normal.v)) <= 0.0
              ==> dir1.v == old(dir1.v) && dir2.v == old(dir2.v) && normal.v == old(normal.v)
      ensures (dir1.v, dir2.v, normal.v) == EvalEffect(lib, old(dir1.v), old(dir2.v), old(normal.v))
    {
      if Dot(dir1.v, normal.v) <= 0.0 || Dot(dir2.v, normal.v) <= 0.0 {
        outValue.c := Black;
      } else {
        var dcolor := CScale(diffuseReflectance, 1.0 / Pi);
        outValue.c := CAdd(outValue.c, dcolor);
        var mcolor := specularColor;
        var e := MicrofacetDistribution.Eval(lib, dist.value, dir1, dir2, normal);
        outValue.c := CAdd(outValue.c, CScale(mcolor, e));
      }
    }

    /** MicrofacetBSDF.pdf: the distribution's density, gated by both
        directions being above the surface; the gate changes nothing, since
        the distribution's pdf is already zero there. */
    function Pdf(lib: Lib, i: Vec3, o: Vec3, n: Vec3): (p: real)
      reads this
      requires Lawful(lib) && dist.Some? && PdfDefined(lib, dist.value, i, o, n)
      ensures p == MicrofacetDistribution.Pdf(lib, dist.value, i, o, n)
    {
      if Dot(i, n) > 0.0 && Dot(o, n) > 0.0 then MicrofacetDistribution.Pdf(lib, dist.value, i, o, n)
      else 0.0
    }

    /** MicrofacetBSDF.sample: the distribution draws dir2; the value is
        what eval would accumulate into outValue for that direction, and the
        density is the distribution's pdf of it, which is what pdf returns; as
        in eval, dir1 and the normal are left normalised as EvalEffect says. */
    method Sample(lib: Lib, rec: BSDFSamplingRecord, seed: Vec2, outValue: Colord) returns (prob: real)
      requires Lawful(lib) && LogLawful(lib) && dist.Some? && rec.Valid() && 0.0 <= seed.x < 1.0
      requires SampleDefined(lib, dist.value, seed, rec.dir1.v, rec.normal.v)
      modifies rec.dir1, rec.dir2, rec.normal, outValue
      ensures rec.dir2.v == SampledDirection(lib, dist.value, seed, old(rec.dir1.v), old(rec.normal.v))
      ensures prob == MicrofacetDistribution.Pdf(lib, dist.value, old(rec.dir1.v), rec.dir2.v, old(rec.normal.v))
      ensures outValue.c == EvalColor(lib, dist.value, diffuseReflectance, specularColor,
                                      old(outValue.c), old(rec.dir1.v), rec.dir2.v, old(rec.normal.v))
      ensures var e := EvalEffect(lib, old(rec.dir1.v), rec.dir2.v, old(rec.normal.v));
              rec.dir1.v == e.0 && rec.normal.v == e.2
    {
      var d, kd, ks := dist.value, diffuseReflectance, specularColor;
      var o := MirrorSample(lib, d, seed, rec.dir1.v, rec.normal.v);
      prob := SampleAtDirection(lib, d, kd, ks, rec, o, outValue);
      assert dist.value == d && diffuseReflectance == kd && specularColor == ks;
    }

    /** MicrofacetBSDF.getDiffuseReflectance. */
    function DiffuseReflectance(): (c: Color)
      reads this
      ensures c == diffuseReflectance
    {
      diffuseReflectance
    }
  }

  /** The colour eval leaves in outValue when it held `prior`, for a
      material with distribution d, diffuse reflectance kd and specular
      colour ks: black unless both directions are strictly above the surface,
      and otherwise prior plus kd / pi plus ks times the distribution's
      value. */
  function EvalColor(lib: Lib, d: Distribution, kd: Color, ks: Color, prior: Color, i: Vec3, o: Vec3, n: Vec3): (c: Color)
    requires Lawful(lib) && EvalDefined(lib, d, i, o, n)
    ensures Dot(i, n) <= 0.0 || Dot(o, n) <= 0.0 ==> c == Black
  {
    if Dot(i, n) <= 0.0 || Dot(o, n) <= 0.0 then Black
    else CAdd(CAdd(prior, CScale(kd, 1.0 / Pi)), CScale(ks, EvalValue(lib, d, i, o, n)))
  }

  /** With non-negative colours the colour eval adds is non-negative. */
  lemma {:induction false} EvalColorNonneg(lib: Lib, d: Distribution, kd: Color, ks: Color, prior: Color, i: Vec3, o: Vec3, n: Vec3)
    requires Lawful(lib) && ExpLawful(lib) && EvalDefined(lib, d, i, o, n)
    requires NonnegColor(prior) && NonnegColor(kd) && NonnegColor(ks)
    ensures NonnegColor(EvalColor(lib, d, kd, ks, prior, i, o, n))
  {
    EvalNonneg(lib, d, i, o, n);
    var e := EvalValue(lib, d, i, o, n);
    MulNonneg(e, ks.r);
    MulNonneg(e, ks.g);
    MulNonneg(e, ks.b);
    MulNonneg(1.0 / Pi, kd.r);
    MulNonneg(1.0 / Pi, kd.g);
    MulNonneg(1.0 / Pi, kd.b);
  }

  /** The rest of sample once the direction o is drawn: the distribution
      writes it into dir2 and returns its density and value, which are then
      gated by both directions being above the surface. */
  method SampleAtDirection(lib: Lib, d: Distribution, kd: Color, ks: Color, rec: BSDFSamplingRecord, o: Vec3, outValue: Colord)
    returns (prob: real)
    requires Lawful(lib) && rec.Valid()
    requires EvalDefined(lib, d, rec.dir1.v, o, rec.normal.v) && PdfDefined(lib, d, rec.dir1.v, o, rec.normal.v)
    requires EvalEffect(lib, rec.dir1.v, o, rec.normal.v).1 == o
    modifies rec.dir1, rec.dir2, rec.normal, outValue
    ensures rec.dir2.v == o
    ensures prob == MicrofacetDistribution.Pdf(lib, d, old(rec.dir1.v), rec.dir2.v, old(rec.normal.v))
    ensures outValue.c == EvalColor(lib, d, kd, ks, old(outValue.c), old(rec.dir1.v), rec.dir2.v, old(rec.normal.v))
    ensures var e := EvalEffect(lib, old(rec.dir1.v), o, old(rec.normal.v));
            rec.dir1.v == e.0 && rec.normal.v == e.2
  {
    var bsdf := new Colord(Black);
    ghost var i, n := rec.dir1.v, rec.normal.v;
    var p := MicrofacetDistribution.SampleAt(lib, d, rec, o, bsdf);
    ghost var e := EvalValue(lib, d, i, o, n);
    prob := Combine(i, n, rec.dir1.v, rec.dir2.v, rec.normal.v, p, e, bsdf.c, kd, ks, outValue);
    assert Dot(i, n) <= 0.0 || Dot(o, n) <= 0.0 ==> p == 0.0;
  }

  /** The sign test of sample on the vectors eval normalised (which have
      the signs of the original i, o and n): below the surface the density
      p becomes 0 and the value black, otherwise the value accumulates kd /
      pi and ks times the grey b = e. */
  method Combine(ghost i: Vec3, ghost n: Vec3, d1: Vec3, o: Vec3, nn: Vec3, p: real, ghost e: real, b: Color,
                 kd: Color, ks: Color, outValue: Colord)
    returns (prob: real)
    requires (0.0 < Dot(d1, nn) <==> 0.0 < Dot(i, n)) && (0.0 < Dot(o, nn) <==> 0.0 < Dot(o, n))
    requires b == Gray(e)
    modifies outValue
    ensures prob == if 0.0 < Dot(i, n) && 0.0 < Dot(o, n) then p else 0.0
    ensures outValue.c == if 0.0 < Dot(i, n) && 0.0 < Dot(o, n)
                          then CAdd(CAdd(old(outValue.c), CScale(kd, 1.0 / Pi)), CScale(ks, e))
                          else Black
  {
    prob := p;
    var mcolor := ks;
    GrayProduct(mcolor, e);
    if Dot(d1, nn) > 0.0 && Dot(o, nn) > 0.0 {
      var dcolor := CScale(kd, 1.0 / Pi);
      outValue.c := CAdd(outValue.c, dcolor);
      outValue.c := CAdd(outValue.c, CMul(mcolor, b));
    } else {
      prob := 0.0;
      outValue.c := Black;
    }
  }

  /** Multiplying a colour by a grey is scaling it. */
  lemma GrayProduct(a: Color, s: real)
    ensures CMul(a, Gray(s)) == CScale(a, s)
  {
  }

  predicate NonnegColor(c: Color) {
    0.0 <= c.r && 0.0 <= c.g && 0.0 <= c.b
  }
}
