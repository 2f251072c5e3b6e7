/** LambertianBSDF: ideal diffuse reflection, sampled with a cosine-weighted
    hemisphere about the normal. */
module Lambertian {
  import opened VecMath
  import opened Hemisphere
  import opened BsdfRecord

  class LambertianBSDF {
    var diffuseReflectance: Color

    /** The default material: white. */
    constructor ()
      ensures diffuseReflectance == White
    {
      diffuseReflectance := White;
    }

    constructor WithColor(c: Color)
      ensures diffuseReflectance == c
    {
      diffuseReflectance := c;
    }

    /** The value eval reports: reflectance / pi with both directions on the
        normal's side (a dot product of zero counts), black otherwise. */
    function Value(dir1: Vec3, dir2: Vec3, normal: Vec3): (c: Color)
      reads this
      ensures Dot(dir1, normal) < 0.0 || Dot(dir2, normal) < 0.0 ==> c == Black
    {
      if Dot(dir1, normal) >= 0.0 && Dot(dir2, normal) >= 0.0 then CScale(diffuseReflectance, 1.0 / Pi)
      else Black
    }

    /** The BRDF is reciprocal: swapping the two directions changes nothing. */
    lemma Reciprocal(dir1: Vec3, dir2: Vec3, normal: Vec3)
      ensures Value(dir1, dir2, normal) == Value(dir2, dir1, normal)
    {
    }

    /** A non-negative reflectance gives a non-negative value. */
    lemma ValueNonNeg(dir1: Vec3, dir2: Vec3, normal: Vec3)
      requires 0.0 <= diffuseReflectance.r && 0.0 <= diffuseReflectance.g && 0.0 <= diffuseReflectance.b
      ensures var c := Value(dir1, dir2, normal); 0.0 <= c.r && 0.0 <= c.g && 0.0 <= c.b
    {
    }

    /** LambertianBSDF.eval. */
    method Eval(dir1: Vec3, dir2: Vec3, normal: Vec3, outValue: Colord)
      modifies outValue
      ensures outValue.c == Value(dir1, dir2, normal)
    {
      if Dot(dir1, normal) >= 0.0 && Dot(dir2, normal) >= 0.0 {
        outValue.c := CScale(diffuseReflectance, 1.0 / Pi);
      } else {
        outValue.c := Black;
      }
    }

    /** LambertianBSDF.pdf: the cosine density cos(theta) / pi of dir2, zero
        below the surface; dir1 plays no part. */
    function Pdf(dir1: Vec3, dir2: Vec3, normal: Vec3): (p: real)
      ensures 0.0 <= p
      ensures Mul(p, Pi) == Max(0.0, Dot(dir2, normal))
    {
      if Dot(dir2, normal) >= 0.0 then Dot(dir2, normal) / Pi else 0.0
    }

    /** The direction sample writes: a cosine-hemisphere direction carried
        into the frame basisFromW builds about the normal. */
    static function SampleDirection(lib: Lib, seed: Vec2, normal: Vec3): (d: Vec3)
      requires Lawful(lib)
      ensures 0.0 <= seed.x <= 1.0 ==> 0.0 <= Dot(d, normal)
    {
      var l := CosineHemisphere(lib, seed);
      var (u, v) := BasisFromW(lib, normal);
      ToWorldCosine(normal, u, v, l);
      ScaledLenSqNonNeg(l.z, normal);
      ToWorld(normal, u, v, l)
    }

    static lemma ScaledLenSqNonNeg(z: real, n: Vec3)
      ensures 0.0 <= z ==> 0.0 <= Mul(z, LenSq(n))
    {
      if 0.0 <= z {
        MulNonneg(z, LenSq(n));
      }
    }

    /** For a unit normal the sampled direction is a unit vector. */
    static lemma {:induction false} SampleDirectionUnit(lib: Lib, seed: Vec2, normal: Vec3)
      requires Lawful(lib) && TrigLawful(lib) && 0.0 <= seed.x <= 1.0 && Unit(normal)
      ensures Unit(SampleDirection(lib, seed, normal))
    {
      CosineHemisphereUnit(lib, seed);
      BasisFromWOrthonormal(lib, normal);
      var (u, v) := BasisFromW(lib, normal);
      ToWorldUnit(normal, u, v, CosineHemisphere(lib, seed));
    }

    /** LambertianBSDF.sample: writes only dir2 and outValue.  The density it
        returns is pdf of the direction it wrote, and its value is eval's
        whenever dir1 is on the normal's side. */
    method Sample(lib: Lib, rec: BSDFSamplingRecord, seed: Vec2, outValue: Colord) returns (p: real)
      requires Lawful(lib) && rec.Valid()
      modifies rec.dir2, outValue
      ensures rec.dir2.v == SampleDirection(lib, seed, rec.normal.v)
      ensures outValue.c == CScale(diffuseReflectance, 1.0 / Pi)
      ensures Mul(p, Pi) == Dot(rec.dir2.v, rec.normal.v)
      ensures 0.0 <= seed.x <= 1.0 ==> p == Pdf(rec.dir1.v, rec.dir2.v, rec.normal.v)
      ensures 0.0 <= seed.x <= 1.0 && 0.0 <= Dot(rec.dir1.v, rec.normal.v)
              ==> outValue.c == Value(rec.dir1.v, rec.dir2.v, rec.normal.v)
    {
      var n := rec.normal.v;
      var local := CosineHemisphere(lib, seed);
      var (u, v) := BasisFromW(lib, n);
      rec.dir2.v := Scale(n, local.z);
      rec.dir2.v := Add(rec.dir2.v, Scale(u, local.x));
      rec.dir2.v := Add(rec.dir2.v, Scale(v, local.y));
      outValue.c := CScale(diffuseReflectance, 1.0 / Pi);
      p := Dot(rec.dir2.v, n) / Pi;
    }

    /** LambertianBSDF.getDiffuseReflectance. */
    function DiffuseReflectance(): (c: Color)
      reads this
      ensures c == diffuseReflectance
    {
      diffuseReflectance
    }
  }
}
