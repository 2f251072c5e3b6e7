/** The Fresnel reflectance shared by every BSDF (BSDF.fresnel). */
module Bsdf {
  import opened VecMath

  /** The squared cosine of the transmitted angle, by Snell's law, for an
      incident cosine `cos1` and a relative index of refraction `ior`. */
  function CosTransmittedSq(cos1: real, ior: real): real
    requires ior != 0.0
  {
    Square(ior);
    1.0 - (1.0 - Mul(cos1, cos1)) / Mul(ior, ior)
  }

  /** The amplitude ratio (p - q) / (p + q) of one polarisation. */
  function Amplitude(p: real, q: real): (r: real)
    requires 0.0 <= p && 0.0 <= q && 0.0 < p + q
    ensures -1.0 <= r <= 1.0 && 0.0 <= Mul(r, r) <= 1.0
  {
    var r := (p - q) / (p + q);
    assert r * (p + q) == p - q;
    UnitSquare(r);
    r
  }

  lemma UnitSquare(r: real)
    requires -1.0 <= r <= 1.0
    ensures 0.0 <= Mul(r, r) <= 1.0
  {
    Square(r);
    SquareRaw(1.0 - r);
    SquareRaw(1.0 + r);
    assert (1.0 - r) * (1.0 + r) == 1.0 - r * r;
    MulNonneg(1.0 - r, 1.0 + r);
  }

  /** What fresnel demands of its arguments so that no denominator is zero:
      a positive index, and at grazing incidence an index other than one. */
  predicate FresnelDefined(normal: Vec3, outgoing: Vec3, ior: real) {
    0.0 < ior && (Dot(outgoing, normal) == 0.0 ==> ior != 1.0)
  }

  /** BSDF.fresnel: the unpolarised Fresnel reflectance for light leaving
      along `outgoing` from a surface with `normal`, seen from the side the
      normal points to, into a medium of relative index `ior`.  It is zero
      below the surface and one under total internal reflection. */
  function Fresnel(lib: Lib, normal: Vec3, outgoing: Vec3, ior: real): (r: real)
    requires Lawful(lib) && FresnelDefined(normal, outgoing, ior)
    ensures Dot(outgoing, normal) < 0.0 ==> r == 0.0
    ensures 0.0 <= Dot(outgoing, normal) && CosTransmittedSq(Dot(outgoing, normal), ior) < 0.0 ==> r == 1.0
    ensures 0.0 <= r <= 1.0
  {
    var cos1 := Dot(outgoing, normal);
    if cos1 < 0.0 then 0.0
    else
      var cos2Sq := CosTransmittedSq(cos1, ior);
      if cos2Sq < 0.0 then 1.0
      else
        var cos2 := lib.sqrt(cos2Sq);
        TransmittedCosinePositive(lib, cos1, ior);
        MulNonneg(ior, cos1);
        MulNonneg(ior, cos2);
        var fp := Amplitude(Mul(ior, cos1), cos2);
        var fs := Amplitude(cos1, Mul(ior, cos2));
        0.5 * (Mul(fp, fp) + Mul(fs, fs))
  }

  /** Where fresnel divides by ior*cos1 + cos2 and cos1 + ior*cos2, both are
      positive. */
  lemma TransmittedCosinePositive(lib: Lib, cos1: real, ior: real)
    requires Lawful(lib) && 0.0 < ior && 0.0 <= cos1 && (cos1 == 0.0 ==> ior != 1.0)
    requires 0.0 <= CosTransmittedSq(cos1, ior)
    ensures 0.0 < Mul(ior, cos1) + lib.sqrt(CosTransmittedSq(cos1, ior))
    ensures 0.0 < cos1 + Mul(ior, lib.sqrt(CosTransmittedSq(cos1, ior)))
  {
    var cos2Sq := CosTransmittedSq(cos1, ior);
    var cos2 := lib.sqrt(cos2Sq);
    SqrtPositive(lib, cos2Sq);
    MulNonneg(ior, cos2);
    MulNonneg(ior, cos1);
    if cos1 == 0.0 {
      assert Mul(cos1, cos1) == 0.0;
      IndexSquareNotOne(ior);
      assert cos2Sq != 0.0;
      MulPos(ior, cos2);
    } else {
      MulPos(ior, cos1);
    }
  }

  lemma IndexSquareNotOne(ior: real)
    requires 0.0 < ior && ior != 1.0
    ensures Mul(ior, ior) != 0.0 && 1.0 / Mul(ior, ior) != 1.0
  {
    MulPos(ior, ior);
    if ior < 1.0 {
      MulLt(ior, ior, 1.0);
    } else {
      MulLt(ior, 1.0, ior);
    }
  }

  /** At normal incidence (cos1 = 1) the reflectance is ((n - 1) / (n + 1))^2,
      the textbook value. */
  lemma {:induction false} FresnelNormalIncidence(lib: Lib, normal: Vec3, outgoing: Vec3, ior: real)
    requires Lawful(lib) && 0.0 < ior && Dot(outgoing, normal) == 1.0
    ensures Fresnel(lib, normal, outgoing, ior) == Mul((ior - 1.0) / (ior + 1.0), (ior - 1.0) / (ior + 1.0))
  {
    SqrtOne(lib);
    MulPos(ior, ior);
    assert CosTransmittedSq(1.0, ior) == 1.0;
    assert Mul(ior, 1.0) == ior;
    var fp := Amplitude(ior, 1.0);
    var fs := Amplitude(1.0, ior);
    assert fs == -fp;
    assert Mul(fs, fs) == Mul(fp, fp);
  }

  /** At grazing incidence (cos1 = 0) with transmission possible, every
      polarisation is reflected completely. */
  lemma {:induction false} FresnelGrazing(lib: Lib, normal: Vec3, outgoing: Vec3, ior: real)
    requires Lawful(lib) && 1.0 < ior && Dot(outgoing, normal) == 0.0
    ensures Fresnel(lib, normal, outgoing, ior) == 1.0
  {
    assert Mul(0.0, 0.0) == 0.0;
    var cos2Sq := CosTransmittedSq(0.0, ior);
    IndexSquareNotOne(ior);
    MulLt(ior, 1.0, ior);
    assert 1.0 / Mul(ior, ior) < 1.0;
    assert 0.0 < cos2Sq;
    var cos2 := lib.sqrt(cos2Sq);
    SqrtPositive(lib, cos2Sq);
    MulPos(ior, cos2);
    assert Mul(ior, 0.0) == 0.0;
    assert Amplitude(0.0, cos2) == -1.0;
    assert Amplitude(0.0, Mul(ior, cos2)) == -1.0;
  }

  /** At the critical angle (transmitted cosine zero) everything is
      reflected. */
  lemma {:induction false} FresnelCriticalAngle(lib: Lib, normal: Vec3, outgoing: Vec3, ior: real)
    requires Lawful(lib) && FresnelDefined(normal, outgoing, ior) && 0.0 <= Dot(outgoing, normal)
    requires CosTransmittedSq(Dot(outgoing, normal), ior) == 0.0
    ensures Fresnel(lib, normal, outgoing, ior) == 1.0
  {
    var cos1 := Dot(outgoing, normal);
    SqrtZero(lib);
    if cos1 == 0.0 {
      assert Mul(cos1, cos1) == 0.0;
      IndexSquareNotOne(ior);
    }
    MulPos(ior, cos1);
    assert Mul(ior, 0.0) == 0.0;
    assert Amplitude(Mul(ior, cos1), 0.0) == 1.0;
    assert Amplitude(cos1, 0.0) == 1.0;
  }

  /** The fixtures of the Fresnel unit test: outgoing (-1, 1, 0) against
      normal (1, 1, 1) with index 2 grazes the surface and gives 1. */
  lemma FresnelFixtureGrazing(lib: Lib)
    requires Lawful(lib)
    ensures Fresnel(lib, Vec3(1.0, 1.0, 1.0), Vec3(-1.0, 1.0, 0.0), 2.0) == 1.0
  {
    assert Dot(Vec3(-1.0, 1.0, 0.0), Vec3(1.0, 1.0, 1.0)) == 0.0;
    FresnelGrazing(lib, Vec3(1.0, 1.0, 1.0), Vec3(-1.0, 1.0, 0.0), 2.0);
  }

  /** Against normal (1, 2, 0) the same outgoing direction is at normal
      incidence, cos1 = 1 (FixtureCosines); there the test expects 1/9 for
      index 2 and 4/9 for index 5.  Both are stated for any pair with
      cosine 1, of which the test's pair is one. */
  lemma FresnelFixtureIndexTwo(lib: Lib, normal: Vec3, outgoing: Vec3)
    requires Lawful(lib) && Dot(outgoing, normal) == 1.0
    ensures Fresnel(lib, normal, outgoing, 2.0) == 1.0 / 9.0
  {
    FresnelNormalIncidenceValue(lib, normal, outgoing, 2.0, 1.0 / 3.0);
  }

  lemma FresnelFixtureIndexFive(lib: Lib, normal: Vec3, outgoing: Vec3)
    requires Lawful(lib) && Dot(outgoing, normal) == 1.0
    ensures Fresnel(lib, normal, outgoing, 5.0) == 4.0 / 9.0
  {
    FresnelNormalIncidenceValue(lib, normal, outgoing, 5.0, 2.0 / 3.0);
  }

  /** The cosines of the test's direction pairs: (-1, 1, 0) is perpendicular to
      (1, 1, 1) and has dot product 1 with (1, 2, 0). */
  lemma FixtureCosines()
    ensures Dot(Vec3(-1.0, 1.0, 0.0), Vec3(1.0, 1.0, 1.0)) == 0.0
    ensures Dot(Vec3(-1.0, 1.0, 0.0), Vec3(1.0, 2.0, 0.0)) == 1.0
  {
  }

  /** FresnelNormalIncidence with the ratio (n - 1) / (n + 1) given as `q`. */
  lemma FresnelNormalIncidenceValue(lib: Lib, normal: Vec3, outgoing: Vec3, ior: real, q: real)
    requires Lawful(lib) && 0.0 < ior && Dot(outgoing, normal) == 1.0
    requires q * (ior + 1.0) == ior - 1.0
    ensures Fresnel(lib, normal, outgoing, ior) == Mul(q, q)
  {
    FresnelNormalIncidence(lib, normal, outgoing, ior);
    assert (ior - 1.0) / (ior + 1.0) == q;
  }
}
