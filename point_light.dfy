/** PointLight: an infinitely small source emitting the same intensity in
    every direction. */
module PointLight {
  import opened VecMath
  import opened LightRecord

  class PointLight {
    var position: Vec3
    /** Light.intensity: white unless set. */
    var intensity: Color

    /** A unit-intensity light at the origin. */
    constructor ()
      ensures position == Zero && intensity == White
    {
      position := Zero;
      intensity := White;
    }

    /** PointLight.setPosition: copies the given point; nothing else
        changes. */
    method SetPosition(p: Vec3)
      modifies this
      ensures position == p && intensity == old(intensity)
    {
      position := p;
    }

    /** PointLight.init: a point light needs no scene-dependent setup, so
        init modifies nothing. */
    method Init()
    {
    }

    /** PointLight.eval: the intensity, whatever the shadow ray. */
    method Eval(shadowDir: Vec3, outRadiance: Colord)
      modifies outRadiance
      ensures outRadiance.c == intensity
    {
      outRadiance.c := intensity;
    }

    /** PointLight.sample: the unnormalised direction to the light, the
        inverse-square attenuation, the distance and probability one.  The
        shading point must differ from the position (Java would divide by
        zero). */
    method Sample(lib: Lib, lRec: LightSamplingRecord, shadingPoint: Vec3)
      requires Lawful(lib) && shadingPoint != position
      modifies lRec
      ensures Add(shadingPoint, lRec.direction) == position
      ensures lRec.distance == Len(lib, Sub(position, shadingPoint))
      ensures lRec.attenuation == Falloff(shadingPoint, position)
      ensures lRec.probability == 1.0
    {
      DistinctPoints(shadingPoint, position);
      lRec.direction := Sub(position, shadingPoint);
      lRec.attenuation := Falloff(shadingPoint, position);
      lRec.distance := Len(lib, lRec.direction);
      lRec.probability := 1.0;
    }

    /** PointLight.pdf: the single direction is always chosen. */
    function Pdf(shadowDir: Vec3): (p: real)
      ensures p == 1.0
    {
      1.0
    }
  }

  /** 1 / |p - q|^2 for distinct points (Vector3d.distSq). */
  function Falloff(p: Vec3, q: Vec3): real
    requires p != q
  {
    DistinctPoints(p, q);
    1.0 / DistSq(p, q)
  }

  /** The attenuation and distance sample writes obey the inverse-square
      law: attenuation * distance^2 = 1, with a positive distance. */
  lemma {:induction false} InverseSquare(lib: Lib, position: Vec3, shadingPoint: Vec3)
    requires Lawful(lib) && shadingPoint != position
    ensures var d := Len(lib, Sub(position, shadingPoint));
            0.0 < d && Mul(Falloff(shadingPoint, position), Mul(d, d)) == 1.0
  {
    DistinctPoints(shadingPoint, position);
    var a := Sub(position, shadingPoint);
    var d := Len(lib, a);
    assert Mul(d, d) == LenSq(a) == DistSq(shadingPoint, position);
    Inverse(LenSq(a));
  }
}
