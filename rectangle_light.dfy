/** RectangleLight: a one-sided rectangular area source of constant radiance,
    framed like a camera by a position, a facing direction and an up
    direction. */
module RectangleLight {
  import opened VecMath
  import opened LightRecord

  class RectangleLight {
    var position: Vec3
    /** The direction the light faces. */
    var normalDir: Vec3
    /** Aligned with the light's height axis. */
    var upDir: Vec3
    var height: real
    var width: real
    /** The frame init derives: basisW points against normalDir. */
    var basisU: Vec3
    var basisV: Vec3
    var basisW: Vec3
    /** Light.intensity, here the radiance: white unless set. */
    var intensity: Color

    /** A unit square at the origin facing -z, with +y up. */
    constructor ()
      ensures position == Zero && normalDir == Vec3(0.0, 0.0, -1.0) && upDir == Vec3(0.0, 1.0, 0.0)
      ensures height == 1.0 && width == 1.0 && intensity == White
      ensures basisU == Zero && basisV == Zero && basisW == Zero
    {
      position := Zero;
      normalDir := Vec3(0.0, 0.0, -1.0);
      upDir := Vec3(0.0, 1.0, 0.0);
      height := 1.0;
      width := 1.0;
      basisU := Zero;
      basisV := Zero;
      basisW := Zero;
      intensity := White;
    }

    /** The frame init computes: W = normalize(-normalDir),
        U = normalize(upDir x W), V = normalize(W x U). */
    ghost predicate Framed(lib: Lib)
      reads this
      requires Lawful(lib)
    {
      && basisW == Normalize(lib, Neg(normalDir))
      && basisU == Normalize(lib, Cross(upDir, basisW))
      && basisV == Normalize(lib, Cross(basisW, basisU))
    }

    /** What the frame needs to be orthonormal: a facing direction, and an up
        direction not parallel to it. */
    predicate Oriented()
      reads this
    {
      normalDir != Zero && Cross(upDir, normalDir) != Zero
    }

    /** RectangleLight.init, the basis part: only the three basis fields
        change. */
    method Init(lib: Lib)
      requires Lawful(lib)
      modifies this
      ensures Framed(lib)
      ensures position == old(position) && normalDir == old(normalDir) && upDir == old(upDir)
      ensures height == old(height) && width == old(width) && intensity == old(intensity)
    {
      var w := Normalize(lib, Neg(normalDir));
      var u := Normalize(lib, Cross(upDir, w));
      var v := Normalize(lib, Cross(w, u));
      ghost var before := (position, normalDir, upDir, height, width, intensity);
      basisW, basisU, basisV := w, u, v;
      assert (position, normalDir, upDir, height, width, intensity) == before;
    }

    /** The frame init builds is orthonormal and right-handed, and W points
        straight against the facing direction (cosine -1). */
    lemma {:induction false} FrameOrthonormal(lib: Lib)
      requires Lawful(lib) && Framed(lib) && Oriented()
      ensures Unit(basisU) && Unit(basisV) && Unit(basisW)
      ensures Dot(basisU, basisW) == 0.0 && Dot(basisV, basisW) == 0.0 && Dot(basisV, basisU) == 0.0
      ensures basisV == Cross(basisW, basisU)
      ensures Dot(basisW, normalDir) == -Len(lib, normalDir)
    {
      InitFrame(lib, normalDir, upDir, basisW, basisU, basisV);
      AgainstFacing(lib, normalDir);
    }

    /** The default light's frame is the standard one. */
    lemma {:induction false} DefaultFrame(lib: Lib)
      requires Lawful(lib) && Framed(lib)
      requires normalDir == Vec3(0.0, 0.0, -1.0) && upDir == Vec3(0.0, 1.0, 0.0)
      ensures basisU == Vec3(1.0, 0.0, 0.0) && basisV == Vec3(0.0, 1.0, 0.0) && basisW == Vec3(0.0, 0.0, 1.0)
    {
      DefaultW(lib, normalDir, basisW);
      DefaultU(lib, upDir, basisW, basisU);
      DefaultV(lib, basisW, basisU, basisV);
    }

    /** RectangleLight.eval: the radiance seen along the shadow ray, which
        points from the surface to the light, for light arriving at the
        front face; black from behind. */
    method Eval(shadowDir: Vec3, outRadiance: Colord)
      modifies outRadiance
      ensures Dot(shadowDir, normalDir) < 0.0 ==> outRadiance.c == intensity
      ensures Dot(shadowDir, normalDir) >= 0.0 ==> outRadiance.c == Black
    {
      if Dot(shadowDir, normalDir) < 0.0 {
        outRadiance.c := intensity;
      } else {
        outRadiance.c := Black;
      }
    }

    /** The point on the light the draws (a, b) choose:
        position + width (a - 1/2) U + height (b - 1/2) V. */
    function LightPoint(a: real, b: real): Vec3
      reads this
    {
      FramePoint(position, basisU, basisV, Offset(width, a), Offset(height, b))
    }

    /** For draws in [0, 1] the chosen point lies on the rectangle: in the
        light's plane, within half the width along U and half the height
        along V of its centre. */
    lemma {:induction false} LightPointOnRectangle(lib: Lib, a: real, b: real)
      requires Lawful(lib) && Framed(lib) && Oriented()
      ensures var q := Sub(LightPoint(a, b), position);
              && Dot(q, basisW) == 0.0
              && Dot(q, basisU) == Offset(width, a)
              && Dot(q, basisV) == Offset(height, b)
      ensures 0.0 <= a <= 1.0 && 0.0 <= b <= 1.0 && 0.0 <= width && 0.0 <= height ==>
              var q := Sub(LightPoint(a, b), position);
              Abs(Dot(q, basisU)) <= width / 2.0 && Abs(Dot(q, basisV)) <= height / 2.0
    {
      FrameOrthonormal(lib);
      RectanglePoint(position, basisU, basisV, basisW, width, height, a, b);
    }

    /** The attenuation sample reports: the cosine at the source (clamped at
        zero) over the squared distance. */
    function Attenuation(lib: Lib, shadingPoint: Vec3, lightPoint: Vec3): (r: real)
      reads this
      requires Lawful(lib) && shadingPoint != lightPoint
      ensures 0.0 <= r
    {
      DistinctPoints(shadingPoint, lightPoint);
      var m := Max(0.0, Dot(Normalize(lib, Sub(lightPoint, shadingPoint)), basisW));
      DivNonneg(m, DistSq(shadingPoint, lightPoint));
      m / DistSq(shadingPoint, lightPoint)
    }

    /** RectangleLight.sample, with the two Math.random() draws passed as a
        and b: the unit direction to the chosen point, its distance, the
        attenuation and the area density 1 / (width height).  The shading
        point must not be the chosen point and the area must not be zero
        (Java would divide by zero). */
    method Sample(lib: Lib, lRec: LightSamplingRecord, shadingPoint: Vec3, a: real, b: real)
      requires Lawful(lib) && shadingPoint != LightPoint(a, b) && width * height != 0.0
      modifies lRec
      ensures lRec.direction == Normalize(lib, Sub(LightPoint(a, b), shadingPoint))
      ensures lRec.distance == Len(lib, Sub(LightPoint(a, b), shadingPoint))
      ensures lRec.attenuation == Attenuation(lib, shadingPoint, LightPoint(a, b))
      ensures lRec.probability == Pdf(lRec.direction)
    {
      var lightPoint := FramePoint(position, basisU, basisV, Offset(width, a), Offset(height, b));
      var direction := Sub(lightPoint, shadingPoint);
      var distance := Len(lib, direction);
      direction := Normalize(lib, direction);
      DistinctPoints(shadingPoint, lightPoint);
      var attenuation := Max(0.0, Dot(direction, basisW)) / DistSq(shadingPoint, lightPoint);
      assert attenuation == Attenuation(lib, shadingPoint, lightPoint);
      var probability := 1.0 / (width * height);
      assert probability == Pdf(direction);
      lRec.direction, lRec.distance := direction, distance;
      lRec.attenuation, lRec.probability := attenuation, probability;
    }

    /** RectangleLight.pdf: the uniform density over the light's area,
        whatever the shadow ray. */
    function Pdf(shadowDir: Vec3): (p: real)
      reads this
      requires width * height != 0.0
      ensures p * (width * height) == 1.0
    {
      1.0 / (width * height)
    }

    /** The light is one-sided: the attenuation of a sample is positive
        exactly when the shading point is in front of the light (on the side
        normalDir points to), and exactly when eval of the sampled direction
        gives the radiance rather than black. */
    lemma {:induction false} OneSided(lib: Lib, shadingPoint: Vec3, a: real, b: real)
      requires Lawful(lib) && Framed(lib) && Oriented() && shadingPoint != LightPoint(a, b)
      ensures 0.0 < Attenuation(lib, shadingPoint, LightPoint(a, b))
              <==> 0.0 < Dot(Sub(shadingPoint, position), normalDir)
      ensures 0.0 < Attenuation(lib, shadingPoint, LightPoint(a, b))
              <==> Dot(Normalize(lib, Sub(LightPoint(a, b), shadingPoint)), normalDir) < 0.0
    {
      var lp := LightPoint(a, b);
      var e := Sub(lp, shadingPoint);
      var d := Normalize(lib, e);
      var n := normalDir;
      DistinctPoints(shadingPoint, lp);
      var k := NormScale(lib, e);
      NormalizeIsPositiveScale(lib, e);
      var c := NormScale(lib, Neg(n));
      NormalizeIsPositiveScale(lib, Neg(n));
      // sign(d . W) = sign(e . W) = -sign(e . n)
      assert Dot(d, basisW) == Mul(k, Dot(e, basisW)) by {
        DotScaleLeft(e, k, basisW);
      }
      SignOfScaled(k, Dot(e, basisW));
      assert Dot(e, basisW) == Mul(c, -Dot(e, n)) by {
        DotComm(e, basisW);
        DotScaleLeft(Neg(n), c, e);
        DotNeg(n, e);
        DotComm(n, e);
      }
      SignOfScaled(c, -Dot(e, n));
      assert Dot(d, n) == Mul(k, Dot(e, n)) by {
        DotScaleLeft(e, k, n);
      }
      SignOfScaled(k, Dot(e, n));
      // e . n = (lp - position) . n - (shadingPoint - position) . n, and the
      // first term is zero because lp is in the light's plane.
      LightPointOnRectangle(lib, a, b);
      var q := Sub(lp, position);
      assert Dot(q, n) == 0.0 by {
        assert Dot(q, basisW) == Mul(c, -Dot(q, n)) by {
          DotComm(q, basisW);
          DotScaleLeft(Neg(n), c, q);
          DotNeg(n, q);
          DotComm(n, q);
        }
        SignOfScaled(c, -Dot(q, n));
      }
      var p := Sub(shadingPoint, position);
      assert e == Add(q, Scale(p, -1.0));
      DotAddLeft(q, Scale(p, -1.0), n);
      DotScaleLeft(p, -1.0, n);
      var m := Max(0.0, Dot(d, basisW));
      assert Attenuation(lib, shadingPoint, lp) == m / DistSq(shadingPoint, lp);
      if 0.0 < m {
        PositiveRatio(m, DistSq(shadingPoint, lp));
      } else {
        assert m / DistSq(shadingPoint, lp) == 0.0;
      }
    }

    /** The attenuation and the distance sample reports obey the inverse
        square law: attenuation * distance^2 is the clamped cosine at the
        source. */
    lemma {:induction false} InverseSquare(lib: Lib, shadingPoint: Vec3, lightPoint: Vec3)
      requires Lawful(lib) && shadingPoint != lightPoint
      ensures var d := Len(lib, Sub(lightPoint, shadingPoint));
              0.0 < d
              && Attenuation(lib, shadingPoint, lightPoint) * Mul(d, d)
                 == Max(0.0, Dot(Normalize(lib, Sub(lightPoint, shadingPoint)), basisW))
    {
      DistinctPoints(shadingPoint, lightPoint);
      var e := Sub(lightPoint, shadingPoint);
      var d := Len(lib, e);
      assert Mul(d, d) == LenSq(e) == DistSq(shadingPoint, lightPoint);
      var m := Max(0.0, Dot(Normalize(lib, e), basisW));
      var s := DistSq(shadingPoint, lightPoint);
      assert (m / s) * s == m;
    }
  }

  /** The frame init builds from a facing direction n and an up direction
      not parallel to it is orthonormal and right-handed. */
  lemma {:induction false} InitFrame(lib: Lib, n: Vec3, up: Vec3, w: Vec3, u: Vec3, v: Vec3)
    requires Lawful(lib) && n != Zero && Cross(up, n) != Zero
    requires w == Normalize(lib, Neg(n)) && u == Normalize(lib, Cross(up, w))
    requires v == Normalize(lib, Cross(w, u))
    ensures Unit(u) && Unit(v) && Unit(w)
    ensures Dot(u, w) == 0.0 && Dot(v, w) == 0.0 && Dot(v, u) == 0.0
    ensures v == Cross(w, u)
  {
    NegNonzero(n);
    assert Cross(up, w) != Zero by {
      NormalizeIsPositiveScale(lib, Neg(n));
      CrossWithNegScaled(up, n, NormScale(lib, Neg(n)));
    }
    CrossFrame(lib, up, w);
  }

  /** The three steps of init's construction for the default facing
      direction -z and up direction +y: W = +z, U = +x, V = +y. */
  lemma {:induction false} DefaultW(lib: Lib, n: Vec3, w: Vec3)
    requires Lawful(lib) && n == Vec3(0.0, 0.0, -1.0) && w == Normalize(lib, Neg(n))
    ensures w == Vec3(0.0, 0.0, 1.0)
  {
    var m := Neg(n);
    NegCoordinates(n, m);
    AxisCosines(m, Vec3(0.0, 0.0, 1.0));
    NormalizeUnit(lib, m);
  }

  /** The coordinates of -n. */
  lemma NegCoordinates(n: Vec3, m: Vec3)
    requires m == Neg(n)
    ensures m.x == -n.x && m.y == -n.y && m.z == -n.z
  {
  }

  lemma {:induction false} DefaultU(lib: Lib, up: Vec3, w: Vec3, u: Vec3)
    requires Lawful(lib) && up == Vec3(0.0, 1.0, 0.0) && w == Vec3(0.0, 0.0, 1.0)
    requires u == Normalize(lib, Cross(up, w))
    ensures u == Vec3(1.0, 0.0, 0.0)
  {
    CrossYZ(up, w);
    AxisCosines(Cross(up, w), Vec3(1.0, 0.0, 0.0));
    NormalizeUnit(lib, Cross(up, w));
  }

  lemma {:induction false} DefaultV(lib: Lib, w: Vec3, u: Vec3, v: Vec3)
    requires Lawful(lib) && w == Vec3(0.0, 0.0, 1.0) && u == Vec3(1.0, 0.0, 0.0)
    requires v == Normalize(lib, Cross(w, u))
    ensures v == Vec3(0.0, 1.0, 0.0)
  {
    CrossZX(w, u);
    AxisCosines(Cross(w, u), Vec3(0.0, 1.0, 0.0));
    NormalizeUnit(lib, Cross(w, u));
  }

  /** The coordinate axes are unit vectors. */
  lemma AxisCosines(a: Vec3, e: Vec3)
    requires e == Vec3(1.0, 0.0, 0.0) || e == Vec3(0.0, 1.0, 0.0) || e == Vec3(0.0, 0.0, 1.0)
    requires a == e
    ensures LenSq(a) == 1.0
  {
    assert Mul(0.0, 0.0) == 0.0 && Mul(1.0, 1.0) == 1.0;
  }

  /** +y x +z = +x, spelled out coordinate by coordinate. */
  lemma CrossYZ(a: Vec3, b: Vec3)
    requires a == Vec3(0.0, 1.0, 0.0) && b == Vec3(0.0, 0.0, 1.0)
    ensures Cross(a, b) == Vec3(1.0, 0.0, 0.0)
  {
    assert Mul(a.y, b.z) == 1.0;
    assert Mul(a.z, b.y) == 0.0 && Mul(a.z, b.x) == 0.0 && Mul(a.x, b.z) == 0.0;
    assert Mul(a.x, b.y) == 0.0 && Mul(a.y, b.x) == 0.0;
  }

  /** +z x +x = +y, spelled out coordinate by coordinate. */
  lemma CrossZX(a: Vec3, b: Vec3)
    requires a == Vec3(0.0, 0.0, 1.0) && b == Vec3(1.0, 0.0, 0.0)
    ensures Cross(a, b) == Vec3(0.0, 1.0, 0.0)
  {
    assert Mul(a.z, b.x) == 1.0;
    assert Mul(a.y, b.z) == 0.0 && Mul(a.z, b.y) == 0.0 && Mul(a.x, b.z) == 0.0;
    assert Mul(a.x, b.y) == 0.0 && Mul(a.y, b.x) == 0.0;
  }

  /** How far from the centre, along a side of the given extent, the draw d
      in [0, 1] lands: extent (d - 1/2). */
  function Offset(extent: real, d: real): real {
    extent * (d - 0.5)
  }

  /** The point p + s u + t v. */
  function FramePoint(p: Vec3, u: Vec3, v: Vec3, s: real, t: real): Vec3 {
    Add(Add(p, Scale(u, s)), Scale(v, t))
  }

  /** The point p + width (a - 1/2) u + height (b - 1/2) v of an orthonormal
      frame lies in the plane through p orthogonal to w, and for draws in
      [0, 1] within the rectangle of that width and height centred on p. */
  lemma {:induction false} RectanglePoint(p: Vec3, u: Vec3, v: Vec3, w: Vec3, width: real, height: real, a: real, b: real)
    requires Unit(u) && Unit(v) && Dot(u, w) == 0.0 && Dot(v, w) == 0.0 && Dot(v, u) == 0.0
    ensures var q := Sub(FramePoint(p, u, v, Offset(width, a), Offset(height, b)), p);
            && Dot(q, w) == 0.0
            && Dot(q, u) == Offset(width, a)
            && Dot(q, v) == Offset(height, b)
    ensures 0.0 <= a <= 1.0 && 0.0 <= b <= 1.0 && 0.0 <= width && 0.0 <= height ==>
            var q := Sub(FramePoint(p, u, v, Offset(width, a), Offset(height, b)), p);
            Abs(Dot(q, u)) <= width / 2.0 && Abs(Dot(q, v)) <= height / 2.0
  {
    PlaneOffset(p, u, v, w, Offset(width, a), Offset(height, b));
    HalfExtent(width, a);
    HalfExtent(height, b);
  }

  /** In an orthonormal frame, the point p + s U + t V is offset from p by
      s along U, t along V and nothing along W. */
  lemma {:induction false} PlaneOffset(p: Vec3, u: Vec3, v: Vec3, w: Vec3, s: real, t: real)
    requires Unit(u) && Unit(v) && Dot(u, w) == 0.0 && Dot(v, w) == 0.0 && Dot(v, u) == 0.0
    ensures var q := Sub(FramePoint(p, u, v, s, t), p);
            Dot(q, w) == 0.0 && Dot(q, u) == s && Dot(q, v) == t
  {
    var q := Sub(FramePoint(p, u, v, s, t), p);
    assert q == Add(Scale(u, s), Scale(v, t));
    DotAddLeft(Scale(u, s), Scale(v, t), w);
    DotAddLeft(Scale(u, s), Scale(v, t), u);
    DotAddLeft(Scale(u, s), Scale(v, t), v);
    DotScaleLeft(u, s, w);
    DotScaleLeft(v, t, w);
    DotScaleLeft(u, s, u);
    DotScaleLeft(v, t, u);
    DotScaleLeft(u, s, v);
    DotScaleLeft(v, t, v);
    DotComm(u, v);
    assert Dot(u, u) == 1.0 && Dot(v, v) == 1.0;
    assert Mul(s, 1.0) == s && Mul(t, 1.0) == t && Mul(s, 0.0) == 0.0 && Mul(t, 0.0) == 0.0;
  }

  /** upDir x (c (-n)) = -c (upDir x n), so for c > 0 it is zero only when
      upDir x n is. */
  lemma CrossWithNegScaled(a: Vec3, n: Vec3, c: real)
    requires 0.0 < c && Cross(a, n) != Zero
    ensures Cross(a, Scale(Neg(n), c)) != Zero
  {
    var b := Scale(Neg(n), c);
    ScaleNegCoordinates(n, c, b);
    var x, y := Cross(a, n), Cross(a, b);
    if x.x != 0.0 {
      CrossScaleRaw(a.y, n.z, a.z, n.y, c, b.z, b.y);
      assert y.x != 0.0;
    } else if x.y != 0.0 {
      CrossScaleRaw(a.z, n.x, a.x, n.z, c, b.x, b.z);
      assert y.y != 0.0;
    } else {
      assert x.z != 0.0;
      CrossScaleRaw(a.x, n.y, a.y, n.x, c, b.y, b.x);
      assert y.z != 0.0;
    }
  }

  /** The coordinates of c (-n). */
  lemma ScaleNegCoordinates(n: Vec3, c: real, b: Vec3)
    requires b == Scale(Neg(n), c)
    ensures b.x == c * -n.x && b.y == c * -n.y && b.z == c * -n.z
  {
  }

  /** One coordinate of a x (c (-n)), from the matching one of a x n. */
  lemma CrossScaleRaw(p: real, q: real, r: real, s: real, c: real, cq: real, cs: real)
    requires 0.0 < c && cq == c * -q && cs == c * -s
    ensures Mul(p, q) - Mul(r, s) != 0.0 ==> Mul(p, cq) - Mul(r, cs) != 0.0
  {
    assert Mul(p, cq) - Mul(r, cs) == -c * (Mul(p, q) - Mul(r, s));
  }

  /** normalize(-n) . n = -|n| for n != 0. */
  lemma {:induction false} AgainstFacing(lib: Lib, n: Vec3)
    requires Lawful(lib) && n != Zero
    ensures Dot(Normalize(lib, Neg(n)), n) == -Len(lib, n)
  {
    var l := Len(lib, n);
    assert Len(lib, Neg(n)) == l by {
      DotNeg(n, Neg(n));
      DotNeg(n, n);
      DotComm(n, Neg(n));
    }
    assert NormScale(lib, Neg(n)) == 1.0 / l;
    NormalizeIsPositiveScale(lib, Neg(n));
    DotScaleLeft(Neg(n), 1.0 / l, n);
    DotNeg(n, n);
    assert Mul(l, l) == LenSq(n);
    CancelLength(l);
  }

  lemma CancelLength(l: real)
    requires 0.0 < l
    ensures Mul(1.0 / l, -Mul(l, l)) == -l
  {
  }

  /** |w (a - 1/2)| <= w / 2 for a in [0, 1] and w >= 0. */
  lemma HalfExtent(w: real, a: real)
    ensures 0.0 <= a <= 1.0 && 0.0 <= w ==> Abs(Offset(w, a)) <= w / 2.0
  {
    if 0.0 <= a <= 1.0 && 0.0 <= w {
      var t := a - 0.5;
      assert -0.5 <= t <= 0.5;
      if t < 0.0 {
        assert w * (-t) <= w * 0.5;
      } else {
        assert w * t <= w * 0.5;
      }
    }
  }
}
