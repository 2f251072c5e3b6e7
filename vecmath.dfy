/** Vector and colour arithmetic (the egl.math Vector2d, Vector3d and Colord
    classes) and the java.lang.Math functions the renderer calls.

    Doubles are modelled as exact reals.  sqrt, exp, log, sin and cos are not
    computed: they are the fields of a `Lib` value that every member needing
    them receives as a parameter, and `Lawful` states the few facts the proofs
    rely on.  Math.pow(x, 1.5) is x * sqrt(x). */
module VecMath {

  /** Math.PI: the double nearest to pi, written out exactly. */
  const Pi: real := 3.141592653589793115997963468544185161590576171875

  /** The transcendental functions of java.lang.Math, left abstract. */
  datatype Lib = Lib(sqrt: real -> real, exp: real -> real, log: real -> real,
                     sin: real -> real, cos: real -> real)

  /** The facts about the abstract functions that the model relies on. */
  ghost predicate Lawful(lib: Lib) {
    forall x :: 0.0 <= x ==> 0.0 <= lib.sqrt(x) && lib.sqrt(x) * lib.sqrt(x) == x
  }

  /** sin^2 + cos^2 = 1, for the hemisphere and half-vector samplers. */
  ghost predicate TrigLawful(lib: Lib) {
    forall x :: Mul(lib.sin(x), lib.sin(x)) + Mul(lib.cos(x), lib.cos(x)) == 1.0
  }

  /** exp is positive, for the Beckmann distribution. */
  ghost predicate ExpLawful(lib: Lib) {
    forall x :: 0.0 < lib.exp(x)
  }

  /** log is not positive on (0, 1], for the Beckmann sampler. */
  ghost predicate LogLawful(lib: Lib) {
    forall x :: 0.0 < x <= 1.0 ==> lib.log(x) <= 0.0
  }

  function Abs(a: real): (r: real)
    ensures 0.0 <= r && (r == a || r == -a)
  {
    if a < 0.0 then -a else a
  }

  function Max(a: real, b: real): (r: real)
    ensures a <= r && b <= r && (r == a || r == b)
  {
    if a < b then b else a
  }

  /** Math.pow(x, 1.5) for x >= 0. */
  function Pow15(lib: Lib, x: real): (r: real)
    requires Lawful(lib) && 0.0 <= x
    ensures 0.0 < x ==> 0.0 < r
  {
    SqrtPositive(lib, x);
    x * lib.sqrt(x)
  }

  lemma SqrtPositive(lib: Lib, x: real)
    requires Lawful(lib) && 0.0 <= x
    ensures 0.0 <= lib.sqrt(x) && lib.sqrt(x) * lib.sqrt(x) == x
    ensures 0.0 < x ==> 0.0 < lib.sqrt(x)
  {
  }

  /** The non-negative square root is unique. */
  lemma {:induction false} SqrtUnique(lib: Lib, x: real, s: real)
    requires Lawful(lib) && 0.0 <= s && Mul(s, s) == x
    ensures lib.sqrt(x) == s
  {
    var t := lib.sqrt(x);
    assert 0.0 <= t && t * t == x;
    if t < s {
      SquareStrict(t, s);
    } else if s < t {
      SquareStrict(s, t);
    }
  }

  lemma SqrtOne(lib: Lib)
    requires Lawful(lib)
    ensures lib.sqrt(1.0) == 1.0
  {
    SqrtUnique(lib, 1.0, 1.0);
  }

  lemma SqrtZero(lib: Lib)
    requires Lawful(lib)
    ensures lib.sqrt(0.0) == 0.0
  {
    SqrtUnique(lib, 0.0, 0.0);
  }

  /** sqrt is monotone. */
  lemma {:induction false} SqrtMonotone(lib: Lib, x: real, y: real)
    requires Lawful(lib) && 0.0 <= x <= y
    ensures lib.sqrt(x) <= lib.sqrt(y)
  {
    var a, b := lib.sqrt(x), lib.sqrt(y);
    SqrtPositive(lib, x);
    SqrtPositive(lib, y);
    if b < a {
      SquareStrict(b, a);
    }
  }

  // Helpers for products.  The solver is unreliable when it has to combine
  // several distinct products linearly, so those steps go through `Mul`,
  // which it treats as an opaque term until unfolded.

  function Mul(a: real, b: real): real { a * b }

  lemma MulLe(a: real, b: real, c: real)
    requires 0.0 <= a && b <= c
    ensures Mul(a, b) <= Mul(a, c)
  {
  }

  lemma MulLt(a: real, b: real, c: real)
    requires 0.0 < a && b < c
    ensures Mul(a, b) < Mul(a, c)
  {
  }

  lemma MulComm(a: real, b: real)
    ensures Mul(a, b) == Mul(b, a)
  {
  }

  lemma MulNonneg(a: real, b: real)
    requires 0.0 <= a && 0.0 <= b
    ensures 0.0 <= Mul(a, b)
  {
  }

  lemma MulPos(a: real, b: real)
    requires 0.0 < a && 0.0 < b
    ensures 0.0 < Mul(a, b)
  {
  }

  lemma SquareStrict(a: real, b: real)
    requires 0.0 <= a < b
    ensures a * a < b * b
  {
    MulLe(a, a, b);
    MulLt(b, a, b);
    MulComm(a, b);
  }

  lemma Square(a: real)
    ensures 0.0 <= Mul(a, a)
    ensures a != 0.0 ==> 0.0 < Mul(a, a)
  {
    if a < 0.0 {
      MulPos(-a, -a);
      assert Mul(-a, -a) == Mul(a, a);
    } else if 0.0 < a {
      MulPos(a, a);
    }
  }

  lemma SumNonneg(p: real, q: real, r: real)
    requires 0.0 <= p && 0.0 <= q && 0.0 <= r
    ensures 0.0 <= p + q + r
    ensures 0.0 < p || 0.0 < q || 0.0 < r ==> 0.0 < p + q + r
  {
  }

  lemma MulSign(q: real, b: real)
    requires 0.0 < b
    ensures q < 0.0 ==> q * b < 0.0
  {
  }

  lemma DivNonneg(a: real, b: real)
    requires 0.0 <= a && 0.0 < b
    ensures 0.0 <= a / b
  {
    var q := a / b;
    assert q * b == a;
    MulSign(q, b);
  }

  lemma PositiveRatio(a: real, b: real)
    requires 0.0 < a && 0.0 < b
    ensures 0.0 < a / b
  {
    var q := a / b;
    assert q * b == a;
    MulSign(q, b);
  }

  /** A pair of doubles: egl.math.Vector2d as a value (seeds, face coordinates). */
  datatype Vec2 = Vec2(x: real, y: real)

  /** egl.math.Vector3d as a value. */
  datatype Vec3 = Vec3(x: real, y: real, z: real)

  const Zero := Vec3(0.0, 0.0, 0.0)

  function Add(a: Vec3, b: Vec3): Vec3 { Vec3(a.x + b.x, a.y + b.y, a.z + b.z) }
  function Sub(a: Vec3, b: Vec3): Vec3 { Vec3(a.x - b.x, a.y - b.y, a.z - b.z) }
  function Scale(a: Vec3, s: real): Vec3 { Vec3(s * a.x, s * a.y, s * a.z) }
  function Neg(a: Vec3): Vec3 { Vec3(-a.x, -a.y, -a.z) }
  function Dot(a: Vec3, b: Vec3): real { Mul(a.x, b.x) + Mul(a.y, b.y) + Mul(a.z, b.z) }
  function Cross(a: Vec3, b: Vec3): Vec3 {
    Vec3(Mul(a.y, b.z) - Mul(a.z, b.y), Mul(a.z, b.x) - Mul(a.x, b.z), Mul(a.x, b.y) - Mul(a.y, b.x))
  }

  /** Vector3d.lenSq(). */
  function LenSq(a: Vec3): (r: real)
    ensures 0.0 <= r
    ensures a != Zero <==> 0.0 < r
  {
    DotSelf(a);
    Dot(a, a)
  }

  lemma DotSelf(a: Vec3)
    ensures 0.0 <= Dot(a, a)
    ensures a != Zero <==> 0.0 < Dot(a, a)
  {
    Square(a.x);
    Square(a.y);
    Square(a.z);
    SumNonneg(Mul(a.x, a.x), Mul(a.y, a.y), Mul(a.z, a.z));
    assert a.x == 0.0 && a.y == 0.0 && a.z == 0.0 ==> a == Zero;
  }

  /** Vector3d.len(). */
  function Len(lib: Lib, a: Vec3): (r: real)
    requires Lawful(lib)
    ensures 0.0 <= r && Mul(r, r) == LenSq(a)
    ensures a != Zero <==> 0.0 < r
  {
    var l := LenSq(a);
    SqrtPositive(lib, l);
    if a == Zero then SqrtZero(lib); lib.sqrt(l) else lib.sqrt(l)
  }

  /** The factor Vector3d.normalize() multiplies by: 1/len, or 1 for the zero
      vector, which normalize() leaves unchanged. */
  function NormScale(lib: Lib, a: Vec3): (c: real)
    requires Lawful(lib)
    ensures 0.0 < c
    ensures a != Zero ==> Mul(Mul(c, c), LenSq(a)) == 1.0
  {
    if a == Zero then 1.0
    else
      var l := Len(lib, a);
      Recip(l);
      1.0 / l
  }

  lemma Recip(l: real)
    requires 0.0 < l
    ensures 0.0 < 1.0 / l
    ensures Mul(Mul(1.0 / l, 1.0 / l), Mul(l, l)) == 1.0
  {
  }

  lemma Inverse(s: real)
    requires 0.0 < s
    ensures 0.0 < 1.0 / s && Mul(1.0 / s, s) == 1.0
  {
  }

  /** Vector3d.normalize() as a value. */
  function Normalize(lib: Lib, a: Vec3): (r: Vec3)
    requires Lawful(lib)
    ensures a != Zero ==> LenSq(r) == 1.0
    ensures a == Zero ==> r == Zero
  {
    var c := NormScale(lib, a);
    DotScale(a, a, c, c);
    Scale(a, c)
  }

  lemma MulScale(a: real, b: real, c: real, d: real)
    ensures Mul(c * a, d * b) == Mul(Mul(c, d), Mul(a, b))
  {
  }

  lemma DotScale(a: Vec3, b: Vec3, c: real, d: real)
    ensures Dot(Scale(a, c), Scale(b, d)) == Mul(Mul(c, d), Dot(a, b))
  {
    MulScale(a.x, b.x, c, d);
    MulScale(a.y, b.y, c, d);
    MulScale(a.z, b.z, c, d);
  }

  /** Normalising keeps the direction: it multiplies by a positive factor. */
  lemma NormalizeIsPositiveScale(lib: Lib, a: Vec3)
    requires Lawful(lib)
    ensures Normalize(lib, a) == Scale(a, NormScale(lib, a)) && 0.0 < NormScale(lib, a)
  {
  }

  /** Normalising a unit vector changes nothing. */
  lemma NormalizeUnit(lib: Lib, a: Vec3)
    requires Lawful(lib) && LenSq(a) == 1.0
    ensures Normalize(lib, a) == a
  {
    SqrtOne(lib);
    assert Len(lib, a) == 1.0;
  }

  lemma NormalizeIdempotent(lib: Lib, a: Vec3)
    requires Lawful(lib)
    ensures Normalize(lib, Normalize(lib, a)) == Normalize(lib, a)
  {
    if a != Zero {
      NormalizeUnit(lib, Normalize(lib, a));
    }
  }

  /** Normalising a positive multiple of a vector gives the same unit vector. */
  lemma {:induction false} NormalizeScaleInvariant(lib: Lib, a: Vec3, c: real)
    requires Lawful(lib) && 0.0 < c
    ensures Normalize(lib, Scale(a, c)) == Normalize(lib, a)
  {
    if a != Zero {
      var l := Len(lib, a);
      var v := 1.0 / (c * l);
      var b := Scale(a, c);
      assert b != Zero by {
        ScaleNonzero(a, c);
      }
      assert Len(lib, b) == c * l by {
        LenScale(lib, a, c);
      }
      assert NormScale(lib, b) == 1.0 / Len(lib, b);
      assert NormScale(lib, a) == 1.0 / l;
      ScaleCancel(a, c, l);
    }
  }

  /** Scaling by c and then by 1 / (c l) is scaling by 1 / l. */
  lemma ScaleCancel(a: Vec3, c: real, l: real)
    requires 0.0 < c && 0.0 < l
    ensures Scale(Scale(a, c), 1.0 / (c * l)) == Scale(a, 1.0 / l)
  {
    CancelScale(c, l, a.x);
    CancelScale(c, l, a.y);
    CancelScale(c, l, a.z);
  }

  /** Scaling by a positive factor scales the length by that factor. */
  lemma {:induction false} LenScale(lib: Lib, a: Vec3, c: real)
    requires Lawful(lib) && 0.0 < c
    ensures Len(lib, Scale(a, c)) == c * Len(lib, a)
  {
    var l := Len(lib, a);
    var m := LenSq(Scale(a, c));
    assert m == Mul(Mul(c, c), LenSq(a)) by {
      DotScale(a, a, c, c);
    }
    assert Mul(c * l, c * l) == m by {
      MulScale(l, l, c, c);
    }
    MulNonneg(c, l);
    SqrtUnique(lib, m, c * l);
  }

  /** A positive multiple of a non-zero vector is non-zero. */
  lemma ScaleNonzero(a: Vec3, c: real)
    requires c != 0.0 && a != Zero
    ensures Scale(a, c) != Zero
  {
    if a.x != 0.0 {
      assert Scale(a, c).x != 0.0;
    } else if a.y != 0.0 {
      assert Scale(a, c).y != 0.0;
    } else {
      assert Scale(a, c).z != 0.0;
    }
  }

  lemma CancelScale(c: real, l: real, t: real)
    requires 0.0 < c && 0.0 < l
    ensures (1.0 / (c * l)) * (c * t) == (1.0 / l) * t
  {
    var v := 1.0 / (c * l);
    assert v * c == 1.0 / l;
    assert v * (c * t) == (v * c) * t;
  }

  /** The Cauchy-Schwarz inequality. */
  lemma CauchySchwarz(a: Vec3, b: Vec3)
    ensures Mul(Dot(a, b), Dot(a, b)) <= Mul(LenSq(a), LenSq(b))
  {
    CauchySchwarzDot(a, b);
  }

  lemma CauchySchwarzDot(a: Vec3, b: Vec3)
    ensures Mul(Dot(a, b), Dot(a, b)) <= Mul(Dot(a, a), Dot(b, b))
  {
    CauchySchwarzRaw(a.x, a.y, a.z, b.x, b.y, b.z, Dot(a, b), Dot(a, a), Dot(b, b));
  }


  // Polynomial facts are proved over plain reals, where the solver normalises
  // them, and then transported to vectors.
  lemma CauchySchwarzRaw(a1: real, a2: real, a3: real, b1: real, b2: real, b3: real, d: real, p: real, q: real)
    requires d == a1 * b1 + a2 * b2 + a3 * b3
    requires p == a1 * a1 + a2 * a2 + a3 * a3 && q == b1 * b1 + b2 * b2 + b3 * b3
    ensures d * d <= p * q
  {
    SquareRaw(a2 * b3 - a3 * b2);
    SquareRaw(a3 * b1 - a1 * b3);
    SquareRaw(a1 * b2 - a2 * b1);
  }


  lemma SquareRaw(x: real)
    ensures 0.0 <= x * x
  {
  }

  /** The cosine of two vectors of length at most one lies in [-1, 1]. */
  lemma {:induction false} UnitCosine(a: Vec3, b: Vec3)
    requires LenSq(a) <= 1.0 && LenSq(b) <= 1.0
    ensures Mul(Dot(a, b), Dot(a, b)) <= 1.0
  {
    CauchySchwarz(a, b);
    AtMostOne(LenSq(a), LenSq(b));
  }

  lemma AtMostOne(x: real, y: real)
    requires 0.0 <= x <= 1.0 && 0.0 <= y <= 1.0
    ensures Mul(x, y) <= 1.0
  {
    MulLe(x, y, 1.0);
  }

  /** Normalising keeps the sign of a dot product. */
  lemma {:induction false} NormalizeDotSign(lib: Lib, a: Vec3, b: Vec3)
    requires Lawful(lib)
    ensures Dot(a, b) != 0.0 <==> Dot(Normalize(lib, a), Normalize(lib, b)) != 0.0
    ensures Dot(a, b) > 0.0 <==> Dot(Normalize(lib, a), Normalize(lib, b)) > 0.0
  {
    var ca, cb := NormScale(lib, a), NormScale(lib, b);
    DotScale(a, b, ca, cb);
    MulPos(ca, cb);
    SignOfScaled(Mul(ca, cb), Dot(a, b));
  }

  lemma SignOfScaled(c: real, d: real)
    requires 0.0 < c
    ensures d != 0.0 <==> Mul(c, d) != 0.0
    ensures d > 0.0 <==> Mul(c, d) > 0.0
  {
  }

  /** Cross products are orthogonal to both factors. */
  lemma CrossOrthogonal(a: Vec3, b: Vec3)
    ensures Dot(Cross(a, b), a) == 0.0 && Dot(Cross(a, b), b) == 0.0
  {
  }

  predicate Unit(a: Vec3) {
    LenSq(a) == 1.0
  }

  /** Vector3d.distSq. */
  function DistSq(a: Vec3, b: Vec3): real {
    LenSq(Sub(a, b))
  }

  /** Distinct points are a positive squared distance apart, either way
      round. */
  lemma DistinctPoints(a: Vec3, b: Vec3)
    requires a != b
    ensures Sub(a, b) != Zero && Sub(b, a) != Zero
    ensures 0.0 < DistSq(a, b) && DistSq(a, b) == DistSq(b, a)
  {
    if a.x != b.x {
      assert Sub(a, b).x != 0.0 && Sub(b, a).x != 0.0;
    } else if a.y != b.y {
      assert Sub(a, b).y != 0.0 && Sub(b, a).y != 0.0;
    } else {
      assert a.z != b.z;
      assert Sub(a, b).z != 0.0 && Sub(b, a).z != 0.0;
    }
    assert Sub(b, a) == Neg(Sub(a, b));
  }

  lemma NegNonzero(a: Vec3)
    requires a != Zero
    ensures Neg(a) != Zero
  {
    assert Neg(Neg(a)) == a;
  }

  lemma DotComm(a: Vec3, b: Vec3)
    ensures Dot(a, b) == Dot(b, a)
  {
  }

  lemma DotAddLeft(a: Vec3, b: Vec3, c: Vec3)
    ensures Dot(Add(a, b), c) == Dot(a, c) + Dot(b, c)
  {
  }

  lemma DotScaleLeft(a: Vec3, s: real, c: Vec3)
    ensures Dot(Scale(a, s), c) == Mul(s, Dot(a, c))
  {
  }

  lemma DotNeg(a: Vec3, c: Vec3)
    ensures Dot(Neg(a), c) == -Dot(a, c)
  {
  }

  /** The squared length of a combination s a + t b, expanded. */
  lemma LenSqCombination(a: Vec3, b: Vec3, s: real, t: real)
    ensures LenSq(Add(Scale(a, s), Scale(b, t)))
         == Mul(Mul(s, s), LenSq(a)) + 2.0 * Mul(Mul(s, t), Dot(a, b)) + Mul(Mul(t, t), LenSq(b))
  {
    var c := Add(Scale(a, s), Scale(b, t));
    var ss, st, tt := Mul(s, s), Mul(s, t), Mul(t, t);
    CombinationRaw(a.x, b.x, s, t, c.x);
    CombinationRaw(a.y, b.y, s, t, c.y);
    CombinationRaw(a.z, b.z, s, t, c.z);
    Distribute3(ss, Mul(a.x, a.x), Mul(a.y, a.y), Mul(a.z, a.z));
    Distribute3(st, Mul(a.x, b.x), Mul(a.y, b.y), Mul(a.z, b.z));
    Distribute3(tt, Mul(b.x, b.x), Mul(b.y, b.y), Mul(b.z, b.z));
  }

  lemma CombinationRaw(a: real, b: real, s: real, t: real, c: real)
    requires c == s * a + t * b
    ensures Mul(c, c) == Mul(s, s) * Mul(a, a) + 2.0 * (Mul(s, t) * Mul(a, b)) + Mul(t, t) * Mul(b, b)
  {
  }

  lemma Distribute3(k: real, p: real, q: real, r: real)
    ensures Mul(k, p + q + r) == k * p + k * q + k * r
  {
  }

  /** The coefficients of a mirror image 2c a - b of unit vectors at cosine c. */
  lemma UnitReflectionRaw(c: real)
    ensures Mul(Mul(2.0 * c, 2.0 * c), 1.0) + 2.0 * Mul(Mul(2.0 * c, -1.0), c) + Mul(Mul(-1.0, -1.0), 1.0) == 1.0
    ensures Mul(2.0 * c, 1.0) + Mul(-1.0, c) == c
  {
  }

  /** Lagrange's identity: |a x b|^2 = |a|^2 |b|^2 - (a . b)^2. */
  lemma CrossLenSq(a: Vec3, b: Vec3)
    ensures LenSq(Cross(a, b)) == Mul(LenSq(a), LenSq(b)) - Mul(Dot(a, b), Dot(a, b))
  {
    LagrangeRaw(a.x, a.y, a.z, b.x, b.y, b.z);
  }

  lemma LagrangeRaw(a1: real, a2: real, a3: real, b1: real, b2: real, b3: real)
    ensures (a2 * b3 - a3 * b2) * (a2 * b3 - a3 * b2) + (a3 * b1 - a1 * b3) * (a3 * b1 - a1 * b3)
            + (a1 * b2 - a2 * b1) * (a1 * b2 - a2 * b1)
         == (a1 * a1 + a2 * a2 + a3 * a3) * (b1 * b1 + b2 * b2 + b3 * b3)
            - (a1 * b1 + a2 * b2 + a3 * b3) * (a1 * b1 + a2 * b2 + a3 * b3)
  {
  }

  /** The frame both basisFromW and RectangleLight.init build from a unit
      vector `w` and a helper vector `a`: u = normalize(a x w) and
      v = normalize(w x u).  Whenever a x w is not zero the three vectors are
      orthonormal, and v needs no rescaling. */
  lemma {:induction false} CrossFrame(lib: Lib, a: Vec3, w: Vec3)
    requires Lawful(lib) && Unit(w) && Cross(a, w) != Zero
    ensures var u := Normalize(lib, Cross(a, w));
            var v := Normalize(lib, Cross(w, u));
            Unit(u) && Unit(v) && Dot(u, w) == 0.0 && Dot(v, w) == 0.0 && Dot(v, u) == 0.0
            && v == Cross(w, u)
  {
    var u := Normalize(lib, Cross(a, w));
    var c := NormScale(lib, Cross(a, w));
    CrossOrthogonal(a, w);
    DotScaleLeft(Cross(a, w), c, w);
    assert Dot(u, w) == 0.0;
    DotComm(u, w);
    CrossLenSq(w, u);
    assert LenSq(Cross(w, u)) == 1.0;
    NormalizeUnit(lib, Cross(w, u));
    CrossOrthogonal(w, u);
  }

  /** egl.math.Colord as a value. */
  datatype Color = Color(r: real, g: real, b: real)

  const Black := Color(0.0, 0.0, 0.0)
  const White := Color(1.0, 1.0, 1.0)

  function Gray(s: real): Color { Color(s, s, s) }
  function CAdd(a: Color, b: Color): Color { Color(a.r + b.r, a.g + b.g, a.b + b.b) }
  function CScale(a: Color, s: real): Color { Color(s * a.r, s * a.g, s * a.b) }
  function CMul(a: Color, b: Color): Color { Color(a.r * b.r, a.g * b.g, a.b * b.b) }

  /** A mutable egl.math.Vector3d, for the places where the source changes a
      caller's vector in place. */
  class Vector3d {
    var v: Vec3

    constructor (v0: Vec3)
      ensures v == v0
    {
      v := v0;
    }
  }

  /** A mutable egl.math.Colord, the source's `outValue` / `outRadiance`. */
  class Colord {
    var c: Color

    constructor (c0: Color)
      ensures c == c0
    {
      c := c0;
    }
  }
}
