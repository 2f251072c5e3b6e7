/** MicrofacetDistribution: the microfacet reflection model shared by the
    Beckmann and GGX distributions (Fresnel term, eval, pdf and the
    half-vector sampler), dispatching D and G to the variant. */
module MicrofacetDistribution {
  import opened VecMath
  import opened Hemisphere
  import opened BsdfRecord
  import Beckmann
  import Ggx

  /** A distribution: its variant, its roughness alpha and its refractive
      index nt.  The setters setAlpha and setNt are SetAlpha and SetNt below,
      which return the updated value. */
  datatype Distribution = BeckmannDist(alpha: real, nt: real) | GGXDist(alpha: real, nt: real)

  /** setAlpha: the same variant and nt, with roughness t. */
  function SetAlpha(d: Distribution, t: real): (r: Distribution)
    ensures r.BeckmannDist? == d.BeckmannDist? && r.alpha == t && r.nt == d.nt
  {
    d.(alpha := t)
  }

  /** setNt: the same variant and roughness, with refractive index nt. */
  function SetNt(d: Distribution, nt: real): (r: Distribution)
    ensures r.BeckmannDist? == d.BeckmannDist? && r.alpha == d.alpha && r.nt == nt
  {
    d.(nt := nt)
  }

  /** new Beckmann() and new GGX(): alpha 0.1, nt 1.5. */
  const DefaultBeckmann := BeckmannDist(0.1, 1.5)
  const DefaultGGX := GGXDist(0.1, 1.5)

  /** The Beckmann shadowing term needs a positive roughness. */
  predicate Admissible(d: Distribution) {
    d.BeckmannDist? ==> 0.0 < d.alpha
  }

  /** chi_plus: the indicator of a positive argument. */
  function ChiPlus(a: real): (r: real)
    ensures r == 1.0 <==> a > 0.0
    ensures r == 0.0 <==> a <= 0.0
  {
    if a > 0.0 then 1.0 else 0.0
  }

  /** SIGN: the sign of its argument as -1, 0 or 1. */
  function Sign(a: real): (r: real)
    ensures r == 1.0 <==> a > 0.0
    ensures r == 0.0 <==> a == 0.0
    ensures r == -1.0 <==> a < 0.0
  {
    if a > 0.0 then 1.0 else if a == 0.0 then 0.0 else -1.0
  }

  /** A number is its sign times its magnitude, and chi_plus is the positive
      part of the sign. */
  lemma SignMagnitude(a: real)
    ensures Sign(a) * Abs(a) == a
    ensures ChiPlus(a) == Max(0.0, Sign(a))
  {
  }

  /** D of the variant. */
  predicate DDefined(d: Distribution, h: Vec3, n: Vec3) {
    match d
    case BeckmannDist(alpha, _) => alpha != 0.0
    case GGXDist(alpha, _) => Ggx.DDefined(alpha, h, n)
  }

  function D(lib: Lib, d: Distribution, h: Vec3, n: Vec3): (r: real)
    requires DDefined(d, h, n)
    ensures Dot(h, n) <= 0.0 ==> r == 0.0
    ensures ExpLawful(lib) && 0.0 < d.alpha && 0.0 < Dot(h, n) ==> 0.0 < r
    ensures ExpLawful(lib) ==> 0.0 <= r
  {
    match d
    case BeckmannDist(alpha, _) => Beckmann.D(lib, alpha, h, n)
    case GGXDist(alpha, _) => Ggx.D(alpha, h, n)
  }

  /** G of the variant. */
  function G(lib: Lib, d: Distribution, v: Vec3, m: Vec3, n: Vec3): (g: real)
    requires Lawful(lib) && Admissible(d) && Dot(v, n) != 0.0
    ensures Dot(v, m) / Dot(v, n) <= 0.0 ==> g == 0.0
    ensures 0.0 <= g
  {
    match d
    case BeckmannDist(alpha, _) => Beckmann.G(lib, alpha, v, m, n)
    case GGXDist(alpha, _) => Ggx.G(lib, alpha, v, m, n)
  }

  lemma {:induction false} GNormalInvariant(lib: Lib, d: Distribution, v: Vec3, m: Vec3, n: Vec3)
    requires Lawful(lib) && Admissible(d) && Dot(v, n) != 0.0
    ensures Dot(v, Normalize(lib, n)) != 0.0
    ensures G(lib, d, v, m, Normalize(lib, n)) == G(lib, d, v, m, n)
  {
    match d
    case BeckmannDist(alpha, _) => Beckmann.GNormalInvariant(lib, alpha, v, m, n);
    case GGXDist(alpha, _) => Ggx.GNormalInvariant(lib, alpha, v, m, n);
  }

  /** The G call, normalising v and n in place when its sign test passes. */
  method GInPlace(lib: Lib, d: Distribution, v: Vector3d, m: Vec3, n: Vector3d) returns (r: real)
    requires Lawful(lib) && Admissible(d) && Dot(v.v, n.v) != 0.0 && v != n
    modifies v, n
    ensures r == G(lib, d, old(v.v), m, old(n.v))
    ensures Dot(old(v.v), m) / Dot(old(v.v), old(n.v)) > 0.0
            ==> v.v == Normalize(lib, old(v.v)) && n.v == Normalize(lib, old(n.v))
    ensures Dot(old(v.v), m) / Dot(old(v.v), old(n.v)) <= 0.0 ==> v.v == old(v.v) && n.v == old(n.v)
  {
    match d
    case BeckmannDist(alpha, _) =>
      r := Beckmann.GInPlace(lib, alpha, v, m, n);
    case GGXDist(alpha, _) =>
      r := Ggx.GInPlace(lib, alpha, v, m, n);
  }

  /** sample_helper of the variant. */
  function SampleHelper(lib: Lib, d: Distribution, seed: Vec2): (h: Vec3)
    requires Lawful(lib) && LogLawful(lib) && 0.0 <= seed.x < 1.0
    ensures 0.0 < h.z <= 1.0
    ensures TrigLawful(lib) ==> Unit(h)
  {
    match d
    case BeckmannDist(alpha, _) => Beckmann.SampleHelper(lib, alpha, seed)
    case GGXDist(alpha, _) => Ggx.SampleHelper(lib, alpha, seed)
  }

  // ---------------------------------------------------------------- Fresnel

  /** The squared g of fresnel, (nt / ni)^2 - 1 + c^2 with ni = 1. */
  function GSq(nt: real, c: real): real {
    Mul(nt, nt) - 1.0 + Mul(c, c)
  }

  /** What fresnel needs so that it never divides by zero. */
  predicate FresnelDefined(lib: Lib, nt: real, i: Vec3, h: Vec3) {
    var c := Abs(Dot(i, h));
    GSq(nt, c) > 0.0 ==> Mul(c, lib.sqrt(GSq(nt, c)) - c) + 1.0 != 0.0
  }

  /** MicrofacetDistribution.fresnel: the Fresnel reflectance of a dielectric
      of index nt, in the form of Walter et al.: 1 when g^2 <= 0, otherwise
      (1/2) (g - c)^2 / (g + c)^2 (1 + ((c (g + c) - 1) / (c (g - c) + 1))^2)
      with c = |i . h|. */
  function Fresnel(lib: Lib, nt: real, i: Vec3, h: Vec3): (f: real)
    requires Lawful(lib) && FresnelDefined(lib, nt, i, h)
    ensures GSq(nt, Abs(Dot(i, h))) <= 0.0 ==> f == 1.0
    ensures 0.0 <= f
  {
    var c := Abs(Dot(i, h));
    var gsq := GSq(nt, c);
    if gsq > 0.0 then
      var g := lib.sqrt(gsq);
      SqrtPositive(lib, gsq);
      var q := (Mul(c, g + c) - 1.0) / (Mul(c, g - c) + 1.0);
      FresnelFactors(g, c, q);
      Mul(0.5 * Mul(g - c, g - c) / Mul(g + c, g + c), 1.0 + Mul(q, q))
    else 1.0
  }

  lemma FresnelFactors(g: real, c: real, q: real)
    requires 0.0 < g && 0.0 <= c
    ensures 0.0 < Mul(g + c, g + c)
    ensures 0.0 <= Mul(0.5 * Mul(g - c, g - c) / Mul(g + c, g + c), 1.0 + Mul(q, q))
  {
    Square(g - c);
    Square(g + c);
    Square(q);
    DivNonneg(0.5 * Mul(g - c, g - c), Mul(g + c, g + c));
    MulNonneg(0.5 * Mul(g - c, g - c) / Mul(g + c, g + c), 1.0 + Mul(q, q));
  }

  /** For |i . h| <= 1 (unit vectors) fresnel never divides by zero. */
  lemma {:induction false} FresnelDefinedForUnit(lib: Lib, nt: real, i: Vec3, h: Vec3)
    requires Lawful(lib) && Mul(Dot(i, h), Dot(i, h)) <= 1.0
    ensures FresnelDefined(lib, nt, i, h)
  {
    var c := Abs(Dot(i, h));
    var gsq := GSq(nt, c);
    assert Mul(c, c) == Mul(Dot(i, h), Dot(i, h));
    if gsq > 0.0 {
      var g := lib.sqrt(gsq);
      SqrtPositive(lib, gsq);
      DenominatorPositive(c, g);
    }
  }

  lemma DenominatorPositive(c: real, g: real)
    requires 0.0 <= c && Mul(c, c) <= 1.0 && 0.0 < g
    ensures 0.0 < Mul(c, g - c) + 1.0
  {
    assert Mul(c, g - c) + 1.0 == Mul(c, g) + (1.0 - Mul(c, c));
    if c == 0.0 {
    } else {
      MulPos(c, g);
    }
  }

  /** On an index-matched interface (nt = 1) nothing is reflected. */
  lemma {:induction false} FresnelIndexMatched(lib: Lib, i: Vec3, h: Vec3)
    requires Lawful(lib) && Dot(i, h) != 0.0
    ensures FresnelDefined(lib, 1.0, i, h)
    ensures Fresnel(lib, 1.0, i, h) == 0.0
  {
    var c := Abs(Dot(i, h));
    assert GSq(1.0, c) == Mul(c, c);
    Square(c);
    SqrtUnique(lib, Mul(c, c), c);
    MulPos(c, c);
    assert Mul(c, c - c) + 1.0 == 1.0;
    assert Mul(c - c, c - c) == 0.0;
  }

  /** At normal incidence (|i . h| = 1) the reflectance is Schlick's
      ((nt - 1) / (nt + 1))^2. */
  lemma {:induction false} FresnelNormalIncidence(lib: Lib, nt: real, i: Vec3, h: Vec3)
    requires Lawful(lib) && 0.0 < nt && Abs(Dot(i, h)) == 1.0
    ensures FresnelDefined(lib, nt, i, h)
    ensures Fresnel(lib, nt, i, h) == Mul((nt - 1.0) / (nt + 1.0), (nt - 1.0) / (nt + 1.0))
  {
    assert GSq(nt, 1.0) == Mul(nt, nt);
    MulPos(nt, nt);
    SqrtUnique(lib, Mul(nt, nt), nt);
    assert Mul(1.0, nt - 1.0) + 1.0 == nt;
    assert Mul(1.0, nt + 1.0) - 1.0 == nt;
    var r := (nt - 1.0) / (nt + 1.0);
    assert 0.5 * Mul(nt - 1.0, nt - 1.0) / Mul(nt + 1.0, nt + 1.0) == 0.5 * Mul(r, r) by {
      SquareRatio(nt - 1.0, nt + 1.0);
    }
  }

  lemma SquareRatio(a: real, b: real)
    requires b != 0.0
    ensures Mul(b, b) != 0.0
    ensures Mul(a, a) / Mul(b, b) == Mul(a / b, a / b)
  {
    Square(b);
    var r := a / b;
    assert a == r * b;
    assert Mul(a, a) == Mul(r, r) * Mul(b, b);
  }

  // ------------------------------------------------------- eval and pdf

  /** The half-vector of eval and pdf: the normalised sum of the two
      directions. */
  function HalfVector(lib: Lib, i: Vec3, o: Vec3): Vec3
    requires Lawful(lib)
  {
    Normalize(lib, Add(i, o))
  }

  /** What eval needs so that it never divides by zero. */
  predicate EvalDefined(lib: Lib, d: Distribution, i: Vec3, o: Vec3, n: Vec3)
    requires Lawful(lib)
  {
    Admissible(d)
    && (0.0 < Dot(i, n) && 0.0 < Dot(o, n) ==>
          FresnelDefined(lib, d.nt, i, HalfVector(lib, i, o)) && DDefined(d, HalfVector(lib, i, o), n))
  }

  /** MicrofacetDistribution.eval as a value: with both directions above the
      surface, F D G_i G_o / (4 |i . n| |o . n|) at the half-vector; zero
      otherwise. */
  function EvalValue(lib: Lib, d: Distribution, i: Vec3, o: Vec3, n: Vec3): (r: real)
    requires Lawful(lib) && EvalDefined(lib, d, i, o, n)
    ensures Dot(i, n) <= 0.0 || Dot(o, n) <= 0.0 ==> r == 0.0
  {
    var ln, vn := Dot(i, n), Dot(o, n);
    if ln > 0.0 && vn > 0.0 then
      var h := HalfVector(lib, i, o);
      var f := Fresnel(lib, d.nt, i, h);
      var dv := D(lib, d, h, n);
      var g := Mul(G(lib, d, i, h, n), G(lib, d, o, h, n));
      CosineProduct(ln, vn);
      Mul(Mul(f, dv), g) / Mul(Mul(4.0, Abs(ln)), Abs(vn))
    else 0.0
  }

  lemma CosineProduct(ln: real, vn: real)
    requires 0.0 < ln && 0.0 < vn
    ensures 0.0 < Mul(Mul(4.0, Abs(ln)), Abs(vn))
  {
    MulPos(4.0, ln);
    MulPos(Mul(4.0, ln), vn);
  }

  /** With a law-abiding exp the value is never negative. */
  lemma {:induction false} EvalNonneg(lib: Lib, d: Distribution, i: Vec3, o: Vec3, n: Vec3)
    requires Lawful(lib) && ExpLawful(lib) && EvalDefined(lib, d, i, o, n)
    ensures 0.0 <= EvalValue(lib, d, i, o, n)
  {
    var ln, vn := Dot(i, n), Dot(o, n);
    if ln > 0.0 && vn > 0.0 {
      var h := HalfVector(lib, i, o);
      var f := Fresnel(lib, d.nt, i, h);
      var dv := D(lib, d, h, n);
      var g := Mul(G(lib, d, i, h, n), G(lib, d, o, h, n));
      MulNonneg(G(lib, d, i, h, n), G(lib, d, o, h, n));
      MulNonneg(f, dv);
      MulNonneg(Mul(f, dv), g);
      CosineProduct(ln, vn);
      DivNonneg(Mul(Mul(f, dv), g), Mul(Mul(4.0, Abs(ln)), Abs(vn)));
    }
  }

  /** The reflection model is reciprocal for directions of equal length:
      swapping them gives the same value. */
  lemma {:induction false} EvalReciprocal(lib: Lib, d: Distribution, i: Vec3, o: Vec3, n: Vec3)
    requires Lawful(lib) && LenSq(i) == LenSq(o)
    requires EvalDefined(lib, d, i, o, n) && EvalDefined(lib, d, o, i, n)
    ensures EvalValue(lib, d, i, o, n) == EvalValue(lib, d, o, i, n)
  {
    var ln, vn := Dot(i, n), Dot(o, n);
    if ln > 0.0 && vn > 0.0 {
      assert Add(i, o) == Add(o, i);
      var h := HalfVector(lib, i, o);
      EqualCosines(lib, i, o);
      FresnelOfCosine(lib, d.nt, i, o, h);
      MulComm(G(lib, d, i, h, n), G(lib, d, o, h, n));
      SwapCosines(Abs(ln), Abs(vn));
    }
  }

  lemma SwapCosines(a: real, b: real)
    ensures Mul(Mul(4.0, a), b) == Mul(Mul(4.0, b), a)
  {
  }

  /** fresnel depends on the direction only through its cosine with h. */
  lemma FresnelOfCosine(lib: Lib, nt: real, i: Vec3, o: Vec3, h: Vec3)
    requires Lawful(lib) && Dot(i, h) == Dot(o, h) && FresnelDefined(lib, nt, i, h)
    ensures FresnelDefined(lib, nt, o, h) && Fresnel(lib, nt, i, h) == Fresnel(lib, nt, o, h)
  {
  }

  /** Two directions of equal length make the same angle with their
      half-vector. */
  lemma {:induction false} EqualCosines(lib: Lib, i: Vec3, o: Vec3)
    requires Lawful(lib) && LenSq(i) == LenSq(o)
    ensures Dot(i, HalfVector(lib, i, o)) == Dot(o, HalfVector(lib, i, o))
  {
    var s := Add(i, o);
    var k := NormScale(lib, s);
    DotComm(i, Scale(s, k));
    DotComm(o, Scale(s, k));
    DotScaleLeft(s, k, i);
    DotScaleLeft(s, k, o);
    DotAddLeft(i, o, i);
    DotAddLeft(i, o, o);
    DotComm(i, o);
  }

  /** What pdf needs so that it never divides by zero. */
  predicate PdfDefined(lib: Lib, d: Distribution, i: Vec3, o: Vec3, n: Vec3)
    requires Lawful(lib)
  {
    0.0 < Dot(i, n) && 0.0 < Dot(o, n) ==> DDefined(d, HalfVector(lib, i, o), n)
  }

  /** MicrofacetDistribution.pdf: the density of the half-vector sampler,
      D(h) |h . n| / (4 |i . h|), gated by chi_plus of both cosine ratios; zero
      when either direction is not above the surface or i . h is zero. */
  function Pdf(lib: Lib, d: Distribution, i: Vec3, o: Vec3, n: Vec3): (p: real)
    requires Lawful(lib) && PdfDefined(lib, d, i, o, n)
    ensures Dot(i, n) <= 0.0 || Dot(o, n) <= 0.0 ==> p == 0.0
    ensures Dot(i, HalfVector(lib, i, o)) == 0.0 ==> p == 0.0
  {
    var ln, vn := Dot(i, n), Dot(o, n);
    if ln <= 0.0 || vn <= 0.0 then 0.0
    else
      var h := HalfVector(lib, i, o);
      var dv := D(lib, d, h, n);
      var lh, vh := Dot(i, h), Dot(o, h);
      if lh == 0.0 then 0.0
      else
        MulPos(4.0, Abs(lh));
        var jacobian := 1.0 / Mul(4.0, Abs(lh));
        Mul(Mul(Mul(Mul(ChiPlus(vh / vn), ChiPlus(lh / ln)), dv), Abs(Dot(h, n))), jacobian)
  }

  /** With a law-abiding exp the density is never negative. */
  lemma {:induction false} PdfNonneg(lib: Lib, d: Distribution, i: Vec3, o: Vec3, n: Vec3)
    requires Lawful(lib) && ExpLawful(lib) && PdfDefined(lib, d, i, o, n)
    ensures 0.0 <= Pdf(lib, d, i, o, n)
  {
    var ln, vn := Dot(i, n), Dot(o, n);
    if 0.0 < ln && 0.0 < vn {
      var h := HalfVector(lib, i, o);
      var lh, vh := Dot(i, h), Dot(o, h);
      if lh != 0.0 {
        var dv := D(lib, d, h, n);
        MulPos(4.0, Abs(lh));
        var c := Mul(ChiPlus(vh / vn), ChiPlus(lh / ln));
        MulNonneg(ChiPlus(vh / vn), ChiPlus(lh / ln));
        MulNonneg(c, dv);
        MulNonneg(Mul(c, dv), Abs(Dot(h, n)));
        MulNonneg(Mul(Mul(c, dv), Abs(Dot(h, n))), 1.0 / Mul(4.0, Abs(lh)));
      }
    }
  }

  /** Where eval is defined, so is pdf. */
  lemma EvalDefinedPdfDefined(lib: Lib, d: Distribution, i: Vec3, o: Vec3, n: Vec3)
    requires Lawful(lib) && EvalDefined(lib, d, i, o, n)
    ensures PdfDefined(lib, d, i, o, n)
  {
  }

  /** For directions of equal length that both see the half-vector from its
      front, the chi_plus gates are one and pdf is the half-vector density
      D(h) |h . n| / (4 i . h) of Walter et al. */
  lemma {:induction false} PdfOfHalfVector(lib: Lib, d: Distribution, i: Vec3, o: Vec3, n: Vec3)
    requires Lawful(lib) && LenSq(i) == LenSq(o) && PdfDefined(lib, d, i, o, n)
    requires 0.0 < Dot(i, n) && 0.0 < Dot(o, n) && 0.0 < Dot(i, HalfVector(lib, i, o))
    ensures var h := HalfVector(lib, i, o);
            Pdf(lib, d, i, o, n) == Mul(D(lib, d, h, n), Abs(Dot(h, n))) / Mul(4.0, Dot(i, h))
  {
    var h := HalfVector(lib, i, o);
    var lh, vh := Dot(i, h), Dot(o, h);
    assert vh == lh by {
      EqualCosines(lib, i, o);
    }
    assert ChiPlus(lh / Dot(i, n)) == 1.0 by {
      PositiveRatio(lh, Dot(i, n));
    }
    assert ChiPlus(vh / Dot(o, n)) == 1.0 by {
      PositiveRatio(lh, Dot(o, n));
    }
    var dv := D(lib, d, h, n);
    assert Pdf(lib, d, i, o, n) == Mul(Mul(Mul(Mul(1.0, 1.0), dv), Abs(Dot(h, n))), 1.0 / Mul(4.0, lh));
    GatedDensity(dv, Abs(Dot(h, n)), lh);
  }

  lemma GatedDensity(dv: real, c: real, lh: real)
    requires 0.0 < lh
    ensures Mul(Mul(Mul(Mul(1.0, 1.0), dv), c), 1.0 / Mul(4.0, lh)) == Mul(dv, c) / Mul(4.0, lh)
  {
  }

  // ------------------------------------------------ eval with its effects

  /** The vectors after eval: each G call whose sign test passes normalises
      its direction and the normal, so i is normalised when i . h / i . n > 0,
      o when o . h / o . n > 0, and n when either is.  Normalising never
      changes the sign of a cosine. */
  function EvalEffect(lib: Lib, i: Vec3, o: Vec3, n: Vec3): (r: (Vec3, Vec3, Vec3))
    requires Lawful(lib)
    ensures 0.0 < Dot(r.0, r.2) <==> 0.0 < Dot(i, n)
    ensures 0.0 < Dot(r.1, r.2) <==> 0.0 < Dot(o, n)
  {
    if Dot(i, n) > 0.0 && Dot(o, n) > 0.0 then
      var h := HalfVector(lib, i, o);
      var ti := Dot(i, h) / Dot(i, n) > 0.0;
      var to := Dot(o, h) / Dot(o, n) > 0.0;
      MaybeNormalisedSign(lib, i, n, ti, ti || to);
      MaybeNormalisedSign(lib, o, n, to, ti || to);
      (if ti then Normalize(lib, i) else i, if to then Normalize(lib, o) else o,
       if ti || to then Normalize(lib, n) else n)
    else (i, o, n)
  }

  lemma {:induction false} MaybeNormalisedSign(lib: Lib, a: Vec3, b: Vec3, p: bool, q: bool)
    requires Lawful(lib)
    ensures 0.0 < Dot(if p then Normalize(lib, a) else a, if q then Normalize(lib, b) else b)
            <==> 0.0 < Dot(a, b)
  {
    var ka := if p then NormScale(lib, a) else 1.0;
    var kb := if q then NormScale(lib, b) else 1.0;
    assert (if p then Normalize(lib, a) else a) == Scale(a, ka);
    assert (if q then Normalize(lib, b) else b) == Scale(b, kb);
    DotScale(a, b, ka, kb);
    MulPos(ka, kb);
    SignOfScaled(Mul(ka, kb), Dot(a, b));
  }

  /** eval leaves an already normalised o as it is. */
  lemma {:induction false} EvalEffectKeepsNormalised(lib: Lib, i: Vec3, x: Vec3, n: Vec3)
    requires Lawful(lib)
    ensures EvalEffect(lib, i, Normalize(lib, x), n).1 == Normalize(lib, x)
  {
    NormalizeIdempotent(lib, x);
  }

  /** MicrofacetDistribution.eval on the caller's vectors: it returns
      EvalValue of their values on entry and leaves them as EvalEffect says. */
  method Eval(lib: Lib, d: Distribution, i: Vector3d, o: Vector3d, n: Vector3d) returns (r: real)
    requires Lawful(lib) && i != o && i != n && o != n && EvalDefined(lib, d, i.v, o.v, n.v)
    modifies i, o, n
    ensures r == EvalValue(lib, d, old(i.v), old(o.v), old(n.v))
    ensures (i.v, o.v, n.v) == EvalEffect(lib, old(i.v), old(o.v), old(n.v))
  {
    r := 0.0;
    var ln := Dot(i.v, n.v);
    var vn := Dot(o.v, n.v);
    if ln > 0.0 && vn > 0.0 {
      var h := Normalize(lib, Add(i.v, o.v));
      var f := Fresnel(lib, d.nt, i.v, h);
      var dv := D(lib, d, h, n.v);
      ghost var n0 := n.v;
      NormalisedNormal(lib, o.v, h, n0);
      GNormalInvariant(lib, d, o.v, h, n0);
      var gi := GInPlace(lib, d, i, h, n);
      var go := GInPlace(lib, d, o, h, n);
      CosineProduct(ln, vn);
      r := Mul(Mul(f, dv), Mul(gi, go)) / Mul(Mul(4.0, Abs(ln)), Abs(vn));
    }
  }

  // ------------------------------------------------------------- sampling

  /** The world half-vector sample draws: sample_helper's local direction
      carried into the frame basisFromW builds about the normal.  It is on
      the normal's side. */
  function SampledHalfVector(lib: Lib, d: Distribution, seed: Vec2, n: Vec3): (h: Vec3)
    requires Lawful(lib) && LogLawful(lib) && 0.0 <= seed.x < 1.0
    ensures n != Zero ==> 0.0 < Dot(h, n)
  {
    var l := SampleHelper(lib, d, seed);
    var (u, v) := BasisFromW(lib, n);
    ToWorldCosine(n, u, v, l);
    if n != Zero then
      MulPos(l.z, LenSq(n));
      ToWorld(n, u, v, l)
    else ToWorld(n, u, v, l)
  }

  /** The reflection of i about h, normalised: 2 (h . i) h - i. */
  function Reflect(lib: Lib, h: Vec3, i: Vec3): Vec3
    requires Lawful(lib)
  {
    Normalize(lib, Add(Scale(Scale(h, Dot(h, i)), 2.0), Scale(i, -1.0)))
  }

  /** The direction sample writes into dir2. */
  function SampledDirection(lib: Lib, d: Distribution, seed: Vec2, i: Vec3, n: Vec3): Vec3
    requires Lawful(lib) && LogLawful(lib) && 0.0 <= seed.x < 1.0
  {
    Reflect(lib, SampledHalfVector(lib, d, seed, n), i)
  }

  /** Reflecting a unit vector about a unit vector gives a unit vector. */
  lemma {:induction false} ReflectUnit(lib: Lib, h: Vec3, i: Vec3)
    requires Lawful(lib) && Unit(h) && Unit(i)
    ensures Unit(Reflect(lib, h, i))
    ensures Reflect(lib, h, i) == Add(Scale(Scale(h, Dot(h, i)), 2.0), Scale(i, -1.0))
  {
    var l := Dot(h, i);
    var s := Add(Scale(Scale(h, l), 2.0), Scale(i, -1.0));
    assert s == Add(Scale(h, 2.0 * l), Scale(i, -1.0));
    LenSqCombination(h, i, 2.0 * l, -1.0);
    UnitReflectionRaw(l);
    NormalizeUnit(lib, s);
  }

  /** The sampled direction is the mirror image of i about the half-vector:
      when i sees h from its front, the half-vector of i and the reflected
      direction is h again, so pdf and eval are evaluated at the half-vector
      that was drawn. */
  lemma {:induction false} ReflectionHalfVector(lib: Lib, h: Vec3, i: Vec3)
    requires Lawful(lib) && Unit(h) && Unit(i) && 0.0 < Dot(h, i)
    ensures HalfVector(lib, i, Reflect(lib, h, i)) == h
    ensures 0.0 < Dot(i, HalfVector(lib, i, Reflect(lib, h, i)))
  {
    ReflectUnit(lib, h, i);
    var l := Dot(h, i);
    MirrorSum(h, i, l);
    NormalizeScaleInvariant(lib, h, 2.0 * l);
    NormalizeUnit(lib, h);
    DotComm(h, i);
  }

  /** i plus its unnormalised mirror image about h is 2 (h . i) h. */
  lemma MirrorSum(h: Vec3, i: Vec3, l: real)
    ensures Add(i, Add(Scale(Scale(h, l), 2.0), Scale(i, -1.0))) == Scale(h, 2.0 * l)
  {
  }

  /** For unit vectors and a positive roughness, eval is always defined. */
  lemma {:induction false} EvalDefinedForUnit(lib: Lib, d: Distribution, i: Vec3, o: Vec3, n: Vec3)
    requires Lawful(lib) && Unit(i) && Unit(o) && Unit(n) && 0.0 < d.alpha
    ensures EvalDefined(lib, d, i, o, n)
  {
    if 0.0 < Dot(i, n) && 0.0 < Dot(o, n) {
      var s := Add(i, o);
      DotAddLeft(i, o, n);
      assert s != Zero by {
        DotAddLeft(i, o, n);
      }
      var h := HalfVector(lib, i, o);
      UnitCosine(i, h);
      FresnelDefinedForUnit(lib, d.nt, i, h);
      if d.GGXDist? {
        Ggx.DDefinedForUnit(d.alpha, h, n);
      }
    }
  }

  /** What sample needs: eval (and so pdf) defined at the direction it
      writes. */
  predicate SampleDefined(lib: Lib, d: Distribution, seed: Vec2, i: Vec3, n: Vec3)
    requires Lawful(lib) && LogLawful(lib) && 0.0 <= seed.x < 1.0
  {
    && EvalDefined(lib, d, i, SampledDirection(lib, d, seed, i, n), n)
    && PdfDefined(lib, d, i, SampledDirection(lib, d, seed, i, n), n)
  }

  /** For a unit direction and normal and a positive roughness, sample is
      always defined, and the direction it writes is a unit vector. */
  lemma {:induction false} SampleDefinedForUnit(lib: Lib, d: Distribution, seed: Vec2, i: Vec3, n: Vec3)
    requires Lawful(lib) && LogLawful(lib) && TrigLawful(lib) && 0.0 <= seed.x < 1.0
    requires Unit(i) && Unit(n) && 0.0 < d.alpha
    ensures Unit(SampledHalfVector(lib, d, seed, n))
    ensures Unit(SampledDirection(lib, d, seed, i, n))
    ensures SampleDefined(lib, d, seed, i, n)
  {
    var l := SampleHelper(lib, d, seed);
    BasisFromWOrthonormal(lib, n);
    var (u, v) := BasisFromW(lib, n);
    ToWorldUnit(n, u, v, l);
    var h := SampledHalfVector(lib, d, seed, n);
    ReflectUnit(lib, h, i);
    EvalDefinedForUnit(lib, d, i, SampledDirection(lib, d, seed, i, n), n);
    EvalDefinedPdfDefined(lib, d, i, SampledDirection(lib, d, seed, i, n), n);
  }

  /** The direction computation of sample, on values: the half-vector in
      world coordinates, then 2 (h . i) h - i, normalised. */
  method MirrorSample(lib: Lib, d: Distribution, seed: Vec2, i: Vec3, n: Vec3) returns (o: Vec3)
    requires Lawful(lib) && LogLawful(lib) && 0.0 <= seed.x < 1.0
    ensures o == SampledDirection(lib, d, seed, i, n)
    ensures EvalEffect(lib, i, o, n).1 == o
  {
    var local := SampleHelper(lib, d, seed);
    var (u, v) := BasisFromW(lib, n);
    var h := Scale(n, local.z);
    h := Add(h, Scale(u, local.x));
    h := Add(h, Scale(v, local.y));
    var lh := Dot(h, i);
    o := Add(Scale(Scale(h, lh), 2.0), Scale(i, -1.0));
    EvalEffectKeepsNormalised(lib, i, o, n);
    o := Normalize(lib, o);
  }

  /** MicrofacetDistribution.sample: draws a half-vector, writes the mirror
      direction of dir1 about it into dir2, and returns pdf of that direction
      with outValue set to eval's value; eval's normalisations of dir1 and
      normal stay behind in the record. */
  method Sample(lib: Lib, d: Distribution, rec: BSDFSamplingRecord, seed: Vec2, outValue: Colord)
    returns (prob: real)
    requires Lawful(lib) && LogLawful(lib) && rec.Valid() && 0.0 <= seed.x < 1.0
    requires SampleDefined(lib, d, seed, rec.dir1.v, rec.normal.v)
    modifies rec.dir1, rec.dir2, rec.normal, outValue
    ensures rec.dir2.v == SampledDirection(lib, d, seed, old(rec.dir1.v), old(rec.normal.v))
    ensures prob == Pdf(lib, d, old(rec.dir1.v), rec.dir2.v, old(rec.normal.v))
    ensures outValue.c == Gray(EvalValue(lib, d, old(rec.dir1.v), rec.dir2.v, old(rec.normal.v)))
    ensures rec.dir1.v == EvalEffect(lib, old(rec.dir1.v), rec.dir2.v, old(rec.normal.v)).0
    ensures rec.normal.v == EvalEffect(lib, old(rec.dir1.v), rec.dir2.v, old(rec.normal.v)).2
    ensures rec.dir2.v == EvalEffect(lib, old(rec.dir1.v), rec.dir2.v, old(rec.normal.v)).1
  {
    var o := MirrorSample(lib, d, seed, rec.dir1.v, rec.normal.v);
    prob := SampleAt(lib, d, rec, o, outValue);
  }

  /** The rest of sample once the direction o is drawn: it is written into
      dir2, and the density and value are pdf and eval at it. */
  method SampleAt(lib: Lib, d: Distribution, rec: BSDFSamplingRecord, o: Vec3, outValue: Colord)
    returns (prob: real)
    requires Lawful(lib) && rec.Valid()
    requires EvalDefined(lib, d, rec.dir1.v, o, rec.normal.v) && PdfDefined(lib, d, rec.dir1.v, o, rec.normal.v)
    requires EvalEffect(lib, rec.dir1.v, o, rec.normal.v).1 == o
    modifies rec.dir1, rec.dir2, rec.normal, outValue
    ensures rec.dir2.v == o
    ensures prob == Pdf(lib, d, old(rec.dir1.v), o, old(rec.normal.v))
    ensures outValue.c == Gray(EvalValue(lib, d, old(rec.dir1.v), o, old(rec.normal.v)))
    ensures (rec.dir1.v, rec.dir2.v, rec.normal.v) == EvalEffect(lib, old(rec.dir1.v), o, old(rec.normal.v))
  {
    var i := rec.dir1.v;
    var n := rec.normal.v;
    rec.dir2.v := o;
    prob := Pdf(lib, d, i, o, n);
    var e := Eval(lib, d, rec.dir1, rec.dir2, rec.normal);
    outValue.c := Gray(e);
  }

  /** The density sample reports is the density of the half-vector it drew:
      for a unit dir1 and normal, when dir1 sees the drawn h from its front
      and both directions are above the surface, the returned pdf is
      D(h) |h . n| / (4 dir1 . h) at exactly that h. */
  lemma {:induction false} SampleDensityAtDrawnHalfVector(lib: Lib, d: Distribution, seed: Vec2, i: Vec3, n: Vec3)
    requires Lawful(lib) && LogLawful(lib) && TrigLawful(lib) && 0.0 <= seed.x < 1.0
    requires Unit(i) && Unit(n) && 0.0 < d.alpha
    requires 0.0 < Dot(i, SampledHalfVector(lib, d, seed, n))
    requires 0.0 < Dot(i, n) && 0.0 < Dot(SampledDirection(lib, d, seed, i, n), n)
    ensures SampleDefined(lib, d, seed, i, n)
    ensures HalfVector(lib, i, SampledDirection(lib, d, seed, i, n)) == SampledHalfVector(lib, d, seed, n)
    ensures var h := SampledHalfVector(lib, d, seed, n);
            Pdf(lib, d, i, SampledDirection(lib, d, seed, i, n), n)
            == Mul(D(lib, d, h, n), Abs(Dot(h, n))) / Mul(4.0, Dot(i, h))
  {
    SampleDefinedForUnit(lib, d, seed, i, n);
    var h := SampledHalfVector(lib, d, seed, n);
    var o := SampledDirection(lib, d, seed, i, n);
    DotComm(i, h);
    ReflectionHalfVector(lib, h, i);
    PdfOfHalfVector(lib, d, i, o, n);
  }
}
