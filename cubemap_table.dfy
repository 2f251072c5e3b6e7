/** The importance-sampling table of Cubemap: every pixel gets a weight
    (calcPixelProb), the table holds the running sums of the weights divided
    by their total, and sample picks a pixel by searching the table for a
    random number. */
module CubemapTable {
  import opened VecMath
  import opened JavaNum
  import opened CubemapFaces

  /** INV_4PI, 1 / (4 pi). */
  const Inv4Pi: real := 1.0 / (4.0 * Pi)

  /** The image of a map: three floats (red, green, blue) per pixel. */
  predicate Image(l: Layout, data: seq<real>) {
    Valid(l) && |data| == 3 * Pixels(l)
  }

  /** Radiance is never negative. */
  predicate NonNeg(data: seq<real>) {
    forall i :: 0 <= i < |data| ==> 0.0 <= data[i]
  }

  /** The colour stored for pixel `k`. */
  function Radiance(l: Layout, data: seq<real>, k: int): (c: Color)
    requires Image(l, data) && 0 <= k < Pixels(l)
    ensures NonNeg(data) ==> 0.0 <= c.r && 0.0 <= c.g && 0.0 <= c.b
  {
    Color(data[3 * k], data[3 * k + 1], data[3 * k + 2])
  }

  /** `blockSz * blockSz / 4.0`: pixels per unit of (u, v) area on a face,
      whose side 2 holds blockSz pixels. */
  function PixelDensity(l: Layout): (a: real)
    requires Valid(l)
    ensures 0.0 < a
  {
    var bs := l.blockSz;
    assert 0 < bs * bs;
    (bs * bs) as real / 4.0
  }

  /** `Math.pow(1 + u*u + v*v, 1.5)`: the solid-angle Jacobian, how much a
      unit of face area is foreshortened at (u, v). */
  function SolidAngleFactor(lib: Lib, u: real, v: real): (r: real)
    requires Lawful(lib)
    ensures 0.0 < r
  {
    Square(u);
    Square(v);
    Pow15(lib, 1.0 + Mul(u, u) + Mul(v, v))
  }

  /** Cubemap.calcPixelProb: the weight of pixel `k`, its brightest channel
      over 4 pi, divided by the Jacobian at the pixel's centre and by the
      pixel density; zero for a pixel in an unused cell. */
  function PixelWeight(lib: Lib, l: Layout, data: seq<real>, k: int): (w: real)
    requires Lawful(lib) && Image(l, data) && 0 <= k < Pixels(l)
    ensures IndexToFace(l, k).face == -1 ==> w == 0.0
    ensures NonNeg(data) ==> 0.0 <= w
  {
    var p := IndexToFace(l, k);
    if p.face == -1 then 0.0
    else
      var c := Radiance(l, data, k);
      WeightOf(Max(Max(c.r, c.g), c.b), SolidAngleFactor(lib, p.u, p.v), PixelDensity(l))
  }

  function WeightOf(m: real, j: real, a: real): (w: real)
    requires 0.0 < j && 0.0 < a
    ensures 0.0 <= m ==> 0.0 <= w
  {
    var q := Inv4Pi * m;
    assert 0.0 <= m ==> 0.0 <= q;
    q / j / a
  }

  /** The weights of all pixels, in index order. */
  function Weights(lib: Lib, l: Layout, data: seq<real>): (ws: seq<real>)
    requires Lawful(lib) && Image(l, data)
    ensures |ws| == Pixels(l)
  {
    FirstWeights(lib, l, data, Pixels(l))
  }

  /** The weights of pixels 0 .. n-1. */
  function FirstWeights(lib: Lib, l: Layout, data: seq<real>, n: int): (ws: seq<real>)
    requires Lawful(lib) && Image(l, data) && 0 <= n <= Pixels(l)
    ensures |ws| == n
  {
    if n == 0 then [] else FirstWeights(lib, l, data, n - 1) + [PixelWeight(lib, l, data, n - 1)]
  }

  /** Entry k of the weights is the weight of pixel k. */
  lemma {:induction false} WeightAt(lib: Lib, l: Layout, data: seq<real>, n: int, k: int)
    requires Lawful(lib) && Image(l, data) && 0 <= k < n <= Pixels(l)
    ensures FirstWeights(lib, l, data, n)[k] == PixelWeight(lib, l, data, k)
    decreases n
  {
    if k < n - 1 {
      WeightAt(lib, l, data, n - 1, k);
    }
  }

  predicate AllNonNeg(ws: seq<real>) {
    forall k :: 0 <= k < |ws| ==> 0.0 <= ws[k]
  }

  /** With non-negative radiance every weight is non-negative. */
  lemma WeightsNonNeg(lib: Lib, l: Layout, data: seq<real>)
    requires Lawful(lib) && Image(l, data) && NonNeg(data)
    ensures AllNonNeg(Weights(lib, l, data))
  {
    var ws := Weights(lib, l, data);
    forall k | 0 <= k < |ws|
      ensures 0.0 <= ws[k]
    {
      WeightAt(lib, l, data, Pixels(l), k);
    }
  }

  /** ws[0] + ... + ws[k-1]: cumProb[k] after the first loop of
      setFilename. */
  function Sum(ws: seq<real>, k: int): real
    requires 0 <= k <= |ws|
  {
    if k == 0 then 0.0 else Sum(ws, k - 1) + ws[k - 1]
  }

  function Total(lib: Lib, l: Layout, data: seq<real>): real
    requires Lawful(lib) && Image(l, data)
  {
    var ws := Weights(lib, l, data);
    Sum(ws, |ws|)
  }

  /** The running sums divided by the total. */
  function Normalised(ws: seq<real>): (t: seq<real>)
    requires 0.0 < Sum(ws, |ws|)
    ensures |t| == |ws| + 1
  {
    seq(|ws| + 1, j requires 0 <= j <= |ws| => Sum(ws, j) / Sum(ws, |ws|))
  }

  /** The cumulative probability table setFilename leaves in cumProb. */
  function Table(lib: Lib, l: Layout, data: seq<real>): (t: seq<real>)
    requires Lawful(lib) && Image(l, data) && 0.0 < Total(lib, l, data)
    ensures |t| == Pixels(l) + 1
  {
    Normalised(Weights(lib, l, data))
  }

  predicate Monotone(t: seq<real>) {
    forall i, j :: 0 <= i <= j < |t| ==> t[i] <= t[j]
  }

  /** Running sums of non-negative weights never decrease. */
  lemma {:induction false} SumMonotone(ws: seq<real>, i: int, j: int)
    requires AllNonNeg(ws) && 0 <= i <= j <= |ws|
    ensures Sum(ws, i) <= Sum(ws, j)
    decreases j
  {
    if i < j {
      SumMonotone(ws, i, j - 1);
    }
  }

  /** The normalised table starts at 0, ends at 1 and never decreases. */
  lemma {:induction false} NormalisedShape(ws: seq<real>)
    requires AllNonNeg(ws) && 0.0 < Sum(ws, |ws|)
    ensures Normalised(ws)[0] == 0.0
    ensures Normalised(ws)[|ws|] == 1.0
    ensures Monotone(Normalised(ws))
  {
    var t := Normalised(ws);
    var total := Sum(ws, |ws|);
    assert t[0] == Sum(ws, 0) / total;
    assert t[|ws|] == total / total;
    DivSelf(total);
    forall i, j | 0 <= i <= j < |t|
      ensures t[i] <= t[j]
    {
      assert t[i] == Sum(ws, i) / total && t[j] == Sum(ws, j) / total;
      SumMonotone(ws, i, j);
      DivMonotone(Sum(ws, i), Sum(ws, j), total);
    }
  }

  lemma DivSelf(c: real)
    requires c != 0.0
    ensures c / c == 1.0
  {
  }

  lemma DivMonotone(a: real, b: real, c: real)
    requires a <= b && 0.0 < c
    ensures a / c <= b / c
  {
    var p, q := a / c, b / c;
    assert p * c == a && q * c == b;
    if q < p {
      MulLt(c, q, p);
    }
  }

  /** One step of the table is the share of one weight in the total. */
  lemma {:induction false} NormalisedStep(ws: seq<real>, k: int)
    requires 0.0 < Sum(ws, |ws|) && 0 <= k < |ws|
    ensures Normalised(ws)[k + 1] - Normalised(ws)[k] == ws[k] / Sum(ws, |ws|)
  {
    var total := Sum(ws, |ws|);
    var a := Sum(ws, k);
    assert Sum(ws, k + 1) == a + ws[k];
    SumOverTotal(a, ws[k], total);
  }

  lemma SumOverTotal(a: real, w: real, c: real)
    requires 0.0 < c
    ensures (a + w) / c - a / c == w / c
  {
  }

  /** The table of an image with non-negative radiance starts at 0, ends at
      1 and never decreases. */
  lemma TableShape(lib: Lib, l: Layout, data: seq<real>)
    requires Lawful(lib) && Image(l, data) && NonNeg(data) && 0.0 < Total(lib, l, data)
    ensures Table(lib, l, data)[0] == 0.0
    ensures Table(lib, l, data)[Pixels(l)] == 1.0
    ensures Monotone(Table(lib, l, data))
  {
    WeightsNonNeg(lib, l, data);
    NormalisedShape(Weights(lib, l, data));
  }

  /** The pixel a search for `x` should find: the last index up to `j` whose
      entry lies below `x`, or 0.  The binary search in sample is checked
      against this linear definition. */
  function LastBelow(t: seq<real>, x: real, j: int): (r: int)
    requires 0 <= j < |t|
    ensures 0 <= r <= j
    ensures r == 0 || t[r] < x
    ensures forall i :: r < i <= j ==> x <= t[i]
  {
    if j == 0 then 0
    else if t[j] < x then j
    else LastBelow(t, x, j - 1)
  }

  /** In a non-decreasing table, an index that brackets `x` is the one
      LastBelow finds. */
  lemma BracketIsLastBelow(t: seq<real>, x: real, k: int)
    requires Monotone(t) && 0 <= k && k + 1 < |t|
    requires (k == 0 || t[k] < x) && x <= t[k + 1]
    ensures LastBelow(t, x, |t| - 1) == k
  {
  }

  /** For a random number in (0, 1] the pixel found has entries
      t[k] < x <= t[k+1], so its probability t[k+1] - t[k] is positive. */
  lemma {:induction false} PickBrackets(t: seq<real>, x: real)
    requires 2 <= |t| && t[0] == 0.0 && t[|t| - 1] == 1.0 && 0.0 < x <= 1.0
    ensures LastBelow(t, x, |t| - 1) < |t| - 1
    ensures t[LastBelow(t, x, |t| - 1)] < x <= t[LastBelow(t, x, |t| - 1) + 1]
  {
  }

  /** The pixel sample picks for a random number in (0, 1] has a positive
      weight, so it lies on one of the six faces. */
  lemma {:induction false} PickOnFace(lib: Lib, l: Layout, data: seq<real>, x: real)
    requires Lawful(lib) && Image(l, data) && NonNeg(data) && 0.0 < Total(lib, l, data)
    requires 0.0 < x <= 1.0
    ensures LastBelow(Table(lib, l, data), x, Pixels(l)) < Pixels(l)
    ensures 0.0 < PixelWeight(lib, l, data, LastBelow(Table(lib, l, data), x, Pixels(l)))
    ensures IndexToFace(l, LastBelow(Table(lib, l, data), x, Pixels(l))).face != -1
  {
    var ws := Weights(lib, l, data);
    var t := Table(lib, l, data);
    TableShape(lib, l, data);
    PickBrackets(t, x);
    var k := LastBelow(t, x, Pixels(l));
    NormalisedStep(ws, k);
    WeightAt(lib, l, data, Pixels(l), k);
    PositiveOverTotal(ws[k], Total(lib, l, data), t[k + 1] - t[k]);
  }

  /** The table steps up only at pixels on a face. */
  lemma {:induction false} StepOnFace(lib: Lib, l: Layout, data: seq<real>, k: int)
    requires Lawful(lib) && Image(l, data) && 0.0 < Total(lib, l, data) && 0 <= k < Pixels(l)
    requires Table(lib, l, data)[k] < Table(lib, l, data)[k + 1]
    ensures IndexToFace(l, k).face != -1
  {
    var ws := Weights(lib, l, data);
    var t := Table(lib, l, data);
    NormalisedStep(ws, k);
    WeightAt(lib, l, data, Pixels(l), k);
    PositiveOverTotal(ws[k], Total(lib, l, data), t[k + 1] - t[k]);
  }

  lemma PositiveOverTotal(w: real, c: real, q: real)
    requires 0.0 < c && q == w / c && 0.0 < q
    ensures 0.0 < w
  {
    assert q * c == w;
    MulPos(q, c);
  }

  /** seedX: where `x` falls between t[k] and t[k+1], rescaled to (0, 1]. */
  function SeedX(t: seq<real>, x: real, k: int): (s: real)
    requires 0 <= k && k + 1 < |t| && t[k] < x <= t[k + 1]
    ensures 0.0 < s <= 1.0
    ensures s < 1.0 <==> x < t[k + 1]
  {
    RatioInUnit(x - t[k], t[k + 1] - t[k]);
    (x - t[k]) / (t[k + 1] - t[k])
  }

  lemma RatioInUnit(a: real, b: real)
    requires 0.0 < a <= b
    ensures 0.0 < a / b <= 1.0
    ensures a / b < 1.0 <==> a < b
  {
    var s := a / b;
    assert Mul(b, s) == a;
    RatioPos(a, b);
    if s <= 0.0 {
      MulLe(b, s, 0.0);
    }
    if s < 1.0 {
      MulLt(b, s, 1.0);
    }
  }

  /** The probability density of a direction whose pixel has probability
      `pixelProb` and whose face point is `p`: pixelProb, times the pixel
      density, times the Jacobian at p. */
  function Density(lib: Lib, l: Layout, pixelProb: real, p: FacePoint): real
    requires Lawful(lib) && Valid(l)
  {
    pixelProb * PixelDensity(l) * SolidAngleFactor(lib, p.u, p.v)
  }

  /** A density is never negative, and it is zero exactly for a pixel of
      probability zero. */
  lemma DensitySign(lib: Lib, l: Layout, pixelProb: real, p: FacePoint)
    requires Lawful(lib) && Valid(l) && 0.0 <= pixelProb
    ensures 0.0 <= Density(lib, l, pixelProb, p)
    ensures Density(lib, l, pixelProb, p) == 0.0 <==> pixelProb == 0.0
  {
    var a, r := PixelDensity(l), SolidAngleFactor(lib, p.u, p.v);
    MulPos(a, r);
    assert Density(lib, l, pixelProb, p) == Mul(pixelProb, Mul(a, r));
    if 0.0 < pixelProb {
      MulPos(pixelProb, Mul(a, r));
    }
  }

  /** Cubemap.pdf with cumProb given as `t`: the density of the pixel
      faceToIndex finds for the direction. */
  function Pdf(lib: Lib, l: Layout, t: seq<real>, d: Vec3): real
    requires Lawful(lib) && Valid(l) && |t| == Pixels(l) + 1 && d != Zero
  {
    var p := DirToFace(d);
    DirToFaceIndexInRange(l, d);
    var k := FaceToIndex(l, p);
    Density(lib, l, t[k + 1] - t[k], p)
  }

  /** The radiance eval finds for direction `d`: the colour of the pixel
      faceToIndex finds for it. */
  function DirRadiance(l: Layout, data: seq<real>, d: Vec3): Color
    requires Image(l, data) && d != Zero
  {
    DirToFaceIndexInRange(l, d);
    Radiance(l, data, FaceToIndex(l, DirToFace(d)))
  }

  /** The direction sample returns for pixel `k` and random numbers (s, u):
      faceToDir of the jittered pixel centre. */
  function SampleDir(lib: Lib, l: Layout, k: int, s: real, u: real, prior: Vec3): Vec3
    requires Lawful(lib) && Valid(l) && 0 <= k < Pixels(l)
  {
    FaceToDir(lib, Jitter(l, IndexToFace(l, k), s, u), prior)
  }

  /** sample's returned density is pdf's density for the direction it
      returned, and eval finds in that direction the pixel sample picked,
      whenever the jitter lies strictly inside the pixel and its face. */
  lemma {:induction false} SampleMatchesPdf(lib: Lib, l: Layout, t: seq<real>, data: seq<real>, k: int, s: real, u: real, prior: Vec3)
    requires Lawful(lib) && Image(l, data) && |t| == Pixels(l) + 1
    requires 0 <= k < Pixels(l) && IndexToFace(l, k).face != -1
    requires 0.0 < s < 1.0 && 0.0 < u < 1.0
    ensures SampleDir(lib, l, k, s, u, prior) != Zero
    ensures FaceToIndex(l, DirToFace(SampleDir(lib, l, k, s, u, prior))) == k
    ensures DirRadiance(l, data, SampleDir(lib, l, k, s, u, prior)) == Radiance(l, data, k)
    ensures Pdf(lib, l, t, SampleDir(lib, l, k, s, u, prior))
            == Density(lib, l, t[k + 1] - t[k], Jitter(l, IndexToFace(l, k), s, u))
  {
    var q := Jitter(l, IndexToFace(l, k), s, u);
    FaceToIndexOfJitter(l, k, s, u);
    DirToFaceOfFaceToDir(lib, q, prior);
    PointOfPixel(lib, l, t, data, FaceToDir(lib, q, prior), q, k);
  }

  /** A direction that dirToFace takes to the point q of pixel k has the
      density and the radiance of that pixel. */
  lemma PointOfPixel(lib: Lib, l: Layout, t: seq<real>, data: seq<real>, d: Vec3, q: FacePoint, k: int)
    requires Lawful(lib) && Image(l, data) && |t| == Pixels(l) + 1 && 0 <= k < Pixels(l)
    requires d != Zero && DirToFace(d) == q && FaceToIndex(l, q) == k
    ensures Pdf(lib, l, t, d) == Density(lib, l, t[k + 1] - t[k], q)
    ensures DirRadiance(l, data, d) == Radiance(l, data, k)
  {
  }

  /** mapBits is the least m with 2^m >= width*height. */
  predicate IsMapBits(n: int, m: int) {
    0 <= m && n <= Pow2(m) && (m == 0 || Pow2(m - 1) < n)
  }

  /** A map whose image fits in a Java array has mapBits <= 30, so every
      `1 << p` of the search is 2^p. */
  lemma MapBitsBound(n: int, m: int)
    requires 3 * n <= IntMax && IsMapBits(n, m)
    ensures m <= 30
  {
    Pow2Thirty();
    if 30 < m {
      Pow2Monotone(30, m - 1);
    }
  }

  /** There is only one such m. */
  lemma MapBitsUnique(n: int, m: int, m': int)
    requires IsMapBits(n, m) && IsMapBits(n, m')
    ensures m == m'
  {
    if m < m' {
      Pow2Monotone(m, m' - 1);
    } else if m' < m {
      Pow2Monotone(m', m - 1);
    }
  }

  /** The block of the search that starts at j * 2^(p+1). */
  function Block(j: int, p: nat): int {
    j * Pow2(p + 1)
  }

  /** What the binary search needs of the pixel count `n`: whenever it has
      settled the bits above p, so that k = j * 2^(p+1) < n, the entry it
      reads next, k + 2^p, is still in the table. */
  ghost predicate SearchInBounds(n: int, bits: int) {
    forall p: nat, j: int :: p < bits && 0 <= j && Block(j, p) < n ==> Block(j, p) + Pow2(p) <= n
  }

  /** A map whose face side is a power of two, 2^e, has n = 3 * 2^(2e+2)
      pixels; mapBits is then 2e + 4 and the search stays in the table. */
  lemma {:induction false} PowerOfTwoFaces(e: nat)
    ensures Pixels(Layout(3 * Pow2(e), 4 * Pow2(e), Pow2(e))) == 3 * Pow2(2 * e + 2)
    ensures IsMapBits(3 * Pow2(2 * e + 2), 2 * e + 4)
    ensures SearchInBounds(3 * Pow2(2 * e + 2), 2 * e + 4)
  {
    var m := 2 * e + 2;
    Pow2Add(e, e);
    Pow2Add(2, 2 * e);
    assert Pow2(2) == 4;
    assert Pow2(e) * Pow2(e) * 4 == Pow2(m);
    assert 3 * Pow2(e) * (4 * Pow2(e)) == 3 * (Pow2(e) * Pow2(e) * 4);
    Pow2Succ(m);
    Pow2Succ(m + 1);
    forall p: nat, j: int | p < m + 2 && 0 <= j && Block(j, p) < 3 * Pow2(m)
      ensures Block(j, p) + Pow2(p) <= 3 * Pow2(m)
    {
      ThreeBlocks(m, p, j);
    }
  }

  lemma {:induction false} ThreeBlocks(m: nat, p: nat, j: int)
    requires p < m + 2 && 0 <= j && Block(j, p) < 3 * Pow2(m)
    ensures Block(j, p) + Pow2(p) <= 3 * Pow2(m)
  {
    Pow2Succ(p);
    if p + 1 <= m {
      Pow2Add(p + 1, m - (p + 1));
      BlockBelow(j, Pow2(p), Pow2(m - (p + 1)));
    } else if p == m {
      BlockNext(j, Pow2(m));
    } else {
      Pow2Succ(m);
      BlockLast(j, Pow2(m));
    }
  }

  // The three cases of ThreeBlocks over plain integers, with h = 2^p and
  // 2^m = 2h * g, 2^m = h, or 2^m = h / 2.

  lemma BlockBelow(j: int, h: int, g: int)
    requires 0 < h && 0 < g && 0 <= j && j * (2 * h) < 3 * ((2 * h) * g)
    ensures j * (2 * h) + h <= 3 * ((2 * h) * g)
  {
    var b := 2 * h;
    assert j * b < (3 * g) * b;
    LtOfMulLt(j, 3 * g, b);
    IntMulMono(j, 3 * g - 1, b);
    assert (3 * g - 1) * b == 3 * (b * g) - b;
  }

  lemma BlockNext(j: int, h: int)
    requires 0 < h && 0 <= j && j * (2 * h) < 3 * h
    ensures j * (2 * h) + h <= 3 * h
  {
    assert (2 * j) * h < 3 * h;
    LtOfMulLt(2 * j, 3, h);
    IntMulMono(j, 1, 2 * h);
  }

  lemma BlockLast(j: int, h: int)
    requires 0 < h && 0 <= j && j * (2 * (2 * h)) < 3 * h
    ensures j * (2 * (2 * h)) + 2 * h <= 3 * h
  {
    assert (4 * j) * h < 3 * h;
    LtOfMulLt(4 * j, 3, h);
    assert j == 0;
  }

  lemma LtOfMulLt(a: int, b: int, c: int)
    requires 0 < c && a * c < b * c
    ensures a < b
  {
    if b <= a {
      IntMulMono(b, a, c);
    }
  }

  lemma IntMulMono(a: int, b: int, c: int)
    requires a <= b && 0 <= c
    ensures a * c <= b * c
  {
  }

  /** With a face side of 3 the search can run past the table: the map has
      108 pixels, mapBits is 7, and after settling k = 96 the search reads
      entry 112. */
  lemma BlockThreeOutOfBounds()
    ensures Pixels(Layout(9, 12, 3)) == 108
    ensures IsMapBits(108, 7)
    ensures Block(3, 4) == 96 && Block(3, 4) + Pow2(4) == 112
    ensures !SearchInBounds(108, 7)
  {
    assert Pow2(5) == 32;
    assert Pow2(6) == 64 && Pow2(7) == 128;
    assert Block(3, 4) == 96;
  }
}
