/** The index arithmetic of Cubemap: a cube map is stored as one image whose
    3 x 4 grid of square cells holds the six faces in a cross; six cells are
    unused.  A pixel index, a face with coordinates (u, v) in [-1, 1]^2, and a
    direction are converted into one another. */
module CubemapFaces {
  import opened VecMath
  import opened JavaNum

  /** The size of the whole map in pixels and the side of one face. */
  datatype Layout = Layout(width: int, height: int, blockSz: int)

  /** The cross layout: three faces across and four down. */
  predicate Valid(l: Layout) {
    0 < l.blockSz && l.width == 3 * l.blockSz && l.height == 4 * l.blockSz
  }

  function Pixels(l: Layout): int {
    l.width * l.height
  }

  /** A face index with coordinates on that face: Cubemap's `iFace` together
      with `faceUV`. */
  datatype FacePoint = FacePoint(face: int, u: real, v: real)

  /** faceLoc: the grid column and row of each face. */
  const FaceLoc: seq<seq<int>> := [[2, 2], [0, 2], [1, 3], [1, 1], [1, 0], [1, 2]]

  /** locFace: the face held by each grid cell, row by row; -1 marks an unused
      cell. */
  const LocFace: seq<seq<int>> := [[-1, 4, -1], [-1, 3, -1], [1, 5, 0], [-1, 2, -1]]

  function FaceCol(f: int): (c: int)
    requires 0 <= f < 6
    ensures 0 <= c < 3
  {
    FaceLoc[f][0]
  }

  function FaceRow(f: int): (r: int)
    requires 0 <= f < 6
    ensures 0 <= r < 4
  {
    FaceLoc[f][1]
  }

  function CellFace(row: int, col: int): (f: int)
    requires 0 <= row < 4 && 0 <= col < 3
    ensures -1 <= f < 6
  {
    LocFace[row][col]
  }

  /** The two tables invert each other: every face's cell holds that face ... */
  lemma CellOfFace(f: int)
    requires 0 <= f < 6
    ensures CellFace(FaceRow(f), FaceCol(f)) == f
  {
  }

  /** ... and every used cell is the cell of the face it holds. */
  lemma FaceOfCell(row: int, col: int)
    requires 0 <= row < 4 && 0 <= col < 3 && CellFace(row, col) != -1
    ensures FaceRow(CellFace(row, col)) == row && FaceCol(CellFace(row, col)) == col
  {
    assert row == 0 || row == 1 || row == 2 || row == 3;
  }

  /** Cubemap.faceToIndex: the pixel whose square holds (u, v) on face `f`.
      The arithmetic is exact: FaceToIndexNoOverflow shows that no step leaves
      the `int` range for a map whose image fits in a Java array. */
  function FaceToIndex(l: Layout, p: FacePoint): int
    requires Valid(l) && 0 <= p.face < 6 && -1.0 <= p.u && -1.0 <= p.v
  {
    CellIndex(l, p.face, PixelCoord(l, p.u), PixelCoord(l, p.v))
  }

  /** The index of pixel (iu, iv) of face `f` in the whole map:
      ix + width * iy with ix = iu + blockSz*col and iy = iv + blockSz*row. */
  function CellIndex(l: Layout, f: int, iu: int, iv: int): int
    requires 0 <= f < 6
  {
    iu + l.blockSz * FaceCol(f) + l.width * (iv + l.blockSz * FaceRow(f))
  }

  /** `(int) (blockSz * (t + 1) / 2)`, the pixel column (or row) of face
      coordinate `t`.  The cast truncates toward zero; for t >= -1 its operand
      is non-negative, so truncation is the floor. */
  function PixelCoord(l: Layout, t: real): (i: int)
    requires Valid(l) && -1.0 <= t
    ensures 0 <= i && InPixel(l, t, i)
  {
    var bs := l.blockSz as real;
    assert 0.0 <= bs * (t + 1.0) by {
      MulNonneg(bs, t + 1.0);
    }
    (bs * (t + 1.0) / 2.0).Floor
  }

  /** The pixel square that face coordinate `t` falls in: the one whose
      column (or row) `i` satisfies i <= blockSz*(t+1)/2 < i+1. */
  predicate InPixel(l: Layout, t: real, i: int) {
    var x := l.blockSz as real * (t + 1.0) / 2.0;
    i as real <= x < i as real + 1.0
  }

  /** The u (or v) coordinate of the centre of pixel column (or row) `i` of a
      face. */
  function Centre(l: Layout, i: int): real
    requires Valid(l)
  {
    2.0 * (i as real + 0.5) / l.blockSz as real - 1.0
  }

  /** Cubemap.indexToFace: the face of pixel `k` (-1 in an unused cell) and the
      centre of that pixel in face coordinates. */
  function IndexToFace(l: Layout, k: int): (p: FacePoint)
    requires Valid(l) && 0 <= k < Pixels(l)
    ensures -1 <= p.face < 6
  {
    IndexRowBound(l, k);
    var f := CellFace(CellRow(l, k), CellCol(l, k));
    FacePoint(f, Centre(l, PixelCol(l, k)), Centre(l, PixelRow(l, k)))
  }

  // Pixel k sits at column ix = k % width and row iy = k / width of the map,
  // that is, in grid cell (iy / blockSz, ix / blockSz) at column ix % blockSz
  // and row iy % blockSz of that cell.

  function CellRow(l: Layout, k: int): int
    requires Valid(l)
  {
    (k / l.width) / l.blockSz
  }

  function CellCol(l: Layout, k: int): int
    requires Valid(l)
  {
    (k % l.width) / l.blockSz
  }

  function PixelCol(l: Layout, k: int): int
    requires Valid(l)
  {
    (k % l.width) % l.blockSz
  }

  function PixelRow(l: Layout, k: int): int
    requires Valid(l)
  {
    (k / l.width) % l.blockSz
  }

  lemma IndexRowBound(l: Layout, k: int)
    requires Valid(l) && 0 <= k < Pixels(l)
    ensures 0 <= k / l.width < l.height
    ensures 0 <= CellRow(l, k) < 4 && 0 <= CellCol(l, k) < 3
  {
    DivBelow(k, l.width, l.height);
    DivBelow(k / l.width, l.blockSz, 4);
    DivBelow(k % l.width, l.blockSz, 3);
  }

  lemma DivBelow(k: int, w: int, h: int)
    requires 0 < w && 0 <= k < w * h
    ensures 0 <= k / w < h
  {
    var q := k / w;
    assert k == w * q + k % w;
    if h <= q {
      IntMulLe(w, h, q);
    }
  }

  lemma IntMulLe(a: int, b: int, c: int)
    requires 0 <= a && b <= c
    ensures a * b <= a * c
  {
  }

  /** Cubemap.dirToFace: the face a direction points at (the axis of its
      largest component, ties going to the later axis) and where on that face,
      as the other two components divided by the largest. */
  function DirToFace(d: Vec3): (p: FacePoint)
    requires d != Zero
    ensures 0 <= p.face < 6 && -1.0 <= p.u <= 1.0 && -1.0 <= p.v <= 1.0
    ensures p.face < 2 ==> -1.0 < p.u < 1.0 && -1.0 < p.v < 1.0
    ensures p.face < 4 ==> -1.0 < p.v < 1.0
  {
    if Abs(d.x) > Abs(d.y) && Abs(d.x) > Abs(d.z) then
      Ratio(d.z, d.x);
      Ratio(d.y, d.x);
      FacePoint(if d.x > 0.0 then 0 else 1, d.z / d.x, d.y / Abs(d.x))
    else if Abs(d.y) > Abs(d.z) then
      Ratio(d.x, d.y);
      Ratio(d.z, d.y);
      FacePoint(if d.y > 0.0 then 2 else 3, d.x / Abs(d.y), d.z / d.y)
    else
      Ratio(d.x, d.z);
      Ratio(d.y, d.z);
      FacePoint(if d.z > 0.0 then 4 else 5, d.x / Abs(d.z), -d.y / d.z)
  }

  /** A component divided by a component at least as large lies in [-1, 1],
      strictly inside when the divisor is strictly larger. */
  lemma Ratio(a: real, b: real)
    requires Abs(a) <= Abs(b) && b != 0.0
    ensures -1.0 <= a / b <= 1.0 && -1.0 <= a / Abs(b) <= 1.0 && -1.0 <= -a / b <= 1.0
    ensures Abs(a) < Abs(b) ==> -1.0 < a / b < 1.0 && -1.0 < a / Abs(b) < 1.0
  {
    RatioPos(a, Abs(b));
    DivNeg(a, b);
  }

  lemma DivNeg(a: real, b: real)
    requires b != 0.0
    ensures a / Abs(b) == (if 0.0 < b then a / b else -(a / b))
    ensures -a / b == -(a / b)
  {
    if b < 0.0 {
      var q := a / b;
      assert q * b == a;
      assert -q * -b == a;
    }
  }

  lemma RatioPos(a: real, b: real)
    requires Abs(a) <= b && 0.0 < b
    ensures -1.0 <= a / b <= 1.0
    ensures Abs(a) < b ==> -1.0 < a / b < 1.0
  {
    var q := a / b;
    assert q * b == a;
  }

  /** The unnormalised direction faceToDir builds before normalising it; a
      face outside 0..5 leaves the output vector as it was. */
  function FaceAxes(p: FacePoint, prior: Vec3): Vec3 {
    var u, v := p.u, p.v;
    if p.face == 0 then Vec3(1.0, v, u)
    else if p.face == 1 then Vec3(-1.0, v, -u)
    else if p.face == 2 then Vec3(u, 1.0, v)
    else if p.face == 3 then Vec3(u, -1.0, -v)
    else if p.face == 4 then Vec3(u, -v, 1.0)
    else if p.face == 5 then Vec3(u, v, -1.0)
    else prior
  }

  /** Cubemap.faceToDir: the unit direction through (u, v) on a face. */
  function FaceToDir(lib: Lib, p: FacePoint, prior: Vec3): Vec3
    requires Lawful(lib)
  {
    Normalize(lib, FaceAxes(p, prior))
  }

  /** The size of the component dirToFace divides by. */
  function Major(d: Vec3): real {
    if Abs(d.x) > Abs(d.y) && Abs(d.x) > Abs(d.z) then Abs(d.x)
    else if Abs(d.y) > Abs(d.z) then Abs(d.y)
    else Abs(d.z)
  }

  /** faceToDir undoes dirToFace up to length: a direction is the vector its
      face point names, scaled by its largest component ... */
  lemma AxesOfDirToFace(d: Vec3, prior: Vec3)
    requires d != Zero
    ensures 0.0 < Major(d)
    ensures d == Scale(FaceAxes(DirToFace(d), prior), Major(d))
  {
    if Abs(d.x) > Abs(d.y) && Abs(d.x) > Abs(d.z) {
      AxesFaceX(d, prior);
    } else if Abs(d.y) > Abs(d.z) {
      AxesFaceY(d, prior);
    } else {
      AxesFaceZ(d, prior);
    }
  }

  lemma AxesFaceX(d: Vec3, prior: Vec3)
    requires Abs(d.x) > Abs(d.y) && Abs(d.x) > Abs(d.z)
    ensures d == Scale(FaceAxes(DirToFace(d), prior), Abs(d.x))
  {
    AxesOfFaceX(d, prior, DirToFace(d));
  }

  /** The x faces' part of AxesOfDirToFace, from the face point alone. */
  lemma AxesOfFaceX(d: Vec3, prior: Vec3, p: FacePoint)
    requires d.x != 0.0 && p == FacePoint(if d.x > 0.0 then 0 else 1, d.z / d.x, d.y / Abs(d.x))
    ensures d == Scale(FaceAxes(p, prior), Abs(d.x))
  {
    var m := Abs(d.x);
    assert m * (d.y / m) == d.y;
    assert d.x * (d.z / d.x) == d.z;
    if d.x > 0.0 {
      assert FaceAxes(p, prior) == Vec3(1.0, d.y / m, d.z / d.x);
    } else {
      assert FaceAxes(p, prior) == Vec3(-1.0, d.y / m, -(d.z / d.x));
    }
  }

  lemma AxesFaceY(d: Vec3, prior: Vec3)
    requires !(Abs(d.x) > Abs(d.y) && Abs(d.x) > Abs(d.z)) && Abs(d.y) > Abs(d.z)
    ensures d == Scale(FaceAxes(DirToFace(d), prior), Abs(d.y))
  {
    AxesOfFaceY(d, prior, DirToFace(d));
  }

  /** The y faces' part of AxesOfDirToFace, from the face point alone. */
  lemma AxesOfFaceY(d: Vec3, prior: Vec3, p: FacePoint)
    requires d.y != 0.0 && p == FacePoint(if d.y > 0.0 then 2 else 3, d.x / Abs(d.y), d.z / d.y)
    ensures d == Scale(FaceAxes(p, prior), Abs(d.y))
  {
    var m := Abs(d.y);
    assert m * (d.x / m) == d.x;
    assert d.y * (d.z / d.y) == d.z;
    if d.y > 0.0 {
      assert FaceAxes(p, prior) == Vec3(d.x / m, 1.0, d.z / d.y);
    } else {
      assert FaceAxes(p, prior) == Vec3(d.x / m, -1.0, -(d.z / d.y));
    }
  }

  lemma AxesFaceZ(d: Vec3, prior: Vec3)
    requires d != Zero && !(Abs(d.x) > Abs(d.y) && Abs(d.x) > Abs(d.z)) && !(Abs(d.y) > Abs(d.z))
    ensures d.z != 0.0
    ensures d == Scale(FaceAxes(DirToFace(d), prior), Abs(d.z))
  {
    if d.z > 0.0 {
      AxesFaceZPos(d, prior);
    } else {
      AxesFaceZNeg(d, prior);
    }
  }

  lemma AxesFaceZPos(d: Vec3, prior: Vec3)
    requires !(Abs(d.x) > Abs(d.y) && Abs(d.x) > Abs(d.z)) && !(Abs(d.y) > Abs(d.z)) && d.z > 0.0
    ensures d == Scale(FaceAxes(DirToFace(d), prior), d.z)
  {
    AxesOfFaceZPos(d, prior, DirToFace(d));
  }

  lemma AxesOfFaceZPos(d: Vec3, prior: Vec3, p: FacePoint)
    requires d.z > 0.0 && p == FacePoint(4, d.x / d.z, -d.y / d.z)
    ensures d == Scale(FaceAxes(p, prior), d.z)
  {
    assert d.z * (d.x / d.z) == d.x;
    assert d.z * -(-d.y / d.z) == d.y;
    assert FaceAxes(p, prior) == Vec3(d.x / d.z, -(-d.y / d.z), 1.0);
  }

  lemma AxesFaceZNeg(d: Vec3, prior: Vec3)
    requires d != Zero && !(Abs(d.x) > Abs(d.y) && Abs(d.x) > Abs(d.z)) && !(Abs(d.y) > Abs(d.z)) && d.z <= 0.0
    ensures d.z < 0.0
    ensures d == Scale(FaceAxes(DirToFace(d), prior), -d.z)
  {
    AxesOfFaceZNeg(d, prior, DirToFace(d));
  }

  lemma AxesOfFaceZNeg(d: Vec3, prior: Vec3, p: FacePoint)
    requires d.z < 0.0 && p == FacePoint(5, d.x / -d.z, -d.y / d.z)
    ensures d == Scale(FaceAxes(p, prior), -d.z)
  {
    assert -d.z * (d.x / -d.z) == d.x;
    assert -d.z * (-d.y / d.z) == d.y;
    assert FaceAxes(p, prior) == Vec3(d.x / -d.z, -d.y / d.z, -1.0);
  }

  /** ... so faceToDir(dirToFace(d)) is d normalised. */
  lemma {:induction false} FaceToDirOfDirToFace(lib: Lib, d: Vec3, prior: Vec3)
    requires Lawful(lib) && d != Zero
    ensures FaceToDir(lib, DirToFace(d), prior) == Normalize(lib, d)
  {
    AxesOfDirToFace(d, prior);
    NormalizeScaleInvariant(lib, FaceAxes(DirToFace(d), prior), Major(d));
  }

  /** dirToFace undoes faceToDir inside each face: the point a face point's
      direction lands on is that face point again. */
  lemma {:induction false} DirToFaceOfFaceToDir(lib: Lib, p: FacePoint, prior: Vec3)
    requires Lawful(lib) && 0 <= p.face < 6 && -1.0 < p.u < 1.0 && -1.0 < p.v < 1.0
    ensures FaceToDir(lib, p, prior) != Zero
    ensures DirToFace(FaceToDir(lib, p, prior)) == p
  {
    var a := FaceAxes(p, prior);
    NormalizeIsPositiveScale(lib, a);
    DirToFaceOfScaledAxes(p, prior, NormScale(lib, a));
  }

  lemma DirToFaceOfScaledAxes(p: FacePoint, prior: Vec3, c: real)
    requires 0 <= p.face < 6 && -1.0 < p.u < 1.0 && -1.0 < p.v < 1.0 && 0.0 < c
    ensures Scale(FaceAxes(p, prior), c) != Zero
    ensures DirToFace(Scale(FaceAxes(p, prior), c)) == p
  {
    assert p == FacePoint(p.face, p.u, p.v);
    if p.face == 0 {
      ScaledAxes0(p.u, p.v, prior, c);
    } else if p.face == 1 {
      ScaledAxes1(p.u, p.v, prior, c);
    } else if p.face == 2 {
      ScaledAxes2(p.u, p.v, prior, c);
    } else if p.face == 3 {
      ScaledAxes3(p.u, p.v, prior, c);
    } else if p.face == 4 {
      ScaledAxes4(p.u, p.v, prior, c);
    } else {
      ScaledAxes5(p.u, p.v, prior, c);
    }
  }

  lemma ScaledAxes0(u: real, v: real, prior: Vec3, c: real)
    requires -1.0 < u < 1.0 && -1.0 < v < 1.0 && 0.0 < c
    ensures Scale(FaceAxes(FacePoint(0, u, v), prior), c) != Zero
    ensures DirToFace(Scale(FaceAxes(FacePoint(0, u, v), prior), c)) == FacePoint(0, u, v)
  {
    assert Scale(FaceAxes(FacePoint(0, u, v), prior), c) == Vec3(c, c * v, c * u) by {
      assert FaceAxes(FacePoint(0, u, v), prior) == Vec3(1.0, v, u);
    }
    ScaledFace0(u, v, c);
  }

  lemma ScaledFace0(u: real, v: real, c: real)
    requires -1.0 < u < 1.0 && -1.0 < v < 1.0 && 0.0 < c
    ensures Vec3(c, c * v, c * u) != Zero
    ensures DirToFace(Vec3(c, c * v, c * u)) == FacePoint(0, u, v)
  {
    Shrink(c, u);
    Shrink(c, v);
  }

  lemma ScaledAxes1(u: real, v: real, prior: Vec3, c: real)
    requires -1.0 < u < 1.0 && -1.0 < v < 1.0 && 0.0 < c
    ensures Scale(FaceAxes(FacePoint(1, u, v), prior), c) != Zero
    ensures DirToFace(Scale(FaceAxes(FacePoint(1, u, v), prior), c)) == FacePoint(1, u, v)
  {
    assert Scale(FaceAxes(FacePoint(1, u, v), prior), c) == Vec3(-c, c * v, c * -u) by {
      assert FaceAxes(FacePoint(1, u, v), prior) == Vec3(-1.0, v, -u);
    }
    ScaledFace1(u, v, c);
  }

  lemma ScaledFace1(u: real, v: real, c: real)
    requires -1.0 < u < 1.0 && -1.0 < v < 1.0 && 0.0 < c
    ensures Vec3(-c, c * v, c * -u) != Zero
    ensures DirToFace(Vec3(-c, c * v, c * -u)) == FacePoint(1, u, v)
  {
    Shrink(c, u);
    Shrink(c, v);
  }

  lemma ScaledAxes2(u: real, v: real, prior: Vec3, c: real)
    requires -1.0 < u < 1.0 && -1.0 < v < 1.0 && 0.0 < c
    ensures Scale(FaceAxes(FacePoint(2, u, v), prior), c) != Zero
    ensures DirToFace(Scale(FaceAxes(FacePoint(2, u, v), prior), c)) == FacePoint(2, u, v)
  {
    assert Scale(FaceAxes(FacePoint(2, u, v), prior), c) == Vec3(c * u, c, c * v) by {
      assert FaceAxes(FacePoint(2, u, v), prior) == Vec3(u, 1.0, v);
    }
    ScaledFace2(u, v, c);
  }

  lemma ScaledFace2(u: real, v: real, c: real)
    requires -1.0 < u < 1.0 && -1.0 < v < 1.0 && 0.0 < c
    ensures Vec3(c * u, c, c * v) != Zero
    ensures DirToFace(Vec3(c * u, c, c * v)) == FacePoint(2, u, v)
  {
    Shrink(c, u);
    Shrink(c, v);
  }

  lemma ScaledAxes3(u: real, v: real, prior: Vec3, c: real)
    requires -1.0 < u < 1.0 && -1.0 < v < 1.0 && 0.0 < c
    ensures Scale(FaceAxes(FacePoint(3, u, v), prior), c) != Zero
    ensures DirToFace(Scale(FaceAxes(FacePoint(3, u, v), prior), c)) == FacePoint(3, u, v)
  {
    assert Scale(FaceAxes(FacePoint(3, u, v), prior), c) == Vec3(c * u, -c, c * -v) by {
      assert FaceAxes(FacePoint(3, u, v), prior) == Vec3(u, -1.0, -v);
    }
    ScaledFace3(u, v, c);
  }

  lemma ScaledFace3(u: real, v: real, c: real)
    requires -1.0 < u < 1.0 && -1.0 < v < 1.0 && 0.0 < c
    ensures Vec3(c * u, -c, c * -v) != Zero
    ensures DirToFace(Vec3(c * u, -c, c * -v)) == FacePoint(3, u, v)
  {
    Shrink(c, u);
    Shrink(c, v);
  }

  lemma ScaledAxes4(u: real, v: real, prior: Vec3, c: real)
    requires -1.0 < u < 1.0 && -1.0 < v < 1.0 && 0.0 < c
    ensures Scale(FaceAxes(FacePoint(4, u, v), prior), c) != Zero
    ensures DirToFace(Scale(FaceAxes(FacePoint(4, u, v), prior), c)) == FacePoint(4, u, v)
  {
    assert Scale(FaceAxes(FacePoint(4, u, v), prior), c) == Vec3(c * u, c * -v, c) by {
      assert FaceAxes(FacePoint(4, u, v), prior) == Vec3(u, -v, 1.0);
    }
    ScaledFace4(u, v, c);
  }

  lemma ScaledFace4(u: real, v: real, c: real)
    requires -1.0 < u < 1.0 && -1.0 < v < 1.0 && 0.0 < c
    ensures Vec3(c * u, c * -v, c) != Zero
    ensures DirToFace(Vec3(c * u, c * -v, c)) == FacePoint(4, u, v)
  {
    Shrink(c, u);
    Shrink(c, v);
  }

  lemma ScaledAxes5(u: real, v: real, prior: Vec3, c: real)
    requires -1.0 < u < 1.0 && -1.0 < v < 1.0 && 0.0 < c
    ensures Scale(FaceAxes(FacePoint(5, u, v), prior), c) != Zero
    ensures DirToFace(Scale(FaceAxes(FacePoint(5, u, v), prior), c)) == FacePoint(5, u, v)
  {
    assert Scale(FaceAxes(FacePoint(5, u, v), prior), c) == Vec3(c * u, c * v, -c) by {
      assert FaceAxes(FacePoint(5, u, v), prior) == Vec3(u, v, -1.0);
    }
    ScaledFace5(u, v, c);
  }

  lemma ScaledFace5(u: real, v: real, c: real)
    requires -1.0 < u < 1.0 && -1.0 < v < 1.0 && 0.0 < c
    ensures Vec3(c * u, c * v, -c) != Zero
    ensures DirToFace(Vec3(c * u, c * v, -c)) == FacePoint(5, u, v)
  {
    Shrink(c, u);
    Shrink(c, v);
  }

  /** A coordinate inside (-1, 1), scaled by c, is smaller than c and divides
      back to itself. */
  lemma Shrink(c: real, t: real)
    requires 0.0 < c && -1.0 < t < 1.0
    ensures Abs(c * t) < Abs(c) && Abs(c * -t) < Abs(-c)
    ensures (c * t) / c == t && (c * t) / Abs(c) == t && (c * t) / Abs(-c) == t
    ensures (c * -t) / (-c) == t && (c * t) / (-c) == -t
    ensures -(c * -t) / c == t && -(c * t) / (-c) == t
  {
    assert Abs(c) == c && Abs(-c) == c;
    ShrinkAbs(c, t);
    ShrinkAbs(c, -t);
    DivBack(c, t, c * t);
    DivBack(-c, t, c * -t);
    DivBack(-c, -t, c * t);
    DivBack(c, t, -(c * -t));
    DivBack(-c, t, -(c * t));
  }

  lemma ShrinkAbs(c: real, t: real)
    requires 0.0 < c && -1.0 < t < 1.0
    ensures Abs(c * t) < c
  {
    if 0.0 <= t {
      MulLt(c, t, 1.0);
      assert Mul(c, t) == c * t;
    } else {
      MulLt(c, -t, 1.0);
      assert Mul(c, -t) == -(c * t);
    }
  }

  lemma DivBack(a: real, t: real, q: real)
    requires a != 0.0 && q == a * t
    ensures q / a == t
  {
  }

  // Pixel indices and face coordinates.

  /** The image of the map, three floats per pixel, fits in a Java array. */
  predicate Fits(l: Layout) {
    Valid(l) && 3 * Pixels(l) <= IntMax
  }

  /** Each pixel square is one column (or row): a coordinate lies in one. */
  lemma InPixelUnique(l: Layout, t: real, i: int, j: int)
    requires InPixel(l, t, i) && InPixel(l, t, j)
    ensures i == j
  {
  }

  /** A coordinate in [-1, 1) lies in one of a face's blockSz columns; the
      edge t = 1 lies in column blockSz, just outside the face. */
  lemma {:induction false} PixelCoordRange(l: Layout, t: real)
    requires Valid(l) && -1.0 <= t <= 1.0
    ensures PixelCoord(l, t) <= l.blockSz
    ensures t < 1.0 <==> PixelCoord(l, t) < l.blockSz
  {
    var bs := l.blockSz as real;
    var i := PixelCoord(l, t);
    if t < 1.0 {
      MulLt(bs, t + 1.0, 2.0);
    } else {
      assert bs * (t + 1.0) / 2.0 == bs;
    }
    MulLe(bs, t + 1.0, 2.0);
  }

  /** faceToIndex of a point in pixel (iu, iv) of its face is that pixel's
      index. */
  lemma {:induction false} FaceToIndexOfPixel(l: Layout, p: FacePoint, iu: int, iv: int)
    requires Valid(l) && 0 <= p.face < 6 && -1.0 <= p.u && -1.0 <= p.v
    requires InPixel(l, p.u, iu) && InPixel(l, p.v, iv)
    ensures FaceToIndex(l, p) == CellIndex(l, p.face, iu, iv)
  {
    InPixelUnique(l, p.u, iu, PixelCoord(l, p.u));
    InPixelUnique(l, p.v, iv, PixelCoord(l, p.v));
  }

  /** No step of faceToIndex leaves the `int` range: for (u, v) in [-1, 1]^2
      every intermediate lies between 0 and twice the number of pixels. */
  lemma {:induction false} FaceToIndexNoOverflow(l: Layout, p: FacePoint)
    requires Fits(l) && 0 <= p.face < 6 && -1.0 <= p.u <= 1.0 && -1.0 <= p.v <= 1.0
    ensures 0 <= l.blockSz * FaceCol(p.face) && 0 <= l.blockSz * FaceRow(p.face)
    ensures 0 <= PixelCoord(l, p.u) + l.blockSz * FaceCol(p.face) <= l.width
    ensures 0 <= PixelCoord(l, p.v) + l.blockSz * FaceRow(p.face) <= l.height
    ensures 0 <= l.width * (PixelCoord(l, p.v) + l.blockSz * FaceRow(p.face)) <= Pixels(l)
    ensures 0 <= FaceToIndex(l, p) <= 2 * Pixels(l) && IsInt32(2 * Pixels(l))
  {
    var bs := l.blockSz;
    var iu, iv := PixelCoord(l, p.u), PixelCoord(l, p.v);
    PixelCoordRange(l, p.u);
    PixelCoordRange(l, p.v);
    var iy := iv + bs * FaceRow(p.face);
    IntMulLe(bs, FaceCol(p.face), 2);
    IntMulLe(bs, FaceRow(p.face), 3);
    IntMulLe(bs, 0, FaceCol(p.face));
    IntMulLe(bs, 0, FaceRow(p.face));
    IntMulLe(l.width, iy, l.height);
    IntMulLe(l.width, 0, iy);
    IntMulLe(l.width, 1, l.height);
  }

  /** The parts of a cell index stay within the map, and the index splits back
      into its column and row. */
  lemma {:induction false} CellIndexBounds(l: Layout, f: int, iu: int, iv: int)
    requires Valid(l) && 0 <= f < 6 && 0 <= iu < l.blockSz && 0 <= iv < l.blockSz
    ensures 0 <= l.blockSz * FaceCol(f) && 0 <= l.blockSz * FaceRow(f)
    ensures 0 <= iu + l.blockSz * FaceCol(f) < l.width
    ensures 0 <= iv + l.blockSz * FaceRow(f) < l.height
    ensures l.width <= Pixels(l) && l.height <= Pixels(l)
    ensures 0 <= CellIndex(l, f, iu, iv) < Pixels(l)
    ensures CellIndex(l, f, iu, iv) % l.width == iu + l.blockSz * FaceCol(f)
    ensures CellIndex(l, f, iu, iv) / l.width == iv + l.blockSz * FaceRow(f)
  {
    CellCornerBounds(l, f);
    RowMajor(l.width, l.height, iu + l.blockSz * FaceCol(f), iv + l.blockSz * FaceRow(f));
  }

  /** The top-left pixel of a face's cell and the cell's extent lie in the
      map. */
  lemma CellCornerBounds(l: Layout, f: int)
    requires Valid(l) && 0 <= f < 6
    ensures 0 <= l.blockSz * FaceCol(f) && l.blockSz * FaceCol(f) + l.blockSz <= l.width
    ensures 0 <= l.blockSz * FaceRow(f) && l.blockSz * FaceRow(f) + l.blockSz <= l.height
  {
    var bs := l.blockSz;
    IntMulLe(bs, FaceCol(f), 2);
    IntMulLe(bs, FaceRow(f), 3);
    IntMulLe(bs, 0, FaceCol(f));
    IntMulLe(bs, 0, FaceRow(f));
  }

  /** Row-major order: column ix and row iy of a w x h grid are at index
      ix + w iy, which lies in the grid and splits back into ix and iy. */
  lemma RowMajor(w: int, h: int, ix: int, iy: int)
    requires 0 <= ix < w && 0 <= iy < h
    ensures w <= w * h && h <= w * h
    ensures 0 <= ix + w * iy < w * h
    ensures (ix + w * iy) % w == ix && (ix + w * iy) / w == iy
  {
    IntMulLe(w, iy, h - 1);
    assert w * (h - 1) == w * h - w;
    IntMulLe(w, 1, h);
    IntMulLe(h, 1, w);
    IntMulLe(w, 0, iy);
    DivModUnique(ix + w * iy, w, iy, ix);
  }

  lemma DivModUnique(k: int, w: int, q: int, r: int)
    requires 0 < w && 0 <= r < w && k == r + w * q
    ensures k % w == r && k / w == q
  {
    var q', r' := k / w, k % w;
    assert k == r' + w * q';
    var d := q - q';
    assert w * q - w * q' == w * d;
    assert w * d == r' - r;
    if 1 <= d {
      IntMulLe(w, 1, d);
    } else if d <= -1 {
      IntMulLe(w, d, -1);
    }
  }

  /** indexToFace of the index of pixel (iu, iv) of face `f` gives face `f` and
      that pixel's centre. */
  lemma {:induction false} IndexToFaceOfCell(l: Layout, f: int, iu: int, iv: int)
    requires Valid(l) && 0 <= f < 6 && 0 <= iu < l.blockSz && 0 <= iv < l.blockSz
    ensures 0 <= CellIndex(l, f, iu, iv) < Pixels(l)
    ensures IndexToFace(l, CellIndex(l, f, iu, iv)) == FacePoint(f, Centre(l, iu), Centre(l, iv))
  {
    var bs := l.blockSz;
    CellIndexBounds(l, f, iu, iv);
    DivModUnique(iu + bs * FaceCol(f), bs, FaceCol(f), iu);
    DivModUnique(iv + bs * FaceRow(f), bs, FaceRow(f), iv);
    CellOfFace(f);
  }

  /** Round trip from face coordinates: for (u, v) in [-1, 1)^2, indexToFace of
      faceToIndex keeps the face and moves (u, v) by at most half a pixel's
      width, 1/blockSz, to the centre of its pixel. */
  lemma {:induction false} IndexToFaceOfFaceToIndex(l: Layout, p: FacePoint)
    requires Valid(l) && 0 <= p.face < 6 && -1.0 <= p.u < 1.0 && -1.0 <= p.v < 1.0
    ensures 0 <= FaceToIndex(l, p) < Pixels(l)
    ensures IndexToFace(l, FaceToIndex(l, p)).face == p.face
    ensures Abs(IndexToFace(l, FaceToIndex(l, p)).u - p.u) <= 1.0 / l.blockSz as real
    ensures Abs(IndexToFace(l, FaceToIndex(l, p)).v - p.v) <= 1.0 / l.blockSz as real
  {
    var iu, iv := PixelCoord(l, p.u), PixelCoord(l, p.v);
    PixelCoordRange(l, p.u);
    PixelCoordRange(l, p.v);
    IndexToFaceOfCell(l, p.face, iu, iv);
    CentreNear(l, p.u, iu);
    CentreNear(l, p.v, iv);
  }

  lemma CentreNear(l: Layout, t: real, i: int)
    requires Valid(l) && InPixel(l, t, i)
    ensures Abs(Centre(l, i) - t) <= 1.0 / l.blockSz as real
  {
    var bs := l.blockSz as real;
    var x := bs * (t + 1.0) / 2.0;
    assert t == 2.0 * x / bs - 1.0;
    assert Centre(l, i) - t == 2.0 * ((i as real + 0.5) - x) / bs;
    var e := (i as real + 0.5) - x;
    assert -0.5 < e <= 0.5;
    assert 2.0 * e / bs <= 1.0 / bs && -(1.0 / bs) < 2.0 * e / bs;
  }

  /** Every index faceToIndex computes for a direction lies in the map: the
      edge u = 1 or v = 1 spills at most into a neighbouring cell (see
      DiagonalIndexOffFace). */
  lemma {:induction false} DirToFaceIndexInRange(l: Layout, d: Vec3)
    requires Valid(l) && d != Zero
    ensures 0 <= FaceToIndex(l, DirToFace(d)) < Pixels(l)
  {
    var p := DirToFace(d);
    var iu, iv := PixelCoord(l, p.u), PixelCoord(l, p.v);
    PixelCoordRange(l, p.u);
    PixelCoordRange(l, p.v);
    SpillBounds(l, p.face, iu, iv);
  }

  lemma {:induction false} SpillBounds(l: Layout, f: int, iu: int, iv: int)
    requires Valid(l) && 0 <= f < 6 && 0 <= iu <= l.blockSz && 0 <= iv <= l.blockSz
    requires f < 2 ==> iu < l.blockSz
    requires f < 4 ==> iv < l.blockSz
    ensures 0 <= CellIndex(l, f, iu, iv) < Pixels(l)
  {
    var bs := l.blockSz;
    var ix := iu + bs * FaceCol(f);
    var iy := iv + bs * FaceRow(f);
    assert ix < l.width by {
      if f < 2 {
        IntMulLe(bs, FaceCol(f), 2);
      } else {
        assert FaceCol(f) == 1;
      }
    }
    assert iy < l.height by {
      if f < 4 {
        IntMulLe(bs, FaceRow(f), 3);
      } else {
        IntMulLe(bs, FaceRow(f), 2);
      }
    }
    assert 0 <= ix && 0 <= iy by {
      IntMulLe(bs, 0, FaceCol(f));
      IntMulLe(bs, 0, FaceRow(f));
    }
    IntMulLe(l.width, iy, l.height - 1);
    IntMulLe(l.width, 0, iy);
    assert l.width * (l.height - 1) == Pixels(l) - l.width;
  }

  /** One place where the round trip fails: a direction halfway between
      +x and +y, such as (1, 1, 0), goes to the +y face at its edge u = 1,
      and faceToIndex then picks a pixel in the unused cell to the right of
      that face. */
  lemma {:induction false} DiagonalIndexOffFace(l: Layout, x: real)
    requires Valid(l) && 0.0 < x
    ensures DirToFace(Vec3(x, x, 0.0)) == FacePoint(2, 1.0, 0.0)
    ensures 0 <= FaceToIndex(l, FacePoint(2, 1.0, 0.0)) < Pixels(l)
    ensures IndexToFace(l, FaceToIndex(l, FacePoint(2, 1.0, 0.0))).face == -1
  {
    DiagonalFacePoint(x);
    PixelCoordRange(l, 1.0);
    PixelCoordRange(l, 0.0);
    var iu, iv := PixelCoord(l, 1.0), PixelCoord(l, 0.0);
    assert iu == l.blockSz;
    SpillCellUnused(l, iv);
  }

  lemma DiagonalFacePoint(x: real)
    requires 0.0 < x
    ensures DirToFace(Vec3(x, x, 0.0)) == FacePoint(2, 1.0, 0.0)
  {
    assert Abs(x) == x;
    DivBack(x, 1.0, x);
    DivBack(x, 0.0, 0.0);
  }

  /** Column blockSz of the +y face is the first column of the unused cell in
      grid row 3, column 2. */
  lemma {:induction false} SpillCellUnused(l: Layout, iv: int)
    requires Valid(l) && 0 <= iv < l.blockSz
    ensures 0 <= CellIndex(l, 2, l.blockSz, iv) < Pixels(l)
    ensures CellRow(l, CellIndex(l, 2, l.blockSz, iv)) == 3 && CellCol(l, CellIndex(l, 2, l.blockSz, iv)) == 2
  {
    var bs := l.blockSz;
    var ix := 2 * bs;
    var iy := iv + 3 * bs;
    assert CellIndex(l, 2, bs, iv) == ix + l.width * iy;
    SpillBounds(l, 2, bs, iv);
    DivModUnique(CellIndex(l, 2, bs, iv), l.width, iy, ix);
    DivModUnique(ix, bs, 2, 0);
    DivModUnique(iy, bs, 3, iv);
  }

  /** The point sample picks inside pixel `i`: the pixel's centre moved by
      (2s - 1)/blockSz for a random s in [0, 1), that is, 2(i + s)/blockSz - 1. */
  function JitterCoord(l: Layout, i: int, s: real): real
    requires Valid(l)
  {
    Centre(l, i) + (2.0 * s - 1.0) / l.blockSz as real
  }

  /** Cubemap.sample's jitter applied to both coordinates of a face point. */
  function Jitter(l: Layout, p: FacePoint, s: real, t: real): FacePoint
    requires Valid(l)
  {
    var bs := l.blockSz as real;
    FacePoint(p.face, p.u + (2.0 * s - 1.0) / bs, p.v + (2.0 * t - 1.0) / bs)
  }

  /** A jittered coordinate stays in its pixel, and strictly inside the face
      when the random number is positive. */
  lemma {:induction false} JitterInPixel(l: Layout, i: int, s: real)
    requires Valid(l) && 0 <= i < l.blockSz && 0.0 <= s < 1.0
    ensures InPixel(l, JitterCoord(l, i, s), i)
    ensures -1.0 <= JitterCoord(l, i, s) < 1.0
    ensures 0.0 < s ==> -1.0 < JitterCoord(l, i, s)
  {
    var bs := l.blockSz as real;
    var c := JitterCoord(l, i, s);
    var w := i as real + s;
    JitterForm(l, i, s);
    assert bs * (c + 1.0) / 2.0 == w by {
      DivBack(bs, w / bs, w);
    }
    UnitRatio(w, bs);
  }

  lemma UnitRatio(w: real, b: real)
    requires 0.0 <= w < b
    ensures 0.0 <= w / b < 1.0 && (0.0 < w ==> 0.0 < w / b)
  {
    var q := w / b;
    assert q * b == w;
  }

  /** The jittered coordinate of pixel i at offset s is 2 (i + s) / blockSz - 1. */
  lemma JitterForm(l: Layout, i: int, s: real)
    requires Valid(l)
    ensures JitterCoord(l, i, s) == 2.0 * ((i as real + s) / l.blockSz as real) - 1.0
  {
    var bs := l.blockSz as real;
    assert Centre(l, i) == 2.0 * (i as real + 0.5) / bs - 1.0;
    SumOverDivisor(2.0 * (i as real + 0.5), 2.0 * s - 1.0, bs);
    assert (2.0 * (i as real + 0.5) + (2.0 * s - 1.0)) / bs == 2.0 * ((i as real + s) / bs);
  }

  lemma SumOverDivisor(a: real, b: real, c: real)
    requires c != 0.0
    ensures a / c - 1.0 + b / c == (a + b) / c - 1.0
  {
  }

  /** sample's jitter stays in the chosen pixel: faceToIndex of the jittered
      point is the index the search picked, for every pixel on a face. */
  lemma {:induction false} FaceToIndexOfJitter(l: Layout, k: int, s: real, t: real)
    requires Valid(l) && 0 <= k < Pixels(l) && IndexToFace(l, k).face != -1
    requires 0.0 <= s < 1.0 && 0.0 <= t < 1.0
    ensures -1.0 <= Jitter(l, IndexToFace(l, k), s, t).u < 1.0
    ensures -1.0 <= Jitter(l, IndexToFace(l, k), s, t).v < 1.0
    ensures 0.0 < s && 0.0 < t ==> -1.0 < Jitter(l, IndexToFace(l, k), s, t).u && -1.0 < Jitter(l, IndexToFace(l, k), s, t).v
    ensures FaceToIndex(l, Jitter(l, IndexToFace(l, k), s, t)) == k
  {
    var iu, iv := PixelCol(l, k), PixelRow(l, k);
    IndexIsCell(l, k);
    var p := IndexToFace(l, k);
    JitterInPixel(l, iu, s);
    JitterInPixel(l, iv, t);
    var q := Jitter(l, p, s, t);
    assert q == FacePoint(p.face, JitterCoord(l, iu, s), JitterCoord(l, iv, t));
    FaceToIndexOfPixel(l, q, iu, iv);
  }

  /** Every index of a pixel on a face is the cell index of its face, column
      and row. */
  lemma {:induction false} IndexIsCell(l: Layout, k: int)
    requires Valid(l) && 0 <= k < Pixels(l)
    ensures 0 <= PixelCol(l, k) < l.blockSz && 0 <= PixelRow(l, k) < l.blockSz
    ensures IndexToFace(l, k) == FacePoint(IndexToFace(l, k).face, Centre(l, PixelCol(l, k)), Centre(l, PixelRow(l, k)))
    ensures IndexToFace(l, k).face != -1 ==> k == CellIndex(l, IndexToFace(l, k).face, PixelCol(l, k), PixelRow(l, k))
  {
    IndexRowBound(l, k);
    var row, col := CellRow(l, k), CellCol(l, k);
    var f := CellFace(row, col);
    if f != -1 {
      FaceOfCell(row, col);
      CellIndexOfParts(l, k, f);
    }
  }

  lemma CellIndexOfParts(l: Layout, k: int, f: int)
    requires Valid(l) && 0 <= k && 0 <= f < 6
    requires FaceRow(f) == CellRow(l, k) && FaceCol(f) == CellCol(l, k)
    ensures k == CellIndex(l, f, PixelCol(l, k), PixelRow(l, k))
  {
    var bs := l.blockSz;
    var ix, iy := k % l.width, k / l.width;
    assert ix == PixelCol(l, k) + bs * FaceCol(f);
    assert iy == PixelRow(l, k) + bs * FaceRow(f);
    assert k == ix + l.width * iy;
  }
}
