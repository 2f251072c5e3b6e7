/** Cubemap, the environment light read from a cube-map image: loading the
    image builds the sampling table (setFilename), and eval, sample and pdf
    answer the environment's three queries. */
module CubemapLight {
  import opened VecMath
  import opened JavaNum
  import opened CubemapFaces
  import opened CubemapTable

  class Cubemap {
    var scaleFactor: real
    var width: int
    var height: int
    var blockSz: int
    var imageData: seq<real>
    var cumProb: array<real>
    var mapBits: int

    /** A cube map with no image yet and scale factor 1; the missing table is
        an empty array. */
    constructor ()
      ensures scaleFactor == 1.0 && width == 0 && height == 0 && blockSz == 0
      ensures imageData == [] && cumProb.Length == 0 && mapBits == 0
    {
      scaleFactor := 1.0;
      width, height, blockSz := 0, 0, 0;
      imageData := [];
      cumProb := new real[0];
      mapBits := 0;
    }

    function Shape(): Layout
      reads this
    {
      Layout(width, height, blockSz)
    }

    /** The state setFilename leaves behind: an image in the cross layout with
        non-negative radiance that is not all black on the faces, its
        normalised table in cumProb, and mapBits for its pixel count. */
    ghost predicate Ready(lib: Lib)
      reads this, cumProb
    {
      Lawful(lib) && Fits(Shape()) && Image(Shape(), imageData) && NonNeg(imageData)
      && 0.0 < Total(lib, Shape(), imageData)
      && cumProb[..] == Table(lib, Shape(), imageData)
      && IsMapBits(Pixels(Shape()), mapBits)
    }

    /** Cubemap.setFilename once readPFM has returned the image `data` of
        `w` x `h` pixels: the running sums of the pixel weights, each divided
        by the last, and mapBits. */
    method SetImage(lib: Lib, w: int, h: int, data: seq<real>)
      requires Lawful(lib) && Fits(Layout(w, h, w / 3)) && Image(Layout(w, h, w / 3), data)
      requires NonNeg(data) && 0.0 < Total(lib, Layout(w, h, w / 3), data)
      modifies this
      ensures Shape() == Layout(w, h, w / 3) && imageData == data && scaleFactor == old(scaleFactor)
      ensures fresh(cumProb) && cumProb[..] == Table(lib, Shape(), data)
      ensures IsMapBits(Pixels(Shape()), mapBits)
      ensures Ready(lib)
    {
      width, height := w, h;
      blockSz := w / 3;
      imageData := data;
      var l := Layout(w, h, w / 3);
      var ws := Weights(lib, l, data);
      var cum := Accumulate(ws);
      cumProb := cum;
      ghost var sums := cum[..];
      assert cum[|ws|] == Total(lib, l, data);
      DivideByLast(cum);
      DividedSums(ws, sums);
      mapBits := CountBits(w * h);
    }

    /** What sample relies on: a table that starts at 0, ends at 1 and never
        decreases, a step of it only at pixels on a face, and mapBits for the
        pixel count. */
    ghost predicate Searchable()
      reads this, cumProb
    {
      Image(Shape(), imageData) && cumProb.Length == Pixels(Shape()) + 1
      && cumProb[0] == 0.0 && cumProb[Pixels(Shape())] == 1.0 && Monotone(cumProb[..])
      && IsMapBits(Pixels(Shape()), mapBits) && mapBits <= 30
      && forall k :: 0 <= k < Pixels(Shape()) && cumProb[k] < cumProb[k + 1] ==> IndexToFace(Shape(), k).face != -1
    }

    /** setFilename leaves the cube map ready to sample. */
    lemma ReadySearchable(lib: Lib)
      requires Ready(lib)
      ensures Searchable()
    {
      var l := Shape();
      TableShape(lib, l, imageData);
      MapBitsBound(Pixels(l), mapBits);
      forall k | 0 <= k < Pixels(l) && cumProb[k] < cumProb[k + 1]
        ensures IndexToFace(l, k).face != -1
      {
        StepOnFace(lib, l, imageData, k);
      }
    }

    /** Cubemap.setScaleFactor. */
    method SetScaleFactor(s: real)
      modifies this
      ensures scaleFactor == s
      ensures width == old(width) && height == old(height) && blockSz == old(blockSz)
      ensures imageData == old(imageData) && cumProb == old(cumProb) && mapBits == old(mapBits)
    {
      scaleFactor := s;
    }

    /** Cubemap.eval: the radiance of the pixel a direction points at, times
        the scale factor. */
    method Eval(dir: Vector3d, outRadiance: Colord)
      requires Image(Shape(), imageData) && dir.v != Zero
      modifies outRadiance
      ensures outRadiance.c == CScale(DirRadiance(Shape(), imageData, dir.v), scaleFactor)
    {
      var l := Shape();
      var faceUV := DirToFace(dir.v);
      DirToFaceIndexInRange(l, dir.v);
      var k := FaceToIndex(l, faceUV);
      outRadiance.c := Color(imageData[3 * k], imageData[3 * k + 1], imageData[3 * k + 2]);
      outRadiance.c := CScale(outRadiance.c, scaleFactor);
    }

    /** The pixel a direction points at: faceToIndex of dirToFace. */
    function PixelOf(dir: Vec3): (k: int)
      reads this
      requires Image(Shape(), imageData) && dir != Zero
      ensures 0 <= k < Pixels(Shape())
    {
      DirToFaceIndexInRange(Shape(), dir);
      FaceToIndex(Shape(), DirToFace(dir))
    }

    /** Cubemap.pdf: the density of the pixel a direction points at, never
        negative, and zero exactly when that pixel has probability zero. */
    function Pdf(lib: Lib, dir: Vector3d): (p: real)
      reads this, cumProb, dir
      requires Lawful(lib) && Searchable() && dir.v != Zero
      ensures 0.0 <= p
      ensures p == 0.0 <==> cumProb[PixelOf(dir.v) + 1] == cumProb[PixelOf(dir.v)]
    {
      var k := PixelOf(dir.v);
      DensitySign(lib, Shape(), cumProb[k + 1] - cumProb[k], DirToFace(dir.v));
      CubemapTable.Pdf(lib, Shape(), cumProb[..], dir.v)
    }

    /** The pixel sample picks for the random number `x`. */
    function Pick(x: real): int
      reads this, cumProb
      requires 0 < cumProb.Length
    {
      LastBelow(cumProb[..], x, cumProb.Length - 1)
    }

    /** Cubemap.sample: a binary search of the table for seed.x picks pixel
        k, the one with cumProb[k] < seed.x <= cumProb[k+1], and the rest is
        as SampleOutcome says for that pixel.  The search is the checked one,
        which never reads past the table. */
    method Sample(lib: Lib, seed: Vec2, outDirection: Vector3d, outRadiance: Colord) returns (prob: real)
      requires Lawful(lib) && Searchable() && 0.0 < seed.x <= 1.0
      modifies outDirection, outRadiance
      ensures Pick(seed.x) < Pixels(Shape()) && IndexToFace(Shape(), Pick(seed.x)).face != -1
      ensures SampleOutcome(lib, Shape(), cumProb[..], imageData, scaleFactor, Pick(seed.x), seed,
                            old(outDirection.v), outDirection.v, outRadiance.c, prob)
    {
      var l := Shape();
      var searchProb := seed.x;
      var k := Search(cumProb, searchProb, mapBits);
      PickBrackets(cumProb[..], searchProb);
      var t := cumProb[..];
      ghost var table, data, scale := cumProb, imageData, scaleFactor;
      prob := SampleInPixel(lib, l, t, imageData, scaleFactor, k, seed, outDirection, outRadiance);
      assert cumProb == table && cumProb[..] == t;
      assert Shape() == l && imageData == data && scaleFactor == scale && Pick(seed.x) == k;
    }
  }

  /** What sample leaves for pixel k of layout l, with table t, image data
      and scale, when k brackets seed.x (t[k] < seed.x <= t[k+1]): seed.x is
      rescaled into the pixel (seedX), the pixel centre is jittered by seedX
      and seed.y and turned into the direction `dir` returned, the radiance
      `c` is the pixel's times `scale`, and the value `prob` returned is the
      density of the jittered point, which is pdf's density for `dir`, and
      eval finds that pixel's radiance along `dir`, whenever the jitter lies
      strictly inside the pixel. */
  ghost predicate SampleOutcome(lib: Lib, l: Layout, t: seq<real>, data: seq<real>, scale: real, k: int, seed: Vec2,
                                prior: Vec3, dir: Vec3, c: Color, prob: real)
  {
    && Lawful(lib) && Image(l, data) && |t| == Pixels(l) + 1
    && 0 <= k < Pixels(l) && t[k] < seed.x <= t[k + 1]
    && dir == SampleDir(lib, l, k, SeedX(t, seed.x, k), seed.y, prior)
    && c == CScale(Radiance(l, data, k), scale)
    && prob == Density(lib, l, t[k + 1] - t[k], Jitter(l, IndexToFace(l, k), SeedX(t, seed.x, k), seed.y))
    && (0.0 < seed.y < 1.0 && seed.x < t[k + 1] ==>
          dir != Zero && prob == Pdf(lib, l, t, dir) && DirRadiance(l, data, dir) == Radiance(l, data, k))
  }

  /** The part of sample after the search, for the pixel k. */
  method SampleInPixel(lib: Lib, l: Layout, t: seq<real>, data: seq<real>, scale: real, k: int, seed: Vec2,
                       outDirection: Vector3d, outRadiance: Colord) returns (prob: real)
    requires Lawful(lib) && Image(l, data) && |t| == Pixels(l) + 1
    requires 0 <= k < Pixels(l) && IndexToFace(l, k).face != -1 && t[k] < seed.x <= t[k + 1]
    modifies outDirection, outRadiance
    ensures SampleOutcome(lib, l, t, data, scale, k, seed, old(outDirection.v), outDirection.v, outRadiance.c, prob)
  {
    ghost var prior := outDirection.v;
    var seedX := SeedX(t, seed.x, k);
    var faceUV := Jitter(l, IndexToFace(l, k), seedX, seed.y);
    outDirection.v := FaceToDir(lib, faceUV, outDirection.v);
    outRadiance.c := CScale(Radiance(l, data, k), scale);
    prob := Density(lib, l, t[k + 1] - t[k], faceUV);
    if 0.0 < seed.y < 1.0 && seed.x < t[k + 1] {
      SampleMatchesPdf(lib, l, t, data, k, seedX, seed.y, prior);
    }
  }

  /** The search loop of sample, with the bounds check it needs: k
      collects, from the highest bit down, the bits of the last index whose
      entry lies below `x`, and a step that would read past the table is not
      taken.  Without the check the search can run past the table (see
      SearchAsWritten); with it, no face size needs a precondition. */
  method Search(t: array<real>, x: real, bits: int) returns (k: int)
    requires 2 <= t.Length && t[0] == 0.0 && t[t.Length - 1] == 1.0 && Monotone(t[..])
    requires 0.0 < x <= 1.0 && IsMapBits(t.Length - 1, bits) && bits <= 30
    ensures k == LastBelow(t[..], x, t.Length - 1)
  {
    var n := t.Length - 1;
    k := 0;
    var p := bits - 1;
    ghost var j := 0;
    ghost var ts := t[..];
    while p >= 0
      invariant -1 <= p < bits
      invariant 0 <= j && k == j * Pow2(p + 1)
      invariant 0 <= k < n
      invariant k == 0 || ts[k] < x
      invariant k + Pow2(p + 1) <= n ==> x <= ts[k + Pow2(p + 1)]
      decreases p
    {
      var step := Shl1(p);
      SearchStep(ts, x, n, j, k, p);
      if k + step <= n && x > t[k + step] {
        k := k + step;
        j := 2 * j + 1;
      } else {
        j := 2 * j;
      }
      p := p - 1;
    }
    BracketIsLastBelow(t[..], x, k);
  }

  /** One round of the search keeps its invariant: k is a multiple 2j * 2^p
      of the smaller block, and when the entry k + 2^p is in the table and
      below x, moving there keeps t[k] < x and x at or below the entry one
      block further on. */
  lemma SearchStep(t: seq<real>, x: real, n: int, j: int, k: int, p: nat)
    requires |t| == n + 1
    requires 0 <= j && k == j * Pow2(p + 1) && 0 <= k < n && x <= t[n]
    requires k == 0 || t[k] < x
    requires k + Pow2(p + 1) <= n ==> x <= t[k + Pow2(p + 1)]
    ensures k == (2 * j) * Pow2(p)
    ensures k + Pow2(p) <= n && x > t[k + Pow2(p)] ==>
              k + Pow2(p) == (2 * j + 1) * Pow2(p) && k + Pow2(p) < n
              && (k + Pow2(p) + Pow2(p) <= n ==> x <= t[k + Pow2(p) + Pow2(p)])
  {
    Halve(j, p);
    Pow2Succ(p);
  }

  /** The search loop of sample exactly as written, from k with the bits
      p .. 0 still to settle: Some of the index it ends with, or None when it
      reads an entry outside the table, where the array access throws.  The
      shift `1 << p` is 2^p here, since p stays below mapBits <= 30 (Shl1,
      MapBitsBound). */
  function SearchAsWritten(t: seq<real>, x: real, k: int, p: int): Option<int>
    requires p <= 30
    decreases if p < 0 then 0 else p + 1
  {
    if p < 0 then Some(k)
    else
      var i := k + Pow2(p);
      if i < 0 || |t| <= i then None
      else SearchAsWritten(t, x, if x > t[i] then i else k, p - 1)
  }

  /** The search's invariant with the bits p .. 0 still to settle: k is
      block j of size 2^(p+1), t[k] is below x (or k = 0), and x is at or
      below the entry one block further on when that entry is in the table. */
  predicate Bracket(t: seq<real>, x: real, n: int, j: int, k: int, p: int)
    requires -1 <= p
  {
    |t| == n + 1 && 0 <= j && k == j * Pow2(p + 1) && 0 <= k < n && x <= t[n]
    && (k == 0 || t[k] < x) && (k + Pow2(p + 1) <= n ==> x <= t[k + Pow2(p + 1)])
  }

  /** Where every block the search can settle stays inside the table (for
      instance with power-of-two faces, PowerOfTwoFaces), the search as
      written keeps the loop's invariant and ends with a pixel r bracketing
      x: t[r] < x (or r = 0) and x <= t[r+1]. */
  lemma {:induction false} SearchAsWrittenBrackets(t: seq<real>, x: real, n: int, bits: int, j: int, k: int, p: int)
    returns (r: int)
    requires SearchInBounds(n, bits) && -1 <= p < bits <= 30 && Bracket(t, x, n, j, k, p)
    ensures SearchAsWritten(t, x, k, p) == Some(r)
    ensures 0 <= r < n && (r == 0 || t[r] < x) && x <= t[r + 1]
    decreases p + 1
  {
    if p < 0 {
      AsWrittenEnd(t, x, n, j, k, p);
      r := k;
    } else {
      var j', k' := AsWrittenRound(t, x, n, bits, j, k, p);
      r := SearchAsWrittenBrackets(t, x, n, bits, j', k', p - 1);
    }
  }

  /** When no bit is left the search as written stops at k, which brackets x. */
  lemma AsWrittenEnd(t: seq<real>, x: real, n: int, j: int, k: int, p: int)
    requires p == -1 && Bracket(t, x, n, j, k, p)
    ensures SearchAsWritten(t, x, k, p) == Some(k) && x <= t[k + 1]
  {
    assert Pow2(0) == 1;
  }

  /** One round of the search as written, from block j at k to block j' at
      k': the entry it reads is in the table, and the invariant holds again
      one bit lower. */
  lemma AsWrittenRound(t: seq<real>, x: real, n: int, bits: int, j: int, k: int, p: int)
    returns (j': int, k': int)
    requires SearchInBounds(n, bits) && 0 <= p < bits <= 30 && Bracket(t, x, n, j, k, p)
    ensures SearchAsWritten(t, x, k, p) == SearchAsWritten(t, x, k', p - 1)
    ensures Bracket(t, x, n, j', k', p - 1)
  {
    var h := Pow2(p);
    assert Pow2(p - 1 + 1) == h;
    SearchStep(t, x, n, j, k, p);
    BlockInTable(n, bits, j, p);
    AsWrittenStep(t, x, k, p);
    if x > t[k + h] {
      j', k' := 2 * j + 1, k + h;
    } else {
      j', k' := 2 * j, k;
    }
  }

  lemma BlockInTable(n: int, bits: int, j: int, p: nat)
    requires SearchInBounds(n, bits) && p < bits && 0 <= j && Block(j, p) < n
    ensures Block(j, p) + Pow2(p) <= n
  {
  }

  /** One round of the search as written, when the entry it reads is in the
      table. */
  lemma AsWrittenStep(t: seq<real>, x: real, k: int, p: int)
    requires 0 <= p < 30 && 0 <= k && k + Pow2(p) < |t|
    ensures x > t[k + Pow2(p)] ==> SearchAsWritten(t, x, k, p) == SearchAsWritten(t, x, k + Pow2(p), p - 1)
    ensures x <= t[k + Pow2(p)] ==> SearchAsWritten(t, x, k, p) == SearchAsWritten(t, x, k, p - 1)
  {
  }

  /** From the start of the loop: with every block in the table, sample's
      search as written finds the pixel bracketing x. */
  lemma SearchAsWrittenFinds(t: seq<real>, x: real, bits: int)
    requires 2 <= |t| && t[0] == 0.0 && t[|t| - 1] == 1.0 && Monotone(t)
    requires 0.0 < x <= 1.0 && IsMapBits(|t| - 1, bits) && bits <= 30 && SearchInBounds(|t| - 1, bits)
    ensures SearchAsWritten(t, x, 0, bits - 1) == Some(LastBelow(t, x, |t| - 1))
  {
    var r := SearchAsWrittenBrackets(t, x, |t| - 1, bits, 0, 0, bits - 1);
    BracketIsLastBelow(t, x, r);
  }

  /** The search as written can read past the table: a 9 x 12 map (face side
      3) has 108 pixels and mapBits 7, and pixel 102 lies on face 2.  When
      that pixel's weight makes the table step up there, a random number
      above entry 96 settles k = 64, then k = 96, and the next read is entry
      112 of a table of 109. */
  lemma {:induction false} SearchRunsPastTable(t: seq<real>)
    requires |t| == 109 && t[0] == 0.0 && t[108] == 1.0 && Monotone(t) && t[102] < t[103]
    ensures IsMapBits(Pixels(Layout(9, 12, 3)), 7) && IndexToFace(Layout(9, 12, 3), 102).face == 2
    ensures var x := (t[96] + 1.0) / 2.0;
            0.0 < x < 1.0 && SearchAsWritten(t, x, 0, 6) == None
  {
    var x := (t[96] + 1.0) / 2.0;
    assert t[96] <= t[102] && t[103] <= t[108];
    assert t[0] <= t[64] <= t[96];
    assert Pow2(4) == 16 && Pow2(5) == 32 && Pow2(6) == 64 && Pow2(7) == 128;
    AsWrittenStep(t, x, 0, 6);
    AsWrittenStep(t, x, 64, 5);
    assert SearchAsWritten(t, x, 96, 4) == None;
  }

  lemma Halve(j: int, p: nat)
    ensures j * Pow2(p + 1) == (2 * j) * Pow2(p)
    ensures j * Pow2(p + 1) + Pow2(p) == (2 * j + 1) * Pow2(p)
  {
    Pow2Succ(p);
  }

  /** The first loop of setFilename, with calcPixelProb(k) supplied as
      ws[k]: entry k of the new table is the sum of the weights of pixels
      0 .. k-1. */
  method Accumulate(ws: seq<real>) returns (cum: array<real>)
    ensures fresh(cum) && cum.Length == |ws| + 1
    ensures forall j :: 0 <= j <= |ws| ==> cum[j] == Sum(ws, j)
  {
    var n := |ws|;
    cum := new real[n + 1];
    cum[0] := 0.0;
    var k := 1;
    while k <= n
      invariant 1 <= k <= n + 1
      invariant forall j :: 0 <= j < k ==> cum[j] == Sum(ws, j)
    {
      cum[k] := cum[k - 1] + ws[k - 1];
      k := k + 1;
    }
  }

  /** The running sums of `ws`, each divided by the last, are the normalised
      table of `ws`. */
  lemma DividedSums(ws: seq<real>, sums: seq<real>)
    requires 0.0 < Sum(ws, |ws|) && |sums| == |ws| + 1
    requires forall j :: 0 <= j <= |ws| ==> sums[j] == Sum(ws, j)
    ensures DividedByLast(sums) == Normalised(ws)
  {
    assert Sum(ws, 0) == 0.0;
  }

  /** Entries 1 .. n of `s` divided by its last entry n; entry 0 is kept. */
  function DividedByLast(s: seq<real>): (r: seq<real>)
    requires 1 <= |s| && s[|s| - 1] != 0.0
    ensures |r| == |s|
  {
    seq(|s|, j requires 0 <= j < |s| => if j == 0 then s[0] else s[j] / s[|s| - 1])
  }

  /** The second loop of setFilename: entries 1 .. n are divided in place by
      entry n.  Entry n is divided last, so every entry is divided by its
      original value. */
  method DivideByLast(a: array<real>)
    requires 1 <= a.Length && a[a.Length - 1] != 0.0
    modifies a
    ensures a[..] == DividedByLast(old(a[..]))
  {
    ghost var s := a[..];
    var n := a.Length - 1;
    var last := a[n];
    var k := 1;
    while k <= n
      invariant 1 <= k <= n + 1 && last == s[n]
      invariant a[0] == s[0]
      invariant forall j :: 1 <= j < k ==> a[j] == s[j] / last
      invariant forall j :: k <= j <= n ==> a[j] == s[j]
    {
      a[k] := a[k] / a[n];
      k := k + 1;
    }
    assert a[..] == DividedByLast(s);
  }

  /** The third loop of setFilename: mapBits counts up to the least m with
      2^m >= n. */
  method CountBits(n: int) returns (m: int)
    requires 0 < n && 3 * n <= IntMax
    ensures IsMapBits(n, m)
  {
    Pow2Thirty();
    m := 0;
    while Shl1(m) < n
      invariant 0 <= m <= 30
      invariant m == 0 || Pow2(m - 1) < n
      decreases 30 - m
    {
      m := m + 1;
    }
  }
}
