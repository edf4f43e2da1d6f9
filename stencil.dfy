/** The image wrapper `stencil_to_connected`: pixels darker than half of
    255 become 1 (black, to keep), the connected matrix is mapped back to
    0 (black) and 255 (white). */
module Stencil {
  import opened Lattice
  import opened ZeroComponents
  import opened Connect
  import opened Bridging

  /** `image < 255 / 2` as an integer: the pixel is below 127.5. */
  function ToZeroOne(v: int): (b: int)
    ensures b == 0 || b == 1
    ensures b == 1 <==> v <= 127
  {
    if 2 * v < 255 then 1 else 0
  }

  /** `(1 - b) * 255`. */
  function ToPixel(b: int): (p: int)
    ensures b == 0 ==> p == 255
    ensures b == 1 ==> p == 0
  {
    (1 - b) * 255
  }

  /** Mapping a 0/1 value to a pixel and thresholding it again gives the
      value back. */
  lemma PixelRoundTrip(b: int)
    requires b == 0 || b == 1
    ensures ToZeroOne(ToPixel(b)) == b
  {
  }

  /** Thresholding a pixel and mapping it back gives black or white by the
      same cut. */
  lemma ThresholdThenPixel(v: int)
    ensures ToPixel(ToZeroOne(v)) == if v <= 127 then 0 else 255
  {
  }

  predicate IsBinary(g: Grid)
  {
    forall x, y :: 0 <= x < |g| && 0 <= y < |g[x]| ==> g[x][y] == 0 || g[x][y] == 1
  }

  /** Elementwise threshold of an image. */
  function Threshold(g: Grid): (h: Grid)
    ensures SameShape(g, h) && IsBinary(h)
  {
    seq(|g|, x requires 0 <= x < |g| => seq(|g[x]|, y requires 0 <= y < |g[x]| => ToZeroOne(g[x][y])))
  }

  /** Elementwise mapping of a 0/1 matrix to pixels. */
  function ToImage(g: Grid): (h: Grid)
    ensures SameShape(g, h)
  {
    seq(|g|, x requires 0 <= x < |g| => seq(|g[x]|, y requires 0 <= y < |g[x]| => ToPixel(g[x][y])))
  }

  /** Thresholding the image of a 0/1 matrix gives the matrix back. */
  lemma ImageRoundTrip(g: Grid)
    requires IsBinary(g)
    ensures Threshold(ToImage(g)) == g
  {
    var h := Threshold(ToImage(g));
    assert |h| == |g|;
    forall x | 0 <= x < |g| ensures h[x] == g[x]
    {
      forall y | 0 <= y < |g[x]| ensures h[x][y] == g[x][y]
      {
        PixelRoundTrip(g[x][y]);
      }
    }
  }

  /** Filling small components with ones and carving zeros keeps a 0/1
      matrix a 0/1 matrix. */
  lemma ConnectKeepsBinary(g0: Grid, comps0: seq<seq<Cell>>, cleaned: Grid, g: Grid)
    requires IsBinary(g0) && CleanedBy(g0, comps0, cleaned) && SameShape(cleaned, g)
    requires forall x, y :: 0 <= x < |g| && 0 <= y < |g[x]| ==> g[x][y] == 0 || g[x][y] == cleaned[x][y]
    ensures IsBinary(g)
  {
  }

  /** A matrix of pixels that is the image of a 0/1 matrix thresholds back
      to that matrix. */
  lemma ThresholdOfImage(c: Grid, z: Grid)
    requires IsBinary(z) && SameShape(c, z)
    requires forall x, y :: 0 <= x < |z| && 0 <= y < |z[x]| ==> c[x][y] == ToPixel(z[x][y])
    ensures Threshold(c) == z
  {
    var t := ToImage(z);
    assert |c| == |t|;
    forall x | 0 <= x < |c| ensures c[x] == t[x]
    {
      assert |c[x]| == |t[x]|;
    }
    assert c == t;
    ImageRoundTrip(z);
  }

  /** `(image < 255 / 2).astype(int)`: a fresh 0/1 matrix, the threshold
      of the image. */
  method Binarize(image: array2<int>) returns (z: array2<int>)
    ensures fresh(z) && z.Length0 == image.Length0 && z.Length1 == image.Length1
    ensures Snapshot(z) == Threshold(Snapshot(image))
  {
    z := new int[image.Length0, image.Length1]((x, y) reads image =>
      if 0 <= x < image.Length0 && 0 <= y < image.Length1 then ToZeroOne(image[x, y]) else 0);
    GridsEqual(Snapshot(z), Threshold(Snapshot(image)));
  }

  /** `(1 - connected) * 255`: a fresh matrix of pixels, the image of the
      0/1 matrix. */
  method ToPixels(z: array2<int>) returns (p: array2<int>)
    ensures fresh(p) && p.Length0 == z.Length0 && p.Length1 == z.Length1
    ensures Snapshot(p) == ToImage(Snapshot(z))
  {
    p := new int[z.Length0, z.Length1]((x, y) reads z =>
      if 0 <= x < z.Length0 && 0 <= y < z.Length1 then ToPixel(z[x, y]) else 0);
    GridsEqual(Snapshot(p), ToImage(Snapshot(z)));
  }

  /** Thresholds `image`, runs the connection on the 0/1 matrix and maps
      the result back to pixels. The connection starts from the threshold
      of the image: `comps0` is its decomposition and `cleaned` the matrix
      after the cleanup of small components. The connected 0/1 matrix `z`
      differs from `cleaned` only by zeros written over it, `comps` is its
      decomposition, and there is at most one component exactly when the
      outcome is Connected. `grids` runs from `cleaned` to `z`, each matrix
      following from the one before by one bridging round. NoPairFound
      means that `borders`, the border sets of `comps`, holds no ordered
      pair of differing sets with a pair closer than InitialBound. The
      result is the image of `z`: black where `z` is 1, white where it is
      0. */
  method StencilToConnected(image: array2<int>, pathWidth: int)
    returns (outcome: Outcome, connected: array2<int>,
             ghost comps0: seq<seq<Cell>>, ghost cleaned: Grid, ghost z: Grid, ghost comps: seq<seq<Cell>>,
             ghost grids: seq<Grid>, ghost borders: seq<set<Cell>>)
    ensures fresh(connected) && connected.Length0 == image.Length0 && connected.Length1 == image.Length1
    ensures IsComponentList(Threshold(Snapshot(image)), comps0)
    ensures CleanedBy(Threshold(Snapshot(image)), comps0, cleaned)
    ensures SameShape(cleaned, z)
    ensures forall x, y :: 0 <= x < |z| && 0 <= y < |z[x]| ==> z[x][y] == 0 || z[x][y] == cleaned[x][y]
    ensures IsComponentList(z, comps)
    ensures outcome == Connected <==> |comps| <= 1
    ensures |grids| > 0 && grids[0] == cleaned && grids[|grids| - 1] == z
    ensures IsRun(grids, pathWidth, image.Length0, image.Length1)
    ensures outcome == NoPairFound ==>
              IsBorderList(z, comps, borders) &&
              forall a, b :: 0 <= a < |borders| && 0 <= b < |borders| ==> !Beats(borders, a, b, InitialBound)
    ensures Snapshot(connected) == ToImage(z)
    ensures forall x, y :: 0 <= x < connected.Length0 && 0 <= y < connected.Length1 ==>
              connected[x, y] == 0 || connected[x, y] == 255
    ensures Threshold(Snapshot(connected)) == z
  {
    var zeroOnes := Binarize(image);
    ghost var z0 := Snapshot(zeroOnes);
    var cs;
    outcome, cs, comps0, cleaned, borders, grids := ConnectAllZeros(zeroOnes, pathWidth);
    comps := cs;
    z := Snapshot(zeroOnes);
    ConnectKeepsBinary(z0, comps0, cleaned, z);
    connected := ToPixels(zeroOnes);
    ThresholdOfImage(Snapshot(connected), z);
  }
}
