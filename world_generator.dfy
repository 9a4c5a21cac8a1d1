/** The integer raster code and the cell classifier of
    tools/simulator/src/sim_cpp/world_generator.cpp: sampling the landscape
    image at each Voronoi site, the edge functions and clipped bounding box of
    `draw_triangle`, `plot`, the preview colours and the in-place vertical
    flip of the preview. Site positions arrive already mapped to pixel
    coordinates; the Voronoi diagram and the image loader are not modelled. */
module WorldGenerator {
  import opened Base
  import opened ImageLayout

  /** `VoronoiCellType`: NONE = 0, WATER = 1, LAND = 2, SHORE = 3,
      MOUNTAIN = 4. */
  datatype CellType = NoType | Water | Land | Shore | Mountain

  // ---------------------------------------------------------------------
  // Classification of the landscape image.

  /** The cell type of a sample from its first three channels. */
  function Classify(r: Byte, g: Byte, b: Byte): (t: CellType)
    ensures t == Water <==> r == 0 && g == 148 && b == 255
    ensures t == Mountain <==> r == 128 && g == 128 && b == 128
    ensures t != Water && t != Mountain ==> t == Land
  {
    if r == 38 && g == 127 && b == 0 then Land
    else if r == 0 && g == 148 && b == 255 then Water
    else if r == 128 && g == 128 && b == 128 then Mountain
    else Land
  }

  /** The classifier never leaves a cell without a type and never makes a
      shore. */
  lemma ClassifyNeverNoneOrShore(r: Byte, g: Byte, b: Byte)
    ensures Classify(r, g, b) != NoType && Classify(r, g, b) != Shore
  {
  }

  /** A Voronoi site as the classifier sees it: the cell it types and its
      pixel in the landscape image. */
  datatype SiteSample = SiteSample(index: nat, x: int, y: int)

  /** The first byte of the sample lies in the image, and two more follow. */
  predicate SampleReadable(image: seq<Byte>, width: int, channels: int, s: SiteSample)
  {
    0 <= SampleOffset(s.x, s.y, width, channels) && SampleOffset(s.x, s.y, width, channels) + 3 <= |image|
  }

  function SampleType(image: seq<Byte>, width: int, channels: int, s: SiteSample): CellType
    requires SampleReadable(image, width, channels, s)
  {
    var o := SampleOffset(s.x, s.y, width, channels);
    Classify(image[o], image[o + 1], image[o + 2])
  }

  /** In an image of three or more channels, the sample of every pixel the
      assertions admit is readable. */
  lemma SampleInImage(image: seq<Byte>, width: int, height: int, channels: int, s: SiteSample)
    requires 0 <= s.x < width && 0 <= s.y < height && channels >= 3
    requires |image| == width * height * channels
    ensures SampleReadable(image, width, channels, s)
  {
    SampleOffsetIsPixelIndex(s.x, s.y, width, channels);
    PixelInImage(s.x, s.y, 0, width, height, channels);
    PixelInImage(s.x, s.y, 2, width, height, channels);
  }

  /** The site loop of `generate_landscape_from_image`: each site's cell gets
      the type of its sample, and no other cell changes. */
  method ClassifySites(image: seq<Byte>, width: int, height: int, channels: int, sites: seq<SiteSample>,
                       cells: array<CellType>)
    requires forall j :: 0 <= j < |sites| ==> 0 <= sites[j].x < width && 0 <= sites[j].y < height
    requires forall j :: 0 <= j < |sites| ==> SampleReadable(image, width, channels, sites[j])
    requires forall j :: 0 <= j < |sites| ==> sites[j].index < cells.Length
    requires forall i, j :: 0 <= i < j < |sites| ==> sites[i].index != sites[j].index
    modifies cells
    ensures forall j :: 0 <= j < |sites| ==> cells[sites[j].index] == SampleType(image, width, channels, sites[j])
    ensures forall i :: 0 <= i < cells.Length && (forall j :: 0 <= j < |sites| ==> sites[j].index != i) ==>
      cells[i] == old(cells[i])
  {
    for n := 0 to |sites|
      invariant forall j :: 0 <= j < n ==> cells[sites[j].index] == SampleType(image, width, channels, sites[j])
      invariant forall i :: 0 <= i < cells.Length && (forall j :: 0 <= j < n ==> sites[j].index != i) ==>
        cells[i] == old(cells[i])
    {
      var site := sites[n];
      var o := SampleOffset(site.x, site.y, width, channels);
      var cellType;
      if image[o] == 38 && image[o + 1] == 127 && image[o + 2] == 0 {
        cellType := Land;
      } else if image[o] == 0 && image[o + 1] == 148 && image[o + 2] == 255 {
        cellType := Water;
      } else if image[o] == 128 && image[o + 1] == 128 && image[o + 2] == 128 {
        cellType := Mountain;
      } else {
        cellType := Land;
      }
      cells[site.index] := cellType;
    }
  }

  // ---------------------------------------------------------------------
  // Integer helpers.

  function Min2(a: int, b: int): (r: int)
    ensures r <= a && r <= b && (r == a || r == b)
  {
    if a < b then a else b
  }

  function Max2(a: int, b: int): (r: int)
    ensures r >= a && r >= b && (r == a || r == b)
  {
    if a > b then a else b
  }

  function Min3(a: int, b: int, c: int): (r: int)
    ensures r <= a && r <= b && r <= c && (r == a || r == b || r == c)
  {
    Min2(a, Min2(b, c))
  }

  function Max3(a: int, b: int, c: int): (r: int)
    ensures r >= a && r >= b && r >= c && (r == a || r == b || r == c)
  {
    Max2(a, Max2(b, c))
  }

  /** The `(int)` cast of a float: rounding toward zero. */
  function Trunc(v: real): (i: int)
    ensures v >= 0.0 ==> i as real <= v < i as real + 1.0
    ensures v < 0.0 ==> i as real - 1.0 < v <= i as real
  {
    if v >= 0.0 then v.Floor else -((-v).Floor)
  }

  /** `jcv_point`. */
  datatype Point = Point(x: real, y: real)

  /** The centre of pixel (x, y) as the raster loop names it. */
  function PixelPoint(x: int, y: int): Point
  {
    Point(x as real, y as real)
  }

  /** `orient2d`: twice the signed area of the triangle (a, b, c) on the
      truncated coordinates. */
  function Orient2d(a: Point, b: Point, c: Point): (r: int)
    ensures Trunc(a.x) == Trunc(b.x) && Trunc(a.y) == Trunc(b.y) ==> r == 0
    ensures Trunc(b.x) == Trunc(c.x) && Trunc(b.y) == Trunc(c.y) ==> r == 0
    ensures Trunc(c.x) == Trunc(a.x) && Trunc(c.y) == Trunc(a.y) ==> r == 0
  {
    (Trunc(b.x) - Trunc(a.x)) * (Trunc(c.y) - Trunc(a.y)) - (Trunc(b.y) - Trunc(a.y)) * (Trunc(c.x) - Trunc(a.x))
  }

  /** Rotating the corners keeps the orientation; swapping two negates it. */
  lemma Orient2dSymmetries(a: Point, b: Point, c: Point)
    ensures Orient2d(b, c, a) == Orient2d(a, b, c)
    ensures Orient2d(a, c, b) == -Orient2d(a, b, c)
  {
    var xa, ya, xb, yb, xc, yc := Trunc(a.x), Trunc(a.y), Trunc(b.x), Trunc(b.y), Trunc(c.x), Trunc(c.y);
    assert (xc - xb) * (ya - yb) - (yc - yb) * (xa - xb) == (xb - xa) * (yc - ya) - (yb - ya) * (xc - xa);
    assert (xc - xa) * (yb - ya) - (yc - ya) * (xb - xa) == -((xb - xa) * (yc - ya) - (yb - ya) * (xc - xa));
  }

  datatype Triangle = Triangle(v0: Point, v1: Point, v2: Point)

  /** The three edge functions of `draw_triangle` at a pixel add up to the
      triangle's own orientation. */
  lemma EdgeFunctionsSum(t: Triangle, x: int, y: int)
    ensures Orient2d(t.v1, t.v2, PixelPoint(x, y)) + Orient2d(t.v2, t.v0, PixelPoint(x, y)) + Orient2d(t.v0, t.v1, PixelPoint(x, y))
         == Orient2d(t.v0, t.v1, t.v2)
  {
    var xa, ya, xb, yb, xc, yc := Trunc(t.v0.x), Trunc(t.v0.y), Trunc(t.v1.x), Trunc(t.v1.y), Trunc(t.v2.x), Trunc(t.v2.y);
    assert Trunc(x as real) == x && Trunc(y as real) == y;
    assert (xc - xb) * (y - yb) - (yc - yb) * (x - xb)
         + ((xa - xc) * (y - yc) - (ya - yc) * (x - xc))
         + ((xb - xa) * (y - ya) - (yb - ya) * (x - xa))
        == (xb - xa) * (yc - ya) - (yb - ya) * (xc - xa);
  }

  /** The bounding box of `draw_triangle`, clipped to a `width` by `height`
      image. */
  function Left(t: Triangle): int
  {
    Max2(Min3(Trunc(t.v0.x), Trunc(t.v1.x), Trunc(t.v2.x)), 0)
  }

  function Top(t: Triangle): int
  {
    Max2(Min3(Trunc(t.v0.y), Trunc(t.v1.y), Trunc(t.v2.y)), 0)
  }

  function Right(t: Triangle, width: int): int
  {
    Min2(Max3(Trunc(t.v0.x), Trunc(t.v1.x), Trunc(t.v2.x)), width - 1)
  }

  function Bottom(t: Triangle, height: int): int
  {
    Min2(Max3(Trunc(t.v0.y), Trunc(t.v1.y), Trunc(t.v2.y)), height - 1)
  }

  /** Pixel (x, y) is on or inside all three edges. */
  predicate Inside(t: Triangle, x: int, y: int)
  {
    && Orient2d(t.v1, t.v2, PixelPoint(x, y)) >= 0
    && Orient2d(t.v2, t.v0, PixelPoint(x, y)) >= 0
    && Orient2d(t.v0, t.v1, PixelPoint(x, y)) >= 0
  }

  /** `draw_triangle` plots pixel (x, y): the triangle is not degenerate,
      the pixel lies in the clipped box, and on or inside all edges. */
  predicate Covers(t: Triangle, width: int, height: int, x: int, y: int)
  {
    && Orient2d(t.v0, t.v1, t.v2) != 0
    && Left(t) <= x <= Right(t, width) && Top(t) <= y <= Bottom(t, height)
    && Inside(t, x, y)
  }

  /** Every plotted pixel lies in the image and in the triangle's own
      bounding box. */
  lemma CoversWithin(t: Triangle, width: int, height: int, x: int, y: int)
    requires Covers(t, width, height, x, y)
    ensures 0 <= x < width && 0 <= y < height
    ensures Min3(Trunc(t.v0.x), Trunc(t.v1.x), Trunc(t.v2.x)) <= x <= Max3(Trunc(t.v0.x), Trunc(t.v1.x), Trunc(t.v2.x))
    ensures Min3(Trunc(t.v0.y), Trunc(t.v1.y), Trunc(t.v2.y)) <= y <= Max3(Trunc(t.v0.y), Trunc(t.v1.y), Trunc(t.v2.y))
  {
  }

  /** A triangle of negative orientation plots nothing: its three edge
      functions add up to a negative number, so one of them is negative. */
  lemma {:induction false} NegativeOrientationDrawsNothing(t: Triangle, width: int, height: int, x: int, y: int)
    requires Orient2d(t.v0, t.v1, t.v2) < 0
    ensures !Covers(t, width, height, x, y)
  {
    EdgeFunctionsSum(t, x, y);
  }

  // ---------------------------------------------------------------------
  // Plotting into a byte image of `nchannels` channels per pixel.

  /** `plot`: a pixel outside the image is ignored; otherwise its
      `nchannels` bytes become the colour and no other byte changes. */
  method Plot(x: int, y: int, image: array<Byte>, width: int, height: int, nchannels: int, color: seq<Byte>)
    requires nchannels <= |color|
    requires 0 <= x < width && 0 <= y < height && nchannels > 0 ==>
      PixelIndex(x, y, width, nchannels) + nchannels <= image.Length
    modifies image
    ensures forall k :: 0 <= k < image.Length ==>
      image[k] == if 0 <= x < width && 0 <= y < height && PixelIndex(x, y, width, nchannels) <= k < PixelIndex(x, y, width, nchannels) + nchannels
                  then color[k - PixelIndex(x, y, width, nchannels)] else old(image[k])
  {
    if x < 0 || y < 0 || x > width - 1 || y > height - 1 {
      return;
    }
    var index := y * width * nchannels + x * nchannels;
    if nchannels > 0 {
      PixelInImage(x, y, 0, width, height, nchannels);
    }
    var i := 0;
    while i < nchannels
      invariant 0 <= i && (i <= nchannels || i == 0)
      invariant forall k :: 0 <= k < image.Length ==>
        image[k] == if index <= k < index + i then color[k - index] else old(image[k])
    {
      image[index + i] := color[i];
      i := i + 1;
    }
  }

  /** Byte `k` belongs to a pixel `draw_triangle` plots. */
  predicate Painted(k: int, t: Triangle, width: int, height: int, nchannels: int)
  {
    nchannels > 0 && width > 0 && k >= 0 && Covers(t, width, height, Column(k, width, nchannels), Line(k, width, nchannels))
  }

  /** The image after `draw_triangle`: every byte of every plotted pixel
      holds its channel of the colour, every other byte is as before. */
  function Drawn(s: seq<Byte>, t: Triangle, width: int, height: int, nchannels: int, color: seq<Byte>): (r: seq<Byte>)
    requires nchannels <= |color|
    ensures |r| == |s|
  {
    seq(|s|, k requires 0 <= k < |s| => if Painted(k, t, width, height, nchannels) then color[k % nchannels] else s[k])
  }

  /** The raster loop has handled every pixel of the clipped box before (x, y)
      in row order. */
  ghost predicate DrawnUpTo(cur: seq<Byte>, before: seq<Byte>, t: Triangle, width: int, height: int, nchannels: int,
                            color: seq<Byte>, x: int, y: int)
    requires nchannels <= |color|
  {
    && |cur| == |before|
    && forall k :: 0 <= k < |cur| ==>
      cur[k] == if Painted(k, t, width, height, nchannels)
                   && (Line(k, width, nchannels) < y || (Line(k, width, nchannels) == y && Column(k, width, nchannels) < x))
                then color[k % nchannels] else before[k]
  }

  /** One pixel of the raster loop: plotted when it is inside, skipped
      otherwise. */
  lemma DrawPixel(cur: seq<Byte>, next: seq<Byte>, before: seq<Byte>, t: Triangle, width: int, height: int,
                  nchannels: int, color: seq<Byte>, x: int, y: int)
    requires nchannels <= |color| && width > 0
    requires Orient2d(t.v0, t.v1, t.v2) != 0
    requires Left(t) <= x <= Right(t, width) && Top(t) <= y <= Bottom(t, height)
    requires DrawnUpTo(cur, before, t, width, height, nchannels, color, x, y)
    requires |next| == |cur|
    requires forall k :: 0 <= k < |next| ==>
      next[k] == if Inside(t, x, y) && PixelIndex(x, y, width, nchannels) <= k < PixelIndex(x, y, width, nchannels) + nchannels
                 then color[k - PixelIndex(x, y, width, nchannels)] else cur[k]
    ensures DrawnUpTo(next, before, t, width, height, nchannels, color, x + 1, y)
  {
    forall k | 0 <= k < |next|
      ensures next[k] == if Painted(k, t, width, height, nchannels)
                   && (Line(k, width, nchannels) < y || (Line(k, width, nchannels) == y && Column(k, width, nchannels) < x + 1))
                then color[k % nchannels] else before[k]
    {
      if nchannels > 0 {
        PixelOfByte(k, x, y, width, nchannels);
      }
    }
  }

  /** A row of the raster loop is done once its column passes the box. */
  lemma DrawRow(cur: seq<Byte>, before: seq<Byte>, t: Triangle, width: int, height: int, nchannels: int,
                color: seq<Byte>, x: int, y: int)
    requires nchannels <= |color|
    requires x > Right(t, width)
    requires DrawnUpTo(cur, before, t, width, height, nchannels, color, x, y)
    ensures DrawnUpTo(cur, before, t, width, height, nchannels, color, Left(t), y + 1)
  {
  }

  /** `draw_triangle`. */
  method DrawTriangle(t: Triangle, image: array<Byte>, width: int, height: int, nchannels: int, color: seq<Byte>)
    requires nchannels <= |color|
    requires nchannels > 0 && width > 0 && height > 0 ==> width * height * nchannels <= image.Length
    modifies image
    ensures image[..] == Drawn(old(image[..]), t, width, height, nchannels, color)
  {
    var area := Orient2d(t.v0, t.v1, t.v2);
    if area == 0 {
      assert image[..] == Drawn(image[..], t, width, height, nchannels, color);
      return;
    }
    var minX := Min3(Trunc(t.v0.x), Trunc(t.v1.x), Trunc(t.v2.x));
    var minY := Min3(Trunc(t.v0.y), Trunc(t.v1.y), Trunc(t.v2.y));
    var maxX := Max3(Trunc(t.v0.x), Trunc(t.v1.x), Trunc(t.v2.x));
    var maxY := Max3(Trunc(t.v0.y), Trunc(t.v1.y), Trunc(t.v2.y));
    minX := Max2(minX, 0);
    minY := Max2(minY, 0);
    maxX := Min2(maxX, width - 1);
    maxY := Min2(maxY, height - 1);
    ghost var before := image[..];
    var y := minY;
    while y <= maxY
      invariant minY <= y && (y <= maxY + 1 || y == minY)
      invariant DrawnUpTo(image[..], before, t, width, height, nchannels, color, minX, y)
    {
      var x := minX;
      while x <= maxX
        invariant minX <= x && (x <= maxX + 1 || x == minX)
        invariant DrawnUpTo(image[..], before, t, width, height, nchannels, color, x, y)
      {
        var p := PixelPoint(x, y);
        var w0 := Orient2d(t.v1, t.v2, p);
        var w1 := Orient2d(t.v2, t.v0, p);
        var w2 := Orient2d(t.v0, t.v1, p);
        ghost var cur := image[..];
        if w0 >= 0 && w1 >= 0 && w2 >= 0 {
          if nchannels > 0 {
            PixelInImage(x, y, nchannels - 1, width, height, nchannels);
          }
          Plot(x, y, image, width, height, nchannels, color);
        }
        DrawPixel(cur, image[..], before, t, width, height, nchannels, color, x, y);
        x := x + 1;
      }
      DrawRow(image[..], before, t, width, height, nchannels, color, x, y);
      y := y + 1;
    }
    assert image[..] == Drawn(before, t, width, height, nchannels, color);
  }

  // ---------------------------------------------------------------------
  // The vertical flip of the preview, row by row through a scratch row.

  /** `d` with its `n` bytes from `dOffset` replaced by the `n` bytes of `s`
      from `sOffset`. */
  function Overwrite(d: seq<Byte>, dOffset: int, s: seq<Byte>, sOffset: int, n: int): (r: seq<Byte>)
    requires 0 <= n && 0 <= dOffset && dOffset + n <= |d| && 0 <= sOffset && sOffset + n <= |s|
    ensures |r| == |d|
  {
    seq(|d|, k requires 0 <= k < |d| => if dOffset <= k < dOffset + n then s[sOffset + (k - dOffset)] else d[k])
  }

  /** `memcpy`: `n` bytes from `src` at `srcOffset` to `dst` at `dstOffset`;
      the two ranges must not overlap. */
  method CopyBytes(dst: array<Byte>, dstOffset: int, src: array<Byte>, srcOffset: int, n: int)
    requires 0 <= n && 0 <= dstOffset && dstOffset + n <= dst.Length && 0 <= srcOffset && srcOffset + n <= src.Length
    requires dst == src ==> dstOffset + n <= srcOffset || srcOffset + n <= dstOffset
    modifies dst
    ensures dst[..] == Overwrite(old(dst[..]), dstOffset, old(src[..]), srcOffset, n)
  {
    for i := 0 to n
      invariant forall k :: 0 <= k < dst.Length ==>
        dst[k] == if dstOffset <= k < dstOffset + i then old(src[srcOffset + (k - dstOffset)]) else old(dst[k])
      invariant dst != src ==> src[..] == old(src[..])
    {
      dst[dstOffset + i] := src[srcOffset + i];
    }
    assert dst[..] == Overwrite(old(dst[..]), dstOffset, old(src[..]), srcOffset, n);
  }

  /** The three copies of one turn of the flip loop exchange the row at `top`
      with the row at `bottom`. */
  lemma SwapRows(cur: seq<Byte>, scratch: seq<Byte>, stride: int, top: int, bottom: int)
    requires 0 <= stride && |scratch| == stride && 0 <= top && top + stride <= bottom && bottom + stride <= |cur|
    ensures var next := Overwrite(Overwrite(cur, top, cur, bottom, stride), bottom, Overwrite(scratch, 0, cur, top, stride), 0, stride);
      forall k {:trigger next[k]} :: 0 <= k < |next| ==>
        next[k] == if top <= k < top + stride then cur[bottom + (k - top)]
                   else if bottom <= k < bottom + stride then cur[top + (k - bottom)]
                   else cur[k]
  {
  }

  /** The rows above `y` and below `height - 1 - y` hold their mirror rows;
      the rows between are untouched. */
  ghost predicate FlippedUpTo(cur: seq<Byte>, orig: seq<Byte>, stride: int, height: int, y: int)
    requires stride > 0 && height >= 0 && |orig| == height * stride
  {
    && |cur| == |orig|
    && forall k :: 0 <= k < |cur| ==>
      cur[k] == if k / stride < y || k / stride > height - 1 - y then orig[FlipIndex(k, stride, height)] else orig[k]
  }

  /** Before the first turn nothing has moved. */
  lemma FlipStart(orig: seq<Byte>, stride: int, height: int)
    requires stride > 0 && height >= 0 && |orig| == height * stride
    ensures FlippedUpTo(orig, orig, stride, height, 0)
  {
    forall k | 0 <= k < |orig| ensures 0 <= k / stride <= height - 1 {
      RowOf(k, stride, height);
    }
  }

  /** One turn of the flip loop swaps row `y`, at `top`, with its mirror row,
      at `bottom`. */
  lemma FlipStep(cur: seq<Byte>, next: seq<Byte>, orig: seq<Byte>, stride: int, height: int, y: int, top: int, bottom: int)
    requires stride > 0 && height >= 0 && |orig| == height * stride
    requires 0 <= y < height / 2 && top == y * stride && bottom == (height - 1 - y) * stride
    requires 0 <= top && top + stride <= bottom && bottom + stride <= |orig|
    requires FlippedUpTo(cur, orig, stride, height, y)
    requires |next| == |cur|
    requires forall k {:trigger next[k]} :: 0 <= k < |next| ==>
      next[k] == if top <= k < top + stride then cur[bottom + (k - top)]
                 else if bottom <= k < bottom + stride then cur[top + (k - bottom)]
                 else cur[k]
    ensures FlippedUpTo(next, orig, stride, height, y + 1)
  {
    var m := height - 1 - y;
    forall k | 0 <= k < |next|
      ensures next[k] == if k / stride < y + 1 || k / stride > height - 1 - (y + 1)
                         then orig[FlipIndex(k, stride, height)] else orig[k]
    {
      InRow(k, y, stride, height);
      InRow(k, m, stride, height);
      RowOf(k, stride, height);
      if k / stride == y {
        var c := k - top;
        FlipIndexAt(y, c, stride, height);
        InRow(bottom + c, m, stride, height);
        assert top <= k < top + stride;
        assert next[k] == cur[bottom + c];
        assert cur[bottom + c] == orig[bottom + c];
        assert FlipIndex(k, stride, height) == bottom + c;
      } else if k / stride == m {
        var c := k - bottom;
        FlipIndexAt(m, c, stride, height);
        InRow(top + c, y, stride, height);
        assert next[k] == cur[top + c];
        assert cur[top + c] == orig[top + c];
        assert FlipIndex(k, stride, height) == top + c;
      } else {
        assert next[k] == cur[k];
      }
    }
  }

  /** After `height / 2` turns every row holds its mirror row; the middle
      row of an odd height is its own mirror. */
  lemma FlipDone(cur: seq<Byte>, orig: seq<Byte>, stride: int, height: int)
    requires stride > 0 && height >= 0 && |orig| == height * stride
    requires FlippedUpTo(cur, orig, stride, height, height / 2)
    ensures cur == Flipped(orig, stride, height)
  {
    forall k | 0 <= k < |cur| ensures cur[k] == Flipped(orig, stride, height)[k] {
      RowOf(k, stride, height);
      var r := k / stride;
      if !(r < height / 2 || r > height - 1 - height / 2) {
        assert r == height - 1 - r;
        FlipIndexAt(r, k % stride, stride, height);
      }
    }
  }

  /** The flip loop of `generate_landscape_preview`. */
  method FlipRows(image: array<Byte>, stride: int, height: int)
    requires stride >= 0 && height >= 0 && image.Length == stride * height
    modifies image
    ensures stride > 0 ==> image[..] == Flipped(old(image[..]), stride, height)
  {
    var row := new Byte[stride];
    ghost var orig := image[..];
    var y := 0;
    if stride > 0 {
      FlipStart(orig, stride, height);
    }
    while y < height / 2
      invariant 0 <= y <= height / 2 && image.Length == stride * height
      invariant stride > 0 ==> FlippedUpTo(image[..], orig, stride, height, y)
    {
      ghost var cur, scratch := image[..], row[..];
      var top, bottom := y * stride, (height - 1 - y) * stride;
      MulLe(y + 1, height - 1 - y, stride);
      MulLe(height - y, height, stride);
      CopyBytes(row, 0, image, top, stride);
      CopyBytes(image, top, image, bottom, stride);
      CopyBytes(image, bottom, row, 0, stride);
      SwapRows(cur, scratch, stride, top, bottom);
      if stride > 0 {
        FlipStep(cur, image[..], orig, stride, height, y, top, bottom);
      }
      y := y + 1;
    }
    if stride > 0 {
      FlipDone(image[..], orig, stride, height);
    }
  }

  /** Flipping the preview twice gives back the image. */
  lemma FlippedTwice(s: seq<Byte>, stride: int, height: int)
    requires stride > 0 && height >= 0 && |s| == height * stride
    ensures Flipped(Flipped(s, stride, height), stride, height) == s
  {
    forall k | 0 <= k < |s| ensures Flipped(Flipped(s, stride, height), stride, height)[k] == s[k] {
      FlipIndexInvolutive(k, stride, height);
    }
  }

  // ---------------------------------------------------------------------
  // The landscape preview: one triangle per Voronoi edge, from the site to
  // the edge's two ends, in the colour of the site's cell; then the flip.

  /** The land, water and shore colours of the preview: the float colours
      scaled by 255 and truncated. */
  const LandColour: seq<Byte> := [38, 127, 0]
  const WaterColour: seq<Byte> := [0, 127, 255]
  const ShoreColour: seq<Byte> := [255, 0, 0]

  /** The RGBA colour of a site's triangles. `shade` is the cell's noise
      value scaled by 255 and truncated; stored into a byte it is taken
      modulo 256. Mountains and untyped cells are drawn in that grey. */
  function SiteColour(cellType: CellType, shade: int): (c: seq<Byte>)
    ensures |c| == 4 && c[3] == 255
    ensures cellType == Land ==> c[..3] == LandColour
    ensures cellType == Water ==> c[..3] == WaterColour
    ensures cellType == Shore ==> c[..3] == ShoreColour
    ensures (c[0] == c[1] == c[2]) <==> cellType == Mountain || cellType == NoType
    ensures cellType == Mountain || cellType == NoType ==> c[0] == shade % 256
  {
    var grey := shade % 256;
    match cellType
    case Land => LandColour + [255]
    case Water => WaterColour + [255]
    case Shore => ShoreColour + [255]
    case _ => [grey, grey, grey, 255]
  }

  /** `jcv_graphedge`: the two ends of a Voronoi edge, in pixels. */
  datatype Edge = Edge(p0: Point, p1: Point)

  /** A Voronoi site as the preview sees it: its cell's type and shade,
      its position in pixels and its edges in list order. */
  datatype Site = Site(cellType: CellType, shade: int, centre: Point, edges: seq<Edge>)

  /** `s` after the triangles of `edges` around `centre`, in order, on a
      `width` by `height` RGBA image. */
  function PaintEdges(s: seq<Byte>, centre: Point, edges: seq<Edge>, width: int, height: int, colour: seq<Byte>): (r: seq<Byte>)
    requires |colour| == 4
    ensures |r| == |s|
  {
    if edges == [] then s
    else
      var e := edges[|edges| - 1];
      Drawn(PaintEdges(s, centre, edges[..|edges| - 1], width, height, colour), Triangle(centre, e.p0, e.p1), width, height, 4, colour)
  }

  /** `s` after every site's triangles, in site order. */
  function PaintSites(s: seq<Byte>, sites: seq<Site>, width: int, height: int): (r: seq<Byte>)
    ensures |r| == |s|
  {
    if sites == [] then s
    else
      var site := sites[|sites| - 1];
      PaintEdges(PaintSites(s, sites[..|sites| - 1], width, height), site.centre, site.edges, width, height,
                 SiteColour(site.cellType, site.shade))
  }

  /** The zeroed buffer `memset` leaves. */
  function Blank(n: nat): (s: seq<Byte>)
    ensures |s| == n && forall k :: 0 <= k < n ==> s[k] == 0
  {
    seq(n, _ => 0)
  }

  /** The triangles of one site, edge by edge. */
  method DrawSite(site: Site, image: array<Byte>, width: nat, height: nat)
    requires image.Length == width * height * 4
    modifies image
    ensures image[..] == PaintEdges(old(image[..]), site.centre, site.edges, width, height, SiteColour(site.cellType, site.shade))
  {
    var colour := SiteColour(site.cellType, site.shade);
    ghost var start := image[..];
    for j := 0 to |site.edges|
      invariant image[..] == PaintEdges(start, site.centre, site.edges[..j], width, height, colour)
    {
      var e := site.edges[j];
      DrawTriangle(Triangle(site.centre, e.p0, e.p1), image, width, height, 4, colour);
      assert site.edges[..j + 1][..j] == site.edges[..j];
    }
    assert site.edges[..|site.edges|] == site.edges;
  }

  /** `generate_landscape_preview` with the image height passed to
      `draw_triangle`: a zeroed RGBA buffer, every site's triangles, then
      the rows reversed so that the first row is the top of the map. */
  method GenerateLandscapePreview(sites: seq<Site>, width: nat, height: nat) returns (image: array<Byte>)
    ensures fresh(image) && image.Length == width * height * 4
    ensures width > 0 ==> image[..] == Flipped(PaintSites(Blank(width * height * 4), sites, width, height), width * 4, height)
  {
    image := new Byte[width * height * 4](_ => 0);
    assert image[..] == Blank(width * height * 4);
    DrawSites(sites, image, width, height);
    PreviewStride(width, height);
    FlipRows(image, width * 4, height);
  }

  lemma PreviewStride(width: nat, height: nat)
    ensures width * height * 4 == (width * 4) * height
  {
  }

  /** The loop over the sites of `generate_landscape_preview`. */
  method DrawSites(sites: seq<Site>, image: array<Byte>, width: nat, height: nat)
    requires image.Length == width * height * 4
    modifies image
    ensures image[..] == PaintSites(old(image[..]), sites, width, height)
  {
    ghost var start := image[..];
    for i := 0 to |sites|
      invariant image[..] == PaintSites(start, sites[..i], width, height)
    {
      DrawSite(sites[i], image, width, height);
      assert sites[..i + 1][..i] == sites[..i];
    }
    assert sites[..|sites|] == sites;
  }

  /** Every alpha byte of the preview is 0, where no triangle reached its
      pixel, or 255, where one did. */
  lemma {:induction false} PaintEdgesAlpha(s: seq<Byte>, centre: Point, edges: seq<Edge>, width: int, height: int, colour: seq<Byte>, k: int)
    requires |colour| == 4 && colour[3] == 255
    requires 0 <= k < |s| && k % 4 == 3 && (s[k] == 0 || s[k] == 255)
    ensures var r := PaintEdges(s, centre, edges, width, height, colour); r[k] == 0 || r[k] == 255
  {
    if edges != [] {
      PaintEdgesAlpha(s, centre, edges[..|edges| - 1], width, height, colour, k);
    }
  }

  lemma {:induction false} PreviewAlpha(sites: seq<Site>, width: int, height: int, n: nat, k: int)
    requires 0 <= k < n && k % 4 == 3
    ensures var r := PaintSites(Blank(n), sites, width, height); r[k] == 0 || r[k] == 255
  {
    if sites != [] {
      var site := sites[|sites| - 1];
      PreviewAlpha(sites[..|sites| - 1], width, height, n, k);
      PaintEdgesAlpha(PaintSites(Blank(n), sites[..|sites| - 1], width, height), site.centre, site.edges, width, height,
                      SiteColour(site.cellType, site.shade), k);
    }
  }

  /** With the height it should have, `draw_triangle` only plots bytes of
      the `width` by `height` RGBA buffer. */
  lemma PreviewPlotsInBuffer(t: Triangle, width: int, height: int, x: int, y: int, c: int)
    requires Covers(t, width, height, x, y) && 0 <= c < 4
    ensures 0 <= PixelIndex(x, y, width, 4) + c < width * height * 4
  {
    CoversWithin(t, width, height, x, y);
    PixelInImage(x, y, c, width, height, 4);
  }

  /** As written, the preview passes the image width as the height of
      `draw_triangle`. On a 2 by 1 preview the triangle (0, 0), (2, 0),
      (0, 1), whose corners all lie in the scaled diagram's range, then plots
      pixel (0, 1), whose bytes start past the end of the 8-byte buffer. */
  lemma AsWrittenPreviewOverruns()
    ensures var t := Triangle(Point(0.0, 0.0), Point(2.0, 0.0), Point(0.0, 1.0));
      var width, height := 2, 1;
      Covers(t, width, width, 0, 1) && PixelIndex(0, 1, width, 4) >= width * height * 4
  {
  }
}
