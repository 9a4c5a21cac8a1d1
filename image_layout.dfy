/** The byte layout of the images tools/simulator/src/sim_cpp/world_generator.cpp
    reads and draws: pixels row by row from the first row, each pixel
    `nchannels` consecutive bytes. The index arithmetic of the sampler, of
    `plot` and of the row flip lives here with the facts that tie a byte back
    to its pixel. */
module ImageLayout {

  /** Division with a remainder in range determines quotient and remainder. */
  lemma DivModOf(n: int, d: int, q: int, r: int)
    requires d > 0 && 0 <= r < d && n == q * d + r
    ensures n / d == q && n % d == r
  {
    var q', r' := n / d, n % d;
    assert n == q' * d + r';
    if q' < q {
      MulAtLeast(q - q', d);
      assert false;
    } else if q' > q {
      MulAtLeast(q' - q, d);
      assert false;
    }
  }

  lemma MulAtLeast(a: int, d: int)
    requires a >= 1 && d > 0
    ensures a * d >= d
  {
  }

  /** A row-major slot `r * stride + c` with `c < stride` lies in the buffer
      of `height` rows exactly when `r` is a row. */
  lemma SlotBound(r: int, c: int, stride: int, height: int)
    requires 0 <= r < height && 0 <= c < stride
    ensures 0 <= r * stride + c < height * stride
  {
    assert r * stride <= (height - 1) * stride by { MulLe(r, height - 1, stride); }
  }

  lemma MulLe(a: int, b: int, d: int)
    requires a <= b && d >= 0
    ensures a * d <= b * d
  {
  }

  /** Every byte of a buffer of `height` rows is a slot of one of its rows. */
  lemma RowOf(k: int, stride: int, height: int)
    requires stride > 0 && 0 <= k < height * stride
    ensures 0 <= k / stride < height && 0 <= k % stride < stride
    ensures k == k / stride * stride + k % stride
  {
    if k / stride >= height {
      MulLe(height, k / stride, stride);
    }
  }

  /** Where `plot` writes the first channel of pixel (x, y). */
  function PixelIndex(x: int, y: int, width: int, nchannels: int): int
  {
    y * width * nchannels + x * nchannels
  }

  /** Where the sampler of `generate_landscape_from_image` reads pixel
      (x, y). */
  function SampleOffset(x: int, y: int, width: int, channels: int): int
  {
    (x + y * width) * channels
  }

  /** The sampler and the plotter agree on where a pixel lies. */
  lemma SampleOffsetIsPixelIndex(x: int, y: int, width: int, channels: int)
    ensures SampleOffset(x, y, width, channels) == PixelIndex(x, y, width, channels)
  {
    assert (x + y * width) * channels == x * channels + (y * width) * channels;
  }

  /** The pixel whose bytes hold byte `k`: its column and its row. */
  function Column(k: int, width: int, nchannels: int): int
    requires width > 0 && nchannels > 0
  {
    (k / nchannels) % width
  }

  function Line(k: int, width: int, nchannels: int): int
    requires width > 0 && nchannels > 0
  {
    (k / nchannels) / width
  }

  /** The bytes of pixel (x, y) are exactly the bytes whose pixel is (x, y),
      and byte `k` of them is channel `k % nchannels`. */
  lemma PixelOfByte(k: int, x: int, y: int, width: int, nchannels: int)
    requires width > 0 && nchannels > 0 && 0 <= x < width && 0 <= y
    ensures (PixelIndex(x, y, width, nchannels) <= k < PixelIndex(x, y, width, nchannels) + nchannels)
        <==> (Column(k, width, nchannels) == x && Line(k, width, nchannels) == y)
    ensures PixelIndex(x, y, width, nchannels) <= k < PixelIndex(x, y, width, nchannels) + nchannels
        ==> k % nchannels == k - PixelIndex(x, y, width, nchannels)
  {
    var p := y * width + x;
    assert PixelIndex(x, y, width, nchannels) == p * nchannels by {
      assert p * nchannels == (y * width) * nchannels + x * nchannels;
    }
    assert p / width == y && p % width == x by {
      DivModOf(p, width, y, x);
    }
    if p * nchannels <= k < p * nchannels + nchannels {
      DivModOf(k, nchannels, p, k - p * nchannels);
    }
    if Column(k, width, nchannels) == x && Line(k, width, nchannels) == y {
      SlotOfPixel(k, p, width, nchannels);
    }
  }

  /** A byte whose pixel number is `p` lies in the `nchannels` bytes from
      `p * nchannels`. */
  lemma SlotOfPixel(k: int, p: int, width: int, nchannels: int)
    requires width > 0 && nchannels > 0
    requires (k / nchannels) / width == p / width && (k / nchannels) % width == p % width
    ensures p * nchannels <= k < p * nchannels + nchannels
  {
    var q := k / nchannels;
    assert q == p by {
      assert q == q / width * width + q % width;
      assert p == p / width * width + p % width;
    }
    assert k == q * nchannels + k % nchannels;
  }

  /** The bytes of a pixel of a `width` by `height` image of `nchannels`
      channels lie in its `width * height * nchannels` bytes. */
  lemma PixelInImage(x: int, y: int, c: int, width: int, height: int, nchannels: int)
    requires 0 <= x < width && 0 <= y < height && 0 <= c < nchannels
    ensures 0 <= PixelIndex(x, y, width, nchannels) + c < width * height * nchannels
  {
    var p := y * width + x;
    SlotBound(y, x, width, height);
    SlotBound(p, c, nchannels, height * width);
    assert PixelIndex(x, y, width, nchannels) + c == p * nchannels + c by {
      assert p * nchannels == (y * width) * nchannels + x * nchannels;
    }
    assert height * width * nchannels == width * height * nchannels;
  }

  // ---------------------------------------------------------------------
  // The vertical flip: row r of the result is row `height - 1 - r`.

  /** The byte that moves to slot `k` when the rows are reversed. */
  function FlipIndex(k: int, stride: int, height: int): (j: int)
    requires stride > 0 && 0 <= k < height * stride
    ensures 0 <= j < height * stride
  {
    RowOf(k, stride, height);
    SlotBound(height - 1 - k / stride, k % stride, stride, height);
    (height - 1 - k / stride) * stride + k % stride
  }

  /** Slot `c` of row `r` receives slot `c` of row `height - 1 - r`. */
  lemma FlipIndexAt(r: int, c: int, stride: int, height: int)
    requires 0 <= r < height && 0 <= c < stride
    ensures 0 <= r * stride + c < height * stride
    ensures FlipIndex(r * stride + c, stride, height) == (height - 1 - r) * stride + c
  {
    SlotBound(r, c, stride, height);
    DivModOf(r * stride + c, stride, r, c);
  }

  /** Reversing the rows twice puts every byte back. */
  lemma FlipIndexInvolutive(k: int, stride: int, height: int)
    requires stride > 0 && 0 <= k < height * stride
    ensures FlipIndex(FlipIndex(k, stride, height), stride, height) == k
  {
    RowOf(k, stride, height);
    var r, c := k / stride, k % stride;
    FlipIndexAt(r, c, stride, height);
    FlipIndexAt(height - 1 - r, c, stride, height);
  }

  /** Byte `k` lies in row `y` exactly when its row number is `y`. */
  lemma InRow(k: int, y: int, stride: int, height: int)
    requires stride > 0 && 0 <= k < height * stride && 0 <= y < height
    ensures (y * stride <= k < y * stride + stride) <==> k / stride == y
  {
    RowOf(k, stride, height);
    if y * stride <= k < y * stride + stride {
      DivModOf(k, stride, y, k - y * stride);
    }
  }

  /** `s` with its `height` rows of `stride` bytes in reverse order. */
  function Flipped<T>(s: seq<T>, stride: int, height: int): (f: seq<T>)
    requires stride > 0 && height >= 0 && |s| == height * stride
    ensures |f| == |s|
  {
    seq(|s|, k requires 0 <= k < |s| => s[FlipIndex(k, stride, height)])
  }
}
