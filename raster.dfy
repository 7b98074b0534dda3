/** The value-level meaning of a pixel buffer: its row-major layout, single-pixel
    access, clearing, the three ways of building one, and the byte export with
    nearest-neighbour magnification. */
module Raster {
  import opened Color

  /** The two ways the buffer fails: a zero dimension at construction, and a
      coordinate outside the buffer at an indexed access. */
  datatype Error = InvalidDimensions | OutOfBounds

  datatype Result<T> = Ok(value: T) | Err(error: Error)

  // ---------------------------------------------------------------------------
  // Row-major arithmetic
  // ---------------------------------------------------------------------------

  lemma MulMonotone(a: nat, b: nat, c: nat)
    requires a <= b
    ensures a * c <= b * c
  {
  }

  lemma MulDistributes(a: int, b: int, c: int)
    ensures (a - b) * c == a * c - b * c
  {
  }

  lemma MulCommutes(a: nat, b: nat)
    ensures a * b == b * a
  {
  }

  lemma MulSucc(a: nat, b: nat)
    ensures a * b + b == (a + 1) * b
  {
  }

  /** The slot of an in-range coordinate lies inside the storage. */
  lemma RowMajorBound(x: nat, y: nat, width: nat, height: nat)
    requires x < width && y < height
    ensures y * width + x < width * height
  {
    assert y * width + x < (y + 1) * width;
    MulMonotone(y + 1, height, width);
  }

  /** The first `m` of `height` rows fit in the storage. */
  lemma RowsBound(m: nat, width: nat, height: nat)
    requires m <= height
    ensures m * width <= width * height
  {
    MulMonotone(m, height, width);
  }

  /** Division and remainder by the row length recover the coordinate from its slot. */
  lemma RowMajorInverse(x: nat, y: nat, width: nat)
    requires x < width
    ensures (y * width + x) / width == y && (y * width + x) % width == x
  {
    var i := y * width + x;
    var q, r := i / width, i % width;
    assert q * width + r == y * width + x;
    if q > y {
      MulMonotone(1, q - y, width);
      MulDistributes(q, y, width);
      assert false;
    } else if q < y {
      MulMonotone(1, y - q, width);
      MulDistributes(y, q, width);
      assert false;
    }
  }

  /** A magnified coordinate divided by the factor is a coordinate of the original. */
  lemma DivBelow(n: nat, scale: nat, bound: nat)
    requires n < bound * scale
    ensures scale > 0 && 0 <= n / scale < bound
  {
    if n / scale >= bound {
      MulMonotone(bound, n / scale, scale);
    }
  }

  // ---------------------------------------------------------------------------
  // Indexing
  // ---------------------------------------------------------------------------

  /** `Index`/`IndexMut` for `(usize, usize)`: the bounds check, then the row-major
      slot `y * width + x`. The slot is inside the storage and determines the
      coordinate back. */
  function Index(width: nat, height: nat, x: nat, y: nat): (r: Result<nat>)
    ensures r.Ok? <==> x < width && y < height
    ensures r.Err? ==> r.error == OutOfBounds
    ensures r.Ok? ==> r.value < width * height && r.value % width == x && r.value / width == y
  {
    if x < width && y < height then
      RowMajorBound(x, y, width, height);
      RowMajorInverse(x, y, width);
      Ok(y * width + x)
    else
      Err(OutOfBounds)
  }

  /** Every storage slot is addressed by exactly the coordinate its quotient and
      remainder give: the row-major map is onto. */
  lemma IndexOnto(width: nat, height: nat, i: nat)
    requires i < width * height
    ensures width > 0 && Index(width, height, i % width, i / width) == Ok(i)
  {
    DivBelow(i, width, height);
  }

  /** Two in-range coordinates share a slot only when they are equal. */
  lemma IndexInjective(width: nat, height: nat, x1: nat, y1: nat, x2: nat, y2: nat)
    requires Index(width, height, x1, y1).Ok? && Index(width, height, x2, y2).Ok?
    requires Index(width, height, x1, y1).value == Index(width, height, x2, y2).value
    ensures x1 == x2 && y1 == y2
  {
  }

  // ---------------------------------------------------------------------------
  // The abstract buffer
  // ---------------------------------------------------------------------------

  /** A buffer as a value: its size and its colours in row-major order. */
  datatype Image = Image(width: nat, height: nat, pixels: seq<Rgba>) {

    /** Both dimensions are non-zero and the storage holds exactly `width * height` colours. */
    predicate Valid() {
      width >= 1 && height >= 1 && |pixels| == width * height
    }

    /** `get_pixel`: the colour at `(x, y)`, or `OutOfBounds`. */
    function Get(x: nat, y: nat): (r: Result<Rgba>)
      requires Valid()
      ensures r.Ok? <==> x < width && y < height
      ensures r.Err? ==> r.error == OutOfBounds
    {
      match Index(width, height, x, y)
      case Ok(i) => Ok(pixels[i])
      case Err(e) => Err(e)
    }

    /** `set_pixel`: the buffer with the colour at `(x, y)` replaced, or `OutOfBounds`. */
    function Set(x: nat, y: nat, color: Rgba): (r: Result<Image>)
      requires Valid()
      ensures r.Ok? <==> x < width && y < height
      ensures r.Err? ==> r.error == OutOfBounds
      ensures r.Ok? ==> r.value.Valid() && r.value.width == width && r.value.height == height
    {
      match Index(width, height, x, y)
      case Ok(i) => Ok(Image(width, height, pixels[i := color]))
      case Err(e) => Err(e)
    }

    /** `clear`: every colour replaced by `color`. */
    function Cleared(color: Rgba): (r: Image)
      requires Valid()
      ensures r.Valid() && r.width == width && r.height == height
    {
      Image(width, height, seq(|pixels|, _ => color))
    }

    /** The source colour of the magnified coordinate `(sx, sy)`: the pixel at
        `(sx / scale, sy / scale)`. */
    function ScaledPixel(scale: nat, sx: nat, sy: nat): (c: Rgba)
      requires Valid() && sx < width * scale && sy < height * scale
      ensures scale > 0 && Get(sx / scale, sy / scale) == Ok(c)
    {
      DivBelow(sx, scale, width);
      DivBelow(sy, scale, height);
      Get(sx / scale, sy / scale).value
    }

    /** The bytes of the first `n` magnified pixels, counted row by row and left to
        right, in the order the loops of `get_scaled_buf` write them. */
    function ScaledPrefix(scale: nat, n: nat): (bytes: seq<Byte>)
      requires Valid() && n <= (width * scale) * (height * scale)
      ensures |bytes| == 4 * n
    {
      if n == 0 then []
      else
        var sw, p := width * scale, n - 1;
        DivBelow(p, sw, height * scale);
        ScaledPrefix(scale, p) + Channels(ScaledPixel(scale, p % sw, p / sw))
    }

    /** `get_scaled_buf`: the interleaved RGBA bytes of the buffer magnified `scale`
        times in each direction; `scale == 0` gives no bytes. */
    function ScaledBytes(scale: nat): (bytes: seq<Byte>)
      requires Valid()
      ensures |bytes| == (width * scale) * (height * scale) * 4
      ensures scale == 0 ==> bytes == []
    {
      ScaledPrefix(scale, (width * scale) * (height * scale))
    }
  }

  // ---------------------------------------------------------------------------
  // Construction
  // ---------------------------------------------------------------------------

  /** `PixelBuf::new`: a buffer of opaque black, or `InvalidDimensions` when a
      dimension is zero. */
  function NewImage(width: nat, height: nat): (r: Result<Image>)
    ensures r.Err? <==> width == 0 || height == 0
    ensures r.Err? ==> r.error == InvalidDimensions
    ensures r.Ok? ==> r.value.Valid() && r.value.width == width && r.value.height == height
  {
    if width == 0 || height == 0 then Err(InvalidDimensions)
    else Ok(Image(width, height, seq(width * height, _ => Default())))
  }

  /** `PixelBuf::new_from_fn`: slot `i` holds `f` applied to the coordinate that
      addresses it. */
  function FromFnImage(width: nat, height: nat, f: (nat, nat) -> Rgba): (r: Result<Image>)
    ensures r.Err? <==> width == 0 || height == 0
    ensures r.Err? ==> r.error == InvalidDimensions
    ensures r.Ok? ==> r.value.Valid() && r.value.width == width && r.value.height == height
  {
    if width == 0 || height == 0 then Err(InvalidDimensions)
    else Ok(Image(width, height, seq(width * height, i requires 0 <= i < width * height => f(i % width, i / width))))
  }

  /** The colour of the test pattern at `(x, y)`, chosen by `(x + y) % 4`. The last
      branch, `unreachable!` in the source, is proved dead. */
  function TestPattern(x: nat, y: nat): (c: Rgba)
    ensures c.a == 255
  {
    var k := (x + y) % 4;
    if k == 0 then New(0, 0, 0, 255)
    else if k == 1 then New(255, 0, 0, 255)
    else if k == 2 then New(0, 255, 0, 255)
    else if k == 3 then New(0, 0, 255, 255)
    else assert false; Black()
  }

  /** `PixelBuf::new_test_image`. */
  function TestImage(width: nat, height: nat): (r: Result<Image>)
    ensures r.Err? <==> width == 0 || height == 0
  {
    FromFnImage(width, height, TestPattern)
  }

  // ---------------------------------------------------------------------------
  // The plain export
  // ---------------------------------------------------------------------------

  /** The row-major interleaved RGBA bytes of a sequence of colours. */
  function Flatten(pixels: seq<Rgba>): (bytes: seq<Byte>)
    ensures |bytes| == 4 * |pixels|
  {
    if pixels == [] then [] else Flatten(pixels[..|pixels| - 1]) + Channels(pixels[|pixels| - 1])
  }

  // ---------------------------------------------------------------------------
  // Properties
  // ---------------------------------------------------------------------------

  /** A new buffer has the requested size and every in-range pixel is opaque black. */
  lemma NewImageGet(width: nat, height: nat, x: nat, y: nat)
    requires width >= 1 && height >= 1 && x < width && y < height
    ensures NewImage(width, height).Ok?
    ensures NewImage(width, height).value.Get(x, y) == Ok(Default())
  {
  }

  /** Reading back a written pixel gives the written colour; every other pixel
      reads as before. */
  lemma SetThenGet(img: Image, x: nat, y: nat, color: Rgba, x': nat, y': nat)
    requires img.Valid() && x < img.width && y < img.height
    ensures img.Set(x, y, color).Ok?
    ensures img.Set(x, y, color).value.Get(x', y') ==
      if x' == x && y' == y then Ok(color) else img.Get(x', y')
  {
    var i := Index(img.width, img.height, x, y).value;
    if Index(img.width, img.height, x', y').Ok? {
      var j := Index(img.width, img.height, x', y').value;
      if i == j {
        IndexInjective(img.width, img.height, x, y, x', y');
      }
    }
  }

  /** After clearing, every in-range pixel reads as the clearing colour. */
  lemma ClearedGet(img: Image, color: Rgba, x: nat, y: nat)
    requires img.Valid() && x < img.width && y < img.height
    ensures img.Cleared(color).Get(x, y) == Ok(color)
  {
  }

  /** A buffer built from a generator holds, at every in-range coordinate, the
      generator's colour for that coordinate. */
  lemma FromFnGet(width: nat, height: nat, f: (nat, nat) -> Rgba, x: nat, y: nat)
    requires width >= 1 && height >= 1 && x < width && y < height
    ensures FromFnImage(width, height, f).Ok?
    ensures FromFnImage(width, height, f).value.Get(x, y) == Ok(f(x, y))
  {
    RowMajorInverse(x, y, width);
  }

  /** The test image at `(x, y)` is black, red, green or blue as `(x + y) % 4` is
      0, 1, 2 or 3. */
  lemma TestImageGet(width: nat, height: nat, x: nat, y: nat)
    requires width >= 1 && height >= 1 && x < width && y < height
    ensures TestImage(width, height).Ok?
    ensures TestImage(width, height).value.Get(x, y) == Ok(
      match (x + y) % 4
      case 0 => Rgba(0, 0, 0, 255)
      case 1 => Rgba(255, 0, 0, 255)
      case 2 => Rgba(0, 255, 0, 255)
      case _ => Rgba(0, 0, 255, 255))
  {
    FromFnGet(width, height, TestPattern, x, y);
  }

  /** The test pattern is constant along anti-diagonals and repeats every four
      columns: diagonal stripes of period four. */
  lemma TestPatternStripes(x: nat, y: nat)
    ensures TestPattern(x + 1, y) == TestPattern(x, y + 1)
    ensures TestPattern(x + 4, y) == TestPattern(x, y)
  {
  }

  /** Growing the magnified prefix leaves its earlier bytes alone. */
  lemma {:induction false} ScaledPrefixStable(img: Image, scale: nat, n1: nat, n2: nat, j: nat)
    requires img.Valid() && n1 <= n2 <= (img.width * scale) * (img.height * scale)
    requires j < 4 * n1
    ensures img.ScaledPrefix(scale, n2)[j] == img.ScaledPrefix(scale, n1)[j]
  {
    if n2 > n1 {
      ScaledPrefixStable(img, scale, n1, n2 - 1, j);
    }
  }

  /** The closed form of the magnified export: byte `4 * (sy * sw + sx) + k` is
      channel `k` (red, green, blue, alpha) of the pixel at `(sx / scale, sy / scale)`,
      which is what `ScaledPixel` promises to be. */
  lemma ScaledBytesAt(img: Image, scale: nat, sx: nat, sy: nat, k: nat)
    requires img.Valid() && sx < img.width * scale && sy < img.height * scale && k < 4
    ensures 4 * (sy * (img.width * scale) + sx) + k < |img.ScaledBytes(scale)|
    ensures img.ScaledBytes(scale)[4 * (sy * (img.width * scale) + sx) + k] ==
      Channels(img.ScaledPixel(scale, sx, sy))[k]
  {
    var sw, sh := img.width * scale, img.height * scale;
    var p := sy * sw + sx;
    RowMajorBound(sx, sy, sw, sh);
    RowMajorInverse(sx, sy, sw);
    assert img.ScaledPrefix(scale, p + 1)[4 * p + k] == Channels(img.ScaledPixel(scale, sx, sy))[k];
    ScaledPrefixStable(img, scale, p + 1, sw * sh, 4 * p + k);
  }

  /** The closed form of the plain export: byte `j` is channel `j % 4` of pixel `j / 4`. */
  lemma {:induction false} FlattenAt(pixels: seq<Rgba>, j: nat)
    requires j < 4 * |pixels|
    ensures Flatten(pixels)[j] == Channels(pixels[j / 4])[j % 4]
  {
    var n := |pixels|;
    if j < 4 * (n - 1) {
      FlattenAt(pixels[..n - 1], j);
    }
  }

  /** With factor one the first `n` magnified pixels are the first `n` pixels of
      the storage, flattened. */
  lemma {:induction false} ScaledPrefixUnit(img: Image, n: nat)
    requires img.Valid() && n <= |img.pixels|
    ensures img.ScaledPrefix(1, n) == Flatten(img.pixels[..n])
  {
    if n > 0 {
      ScaledPrefixUnit(img, n - 1);
      IndexOnto(img.width, img.height, n - 1);
      assert img.pixels[..n][..n - 1] == img.pixels[..n - 1];
    }
  }

  /** Magnifying by one is the identity: the export is the plain row-major RGBA
      flattening of the storage. */
  lemma ScaledBytesUnit(img: Image)
    requires img.Valid()
    ensures img.ScaledBytes(1) == Flatten(img.pixels)
  {
    ScaledPrefixUnit(img, |img.pixels|);
    assert img.pixels[..|img.pixels|] == img.pixels;
  }
}
