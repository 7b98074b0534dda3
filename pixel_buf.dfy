/** `PixelBuf`, the framebuffer object: a fixed size and a row-major array of
    colours that the methods below read and update in place. */
module PixelBuffer {
  import opened Color
  import opened Raster

  class PixelBuf {
    /** `size[0]`: the number of columns. */
    const width: nat
    /** `size[1]`: the number of rows. */
    const height: nat
    /** The colours, row after row; pixel `(x, y)` lives in slot `y * width + x`. */
    const pixels: array<Rgba>

    /** Both dimensions are non-zero and the storage holds exactly `width * height` colours. */
    ghost predicate Valid() {
      width >= 1 && height >= 1 && pixels.Length == width * height
    }

    /** The buffer as a value. */
    ghost function Model(): (img: Image)
      reads pixels
      requires Valid()
      ensures img.Valid()
    {
      Image(width, height, pixels[..])
    }

    /** The allocation step of `PixelBuf::new`, once the size has been checked. */
    constructor (width: nat, height: nat)
      requires width >= 1 && height >= 1
      ensures Valid() && fresh(pixels)
      ensures NewImage(width, height) == Ok(Model())
    {
      this.width := width;
      this.height := height;
      pixels := new Rgba[width * height](_ => Default());
      new;
      assert pixels[..] == seq(width * height, _ => Default());
    }

    /** `PixelBuf::new`: a fresh buffer of opaque black, or `InvalidDimensions` when
        a dimension is zero. */
    static method New(width: nat, height: nat) returns (r: Result<PixelBuf>)
      ensures r.Err? ==> NewImage(width, height) == Err(r.error)
      ensures r.Ok? ==> fresh(r.value) && fresh(r.value.pixels) && r.value.Valid()
      ensures r.Ok? ==> NewImage(width, height) == Ok(r.value.Model())
    {
      if width == 0 || height == 0 {
        return Err(InvalidDimensions);
      }
      var buf := new PixelBuf(width, height);
      return Ok(buf);
    }

    /** `PixelBuf::new_from_fn`: a fresh buffer whose pixels are written row by row,
        left to right, with `f(x, y)`. */
    static method NewFromFn(width: nat, height: nat, f: (nat, nat) -> Rgba) returns (r: Result<PixelBuf>)
      ensures r.Err? ==> FromFnImage(width, height, f) == Err(r.error)
      ensures r.Ok? ==> fresh(r.value) && fresh(r.value.pixels) && r.value.Valid()
      ensures r.Ok? ==> FromFnImage(width, height, f) == Ok(r.value.Model())
    {
      var made := New(width, height);
      if made.Err? {
        return Err(made.error);
      }
      var buf := made.value;
      ghost var target := FromFnImage(width, height, f).value.pixels;
      var y := 0;
      while y < height
        invariant 0 <= y <= height
        invariant buf.Valid() && fresh(buf) && fresh(buf.pixels)
        invariant y * width <= |target| && buf.pixels[..y * width] == target[..y * width]
      {
        var x := 0;
        while x < width
          invariant 0 <= x <= width
          invariant y * width + x <= |target| && buf.pixels[..y * width + x] == target[..y * width + x]
        {
          ghost var k := y * width + x;
          RowMajorBound(x, y, width, height);
          RowMajorInverse(x, y, width);
          assert target[k] == f(x, y);
          ghost var before := buf.pixels[..];
          var written := buf.SetPixel(x, y, f(x, y));
          assert buf.pixels[..] == before[k := f(x, y)];
          assert buf.pixels[..k + 1] == buf.pixels[..k] + [f(x, y)];
          assert target[..k + 1] == target[..k] + [target[k]];
          x := x + 1;
        }
        assert y * width + width == (y + 1) * width;
        y := y + 1;
      }
      assert height * width == |target|;
      assert buf.pixels[..] == target;
      assert buf.Model() == FromFnImage(width, height, f).value;
      return Ok(buf);
    }

    /** `PixelBuf::new_test_image`: a fresh buffer holding the diagonal-stripe test pattern. */
    static method NewTestImage(width: nat, height: nat) returns (r: Result<PixelBuf>)
      ensures r.Err? ==> TestImage(width, height) == Err(r.error)
      ensures r.Ok? ==> fresh(r.value) && fresh(r.value.pixels) && r.value.Valid()
      ensures r.Ok? ==> TestImage(width, height) == Ok(r.value.Model())
    {
      r := NewFromFn(width, height, TestPattern);
    }

    /** `get_pixel` and `Index`: the colour at `(x, y)`, or `OutOfBounds`. */
    function GetPixel(x: nat, y: nat): (r: Result<Rgba>)
      reads pixels
      requires Valid()
      ensures r == Model().Get(x, y)
      ensures r.Ok? <==> IsInBounds(x, y)
    {
      match Index(width, height, x, y)
      case Ok(i) => Ok(pixels[i])
      case Err(e) => Err(e)
    }

    /** `set_pixel` and `IndexMut`: overwrite the colour at `(x, y)`; an
        out-of-range coordinate is `OutOfBounds` and changes nothing. */
    method SetPixel(x: nat, y: nat, color: Rgba) returns (r: Result<()>)
      requires Valid()
      modifies pixels
      ensures Valid()
      ensures r.Ok? <==> IsInBounds(x, y)
      ensures r.Ok? ==> old(Model()).Set(x, y, color) == Ok(Model())
      ensures r.Err? ==> r.error == OutOfBounds && Model() == old(Model())
    {
      match Index(width, height, x, y)
      case Ok(i) =>
        pixels[i] := color;
        r := Ok(());
      case Err(e) =>
        r := Err(e);
    }

    /** `is_in_bounds`: holds exactly at the coordinates indexing accepts. */
    function IsInBounds(x: nat, y: nat): (b: bool)
      ensures b <==> Index(width, height, x, y).Ok?
    {
      x < width && y < height
    }

    /** `get_size`: the dimensions given at construction, whose product is the
        storage length. */
    function GetSize(): (size: (nat, nat))
      requires Valid()
      ensures size.0 >= 1 && size.1 >= 1 && size.0 * size.1 == pixels.Length
      ensures size == (width, height)
    {
      (width, height)
    }

    /** `get_scaled_size`: the dimensions of the magnified raster, which account
        for every byte `get_scaled_buf` produces. */
    function GetScaledSize(scale: nat): (size: (nat, nat))
      reads pixels
      requires Valid()
      ensures size == (width * scale, height * scale)
      ensures size.0 * size.1 * 4 == |Model().ScaledBytes(scale)|
    {
      (width * scale, height * scale)
    }

    /** `get_scaled_buf`: the interleaved RGBA bytes of the buffer magnified by
        `scale`, written through a running index into a zero-filled vector. */
    method GetScaledBuf(scale: nat) returns (bytes: seq<Byte>)
      requires Valid()
      ensures bytes == Model().ScaledBytes(scale)
    {
      var scaledWidth, scaledHeight := width * scale, height * scale;
      var out := new Byte[scaledWidth * scaledHeight * 4](_ => 0);
      ghost var target := Model().ScaledBytes(scale);
      assert |target| == out.Length;
      var i := 0;
      var y := 0;
      while y < scaledHeight
        invariant 0 <= y <= scaledHeight
        invariant target == Model().ScaledBytes(scale) && |target| == out.Length
        invariant i == 4 * (y * scaledWidth) && i <= out.Length
        invariant forall j :: 0 <= j < i ==> out[j] == target[j]
      {
        RowsBound(y + 1, scaledWidth, scaledHeight);
        MulSucc(y, scaledWidth);
        var x := 0;
        while x < scaledWidth
          invariant 0 <= x <= scaledWidth
          invariant i == 4 * (y * scaledWidth + x) && i <= out.Length
          invariant forall j :: 0 <= j < i ==> out[j] == target[j]
        {
          i := WriteScaledPixel(out, i, scale, x, y, target);
          x := x + 1;
        }
        y := y + 1;
      }
      MulCommutes(scaledHeight, scaledWidth);
      bytes := out[..];
    }

    /** The body of the inner loop of `get_scaled_buf`: the four channels of the
        source pixel of `(x, y)` written at position `i`, which then advances by four. */
    method WriteScaledPixel(out: array<Byte>, i: nat, scale: nat, x: nat, y: nat, ghost target: seq<Byte>) returns (next: nat)
      requires Valid() && x < width * scale && y < height * scale
      requires target == Model().ScaledBytes(scale) && out.Length == |target|
      requires i == 4 * (y * (width * scale) + x) && i <= out.Length
      requires forall j :: 0 <= j < i ==> out[j] == target[j]
      modifies out
      ensures next == i + 4 && next <= out.Length
      ensures forall j :: 0 <= j < next ==> out[j] == target[j]
      ensures forall j :: next <= j < out.Length ==> out[j] == old(out[j])
    {
      ghost var img := Model();
      ScaledBytesAt(img, scale, x, y, 0);
      ScaledBytesAt(img, scale, x, y, 1);
      ScaledBytesAt(img, scale, x, y, 2);
      ScaledBytesAt(img, scale, x, y, 3);
      DivBelow(x, scale, width);
      DivBelow(y, scale, height);
      var pixel := GetPixel(x / scale, y / scale).value;
      out[i] := pixel.r;
      out[i + 1] := pixel.g;
      out[i + 2] := pixel.b;
      out[i + 3] := pixel.a;
      next := i + 4;
    }

    /** `clear`: every pixel becomes `color`; the size is unchanged. */
    method Clear(color: Rgba)
      requires Valid()
      modifies pixels
      ensures Valid()
      ensures Model() == old(Model()).Cleared(color)
    {
      var i := 0;
      while i < pixels.Length
        invariant 0 <= i <= pixels.Length
        invariant forall j :: 0 <= j < i ==> pixels[j] == color
      {
        pixels[i] := color;
        i := i + 1;
      }
    }
  }
}
