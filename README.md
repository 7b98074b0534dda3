# pixel_buf in Dafny

A model of the `pixel_buf` crate: a fixed-size framebuffer of 8-bit RGBA colours,
stored row by row in one flat vector, with bounds-checked pixel access, clearing,
construction from a generator or a diagonal-stripe test pattern, and an export to
interleaved RGBA bytes with nearest-neighbour magnification.

The project has three files, one module each:

- `color.dfy` (module `Color`) holds the `Rgba` value type, its constructors and its
  channel order.
- `raster.dfy` (module `Raster`) holds the value-level meaning of a buffer.
  - `Index` is the bounds check and the row-major slot `y * width + x`.
  - `Image` is a size and a sequence of colours, with `Get`, `Set` and `Cleared`.
  - `NewImage`, `FromFnImage` and `TestImage` are the three ways of building one.
  - `ScaledBytes` is the magnified byte export.
  - The lemmas state what each operation promises.
- `pixel_buf.dfy` (module `PixelBuffer`) holds the `PixelBuf` class.
  - The class stores its size and an `array<Rgba>`.
  - Its methods update the array in place with the source's loops.
  - Each method is proved against the `Raster` function of the buffer's `Model()`.

A panic in the crate becomes an `Err` result in the model:

- `InvalidDimensions` is a zero dimension passed to `new`.
- `OutOfBounds` is an out-of-range coordinate passed to indexing.

## Model

| member | source | states |
|---|---|---|
| Color.New | src/lib.rs:47-49 | the colour carries exactly the four given channels, in the order red, green, blue, alpha |
| Color.FromBytes | src/lib.rs:33-43 | the array is read as `[r, g, b, a]`: the colour's channels are the array |
| Color.FromBytesChannels | src/lib.rs:33-43 | converting a colour's channels back through `From<[u8; 4]>` gives the same colour |
| Color.ChannelsInjective | src/lib.rs:9-14 | a colour is determined by its four channels |
| Color.Black | src/lib.rs:51-53 | opaque black: channels `[0, 0, 0, 255]` |
| Color.White | src/lib.rs:55-57 | opaque white: channels `[255, 255, 255, 255]` |
| Color.Default | src/lib.rs:16-25 | the default colour is opaque black (alpha 255), not transparent black |
| Raster.Index | src/lib.rs:158-168 | fails with `OutOfBounds` exactly when `x >= width` or `y >= height`; otherwise the slot is below `width * height`, and its remainder and quotient by `width` give back `x` and `y` |
| Raster.IndexOnto | src/lib.rs:165-167 | every storage slot `i` is the slot of the coordinate `(i % width, i / width)` |
| Raster.IndexInjective | src/lib.rs:165-167 | two in-range coordinates with the same slot are equal |
| Raster.Image.Get | src/lib.rs:98-100 | the read succeeds exactly at in-range coordinates and fails with `OutOfBounds` elsewhere |
| Raster.Image.Set | src/lib.rs:102-104 | the write succeeds exactly at in-range coordinates; the result keeps the size and the storage length |
| Raster.SetThenGet | src/lib.rs:102-104 | after a write, the written coordinate reads the new colour and every other coordinate reads as before |
| Raster.Image.Cleared | src/lib.rs:147-151 | clearing keeps the size and the storage length |
| Raster.ClearedGet | src/lib.rs:147-151 | after clearing, every in-range pixel reads the clearing colour |
| Raster.NewImage | src/lib.rs:62-71 | fails with `InvalidDimensions` exactly when a dimension is zero; otherwise the buffer has the requested size and `width * height` colours |
| Raster.NewImageGet | src/lib.rs:62-71 | every in-range pixel of a new buffer is the default colour |
| Raster.FromFnImage | src/lib.rs:74-84 | fails exactly when a dimension is zero; otherwise the buffer has the requested size |
| Raster.FromFnGet | src/lib.rs:74-84 | each in-range pixel `(x, y)` of a generated buffer is `f(x, y)` |
| Raster.TestPattern | src/lib.rs:88-94 | every colour of the pattern is opaque; the `unreachable!` arm is proved dead |
| Raster.TestImage | src/lib.rs:87-95 | fails exactly when a dimension is zero |
| Raster.TestImageGet | src/lib.rs:87-95 | pixel `(x, y)` is black, red, green or blue as `(x + y) % 4` is 0, 1, 2 or 3 |
| Raster.TestPatternStripes | src/lib.rs:88-94 | the pattern is constant along anti-diagonals and repeats every four columns |
| Raster.Image.ScaledPixel | src/lib.rs:129-133 | the sampled colour of magnified coordinate `(X, Y)` is the pixel at `(X / scale, Y / scale)`, and that read is in range |
| Raster.Image.ScaledPrefix | src/lib.rs:127-142 | the first `n` magnified pixels take `4 * n` bytes |
| Raster.Image.ScaledBytes | src/lib.rs:122-145 | the export has `(width * scale) * (height * scale) * 4` bytes, and none when `scale` is 0 |
| Raster.ScaledPrefixStable | src/lib.rs:127-142 | writing further magnified pixels leaves the bytes already written unchanged |
| Raster.ScaledBytesAt | src/lib.rs:127-142 | byte `4 * (Y * width * scale + X) + k` of the export is channel `k` (r, g, b, a) of the pixel at `(X / scale, Y / scale)` |
| Raster.ScaledPrefixUnit | src/lib.rs:122-145 | with factor one the first `n` magnified pixels are the first `n` stored colours, flattened |
| Raster.ScaledBytesUnit | src/lib.rs:122-145 | with factor one the export is the plain row-major RGBA flattening of the storage |
| PixelBuffer.PixelBuf.Model | src/lib.rs:28-31 | the buffer's value always has non-zero dimensions and exactly `width * height` colours |
| PixelBuffer.PixelBuf.constructor | src/lib.rs:67-70 | a buffer of the given non-zero size, every pixel the default colour |
| PixelBuffer.PixelBuf.New | src/lib.rs:62-71 | returns `InvalidDimensions` exactly when a dimension is zero; otherwise a fresh buffer equal to `NewImage` |
| PixelBuffer.PixelBuf.NewFromFn | src/lib.rs:74-84 | the nested row-by-row loop of `set_pixel` calls builds exactly `FromFnImage`; the error case as for `new` |
| PixelBuffer.PixelBuf.NewTestImage | src/lib.rs:87-95 | the buffer is exactly `TestImage` |
| PixelBuffer.PixelBuf.GetPixel | src/lib.rs:97-100 | the read is `Get` on the buffer's value; it succeeds exactly when `is_in_bounds` holds |
| PixelBuffer.PixelBuf.SetPixel | src/lib.rs:102-104 | succeeds exactly when `is_in_bounds` holds, and then the new value is `Set` of the old one; otherwise `OutOfBounds` with nothing changed |
| PixelBuffer.PixelBuf.IsInBounds | src/lib.rs:106-109 | holds exactly at the coordinates that indexing accepts |
| PixelBuffer.PixelBuf.GetScaledSize | src/lib.rs:111-114 | the magnified size is `(width * scale, height * scale)`, and its area times four is the length of the magnified export |
| PixelBuffer.PixelBuf.GetSize | src/lib.rs:116-119 | the size given at construction; both dimensions are non-zero and their product is the storage length |
| PixelBuffer.PixelBuf.GetScaledBuf | src/lib.rs:121-145 | the nested loops with a running index fill the zero-initialised vector with exactly `ScaledBytes(scale)` |
| PixelBuffer.PixelBuf.WriteScaledPixel | src/lib.rs:129-139 | one pass of the inner loop writes the four export bytes of magnified pixel `(x, y)`, advances the index by four and leaves every byte from the new index on unchanged |
| PixelBuffer.PixelBuf.Clear | src/lib.rs:147-151 | every pixel becomes the given colour; the size is unchanged |

## Left out

- Integer width: `usize` overflow in `size[0] * size[1]`, `size * scale` and `x + y`
  is not modelled. All sizes, coordinates and factors are unbounded naturals.
- Panics are not process aborts in the model.
  - `new` and indexing return an `Err` value instead of panicking.
  - The panic messages and their `Debug` formatting are not modelled.
- PixelBuffer.PixelBuf.constructor: this is only the allocation step of `new`, so it
  requires non-zero dimensions. `PixelBuf.New` performs the check and returns
  `InvalidDimensions`.
- The generator of `new_from_fn` is a plain total function `(nat, nat) -> Rgba`. Rust's
  closure machinery and any side effects of the closure are not modelled. The loop still
  calls it in the source's order: rows outer, columns inner.
- PixelBuffer.PixelBuf.NewFromFn ignores the result of each `set_pixel` call. The loop
  bounds keep every call in range, so no call can fail.
- `Index` and `IndexMut` are not separate members.
  - `PixelBuf.GetPixel` is the read path and returns the colour by value rather than
    by reference.
  - `PixelBuf.SetPixel` is the write path through `IndexMut`.
  - Both use `Raster.Index`, so they share one offset computation.
- PixelBuffer.PixelBuf.WriteScaledPixel: this is the body of the inner loop of
  `get_scaled_buf`, put in a method of its own.
- The `Clone` and `Debug` derives, `#![no_std]`, `extern crate alloc` and the `vec!`
  macro are not modelled. A Dafny array stands for the vector.
- The crate has no unscaled `get_buf` export and no floating-point variant of
  `get_scaled_size`.
  - The model follows the code and leaves both out.
  - The plain row-major RGBA flattening (`Raster.Flatten`) stands in for the unscaled
    export, and `Raster.ScaledBytesUnit` proves that factor one produces it.
- `get_scaled_buf` with `scale == 0` is not a precondition violation in the code. The
  loops do not run, and the result is the empty vector. The model keeps this behaviour
  rather than requiring a positive factor.
