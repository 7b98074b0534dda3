/** The colour value of the framebuffer: four unsigned 8-bit channels. */
module Color {

  /** An unsigned 8-bit channel value (Rust `u8`). */
  type Byte = b: int | 0 <= b < 256

  /** A colour with red, green, blue and alpha channels, cloned by value; equality of
      colours is used only in specifications. */
  datatype Rgba = Rgba(r: Byte, g: Byte, b: Byte, a: Byte)

  /** The channels of a colour in interchange order: red, green, blue, alpha. */
  function Channels(c: Rgba): (bytes: seq<Byte>)
    ensures |bytes| == 4
  {
    [c.r, c.g, c.b, c.a]
  }

  /** `Rgba::new`: the colour with exactly the given channels. */
  function New(r: Byte, g: Byte, b: Byte, a: Byte): (c: Rgba)
    ensures Channels(c) == [r, g, b, a]
  {
    Rgba(r, g, b, a)
  }

  /** `From<[u8; 4]>`: the array is read as `[r, g, b, a]`. */
  function FromBytes(bytes: seq<Byte>): (c: Rgba)
    requires |bytes| == 4
    ensures Channels(c) == bytes
  {
    Rgba(bytes[0], bytes[1], bytes[2], bytes[3])
  }

  /** `Rgba::black`: opaque black. */
  function Black(): (c: Rgba)
    ensures Channels(c) == [0, 0, 0, 255]
  {
    New(0, 0, 0, 255)
  }

  /** `Rgba::white`: opaque white. */
  function White(): (c: Rgba)
    ensures Channels(c) == [255, 255, 255, 255]
  {
    New(255, 255, 255, 255)
  }

  /** `Default for Rgba`: opaque black, not transparent black. */
  function Default(): (c: Rgba)
    ensures c == Black() && c.a == 255
  {
    Rgba(0, 0, 0, 255)
  }

  /** Reading a colour's channels back through `From<[u8; 4]>` gives the same colour. */
  lemma FromBytesChannels(c: Rgba)
    ensures FromBytes(Channels(c)) == c
  {
  }

  /** A colour is determined by its four channels. */
  lemma ChannelsInjective(c: Rgba, d: Rgba)
    requires Channels(c) == Channels(d)
    ensures c == d
  {
  }
}
