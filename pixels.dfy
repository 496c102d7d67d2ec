/**
 * Packed 32-bit ARGB pixels and the opaque colours of `java.awt.Color`.
 *
 * A pixel is the bit pattern of Java's `int` returned by `getRGB`, read as an
 * unsigned number: alpha in bits 24-31, red in 16-23, green in 8-15, blue in 0-7.
 * On that reading `(p >> 16) & 0xff` is `(p / 0x10000) % 0x100`, whatever the sign
 * of the Java value.
 */
module Pixels {

  type Pixel = x: int | 0 <= x < 0x1_0000_0000

  type Byte = x: int | 0 <= x < 0x100

  /** The three colour channels the transforms read. */
  datatype Channel = Red | Green | Blue

  /** `(p >> 16) & 0xff`, `(p >> 8) & 0xff` and `p & 0xff`. */
  function ChannelOf(ch: Channel, p: Pixel): Byte
  {
    match ch
    case Red => (p / 0x10000) % 0x100
    case Green => (p / 0x100) % 0x100
    case Blue => p % 0x100
  }

  /** `(p >> 24) & 0xff`. */
  function Alpha(p: Pixel): Byte
  {
    p / 0x100_0000
  }

  /** An opaque `java.awt.Color`: every colour the transforms build has alpha 255. */
  datatype Color = Color(red: Byte, green: Byte, blue: Byte)

  /** The channel of a colour with the given name. */
  function Component(c: Color, ch: Channel): Byte
  {
    match ch
    case Red => c.red
    case Green => c.green
    case Blue => c.blue
  }

  /**
   * `new Color(rgb)`: the red, green and blue bytes of a pixel. Its alpha byte is
   * dropped, so repacking forces the top byte to 0xFF and keeps the low 24 bits.
   */
  function FromRGB(p: Pixel): (c: Color)
    ensures forall ch :: Component(c, ch) == ChannelOf(ch, p)
    ensures GetRGB(c) == 0xFF00_0000 + p % 0x100_0000
  {
    var c := Color(ChannelOf(Red, p), ChannelOf(Green, p), ChannelOf(Blue, p));
    LowBits(p);
    c
  }

  /** The low 24 bits of a pixel are its red, green and blue bytes. */
  lemma LowBits(p: Pixel)
    ensures p % 0x100_0000 == ChannelOf(Red, p) * 0x10000 + ChannelOf(Green, p) * 0x100 + ChannelOf(Blue, p)
  {
    PixelDecomposes(p);
    var low := ChannelOf(Red, p) * 0x10000 + ChannelOf(Green, p) * 0x100 + ChannelOf(Blue, p);
    assert 0 <= low < 0x100_0000;
    assert p == Alpha(p) * 0x100_0000 + low;
  }

  /** `Color.getRGB()`: alpha 0xFF in the top byte, then red, green and blue. */
  function GetRGB(c: Color): (p: Pixel)
    ensures Alpha(p) == 0xFF
    ensures forall ch :: ChannelOf(ch, p) == Component(c, ch)
  {
    var p := 0xFF00_0000 + c.red * 0x10000 + c.green * 0x100 + c.blue;
    UnpackChannels(0xFF, c.red, c.green, c.blue);
    p
  }

  /** The four bytes of a packed value come back out of it. */
  lemma UnpackChannels(a: Byte, r: Byte, g: Byte, b: Byte)
    ensures 0 <= a * 0x100_0000 + r * 0x10000 + g * 0x100 + b < 0x1_0000_0000
    ensures var p := a * 0x100_0000 + r * 0x10000 + g * 0x100 + b;
      Alpha(p) == a && ChannelOf(Red, p) == r && ChannelOf(Green, p) == g && ChannelOf(Blue, p) == b
  {
    var p := a * 0x100_0000 + r * 0x10000 + g * 0x100 + b;
    var low := g * 0x100 + b;
    assert 0 <= low < 0x10000;
    var mid := r * 0x10000 + low;
    assert 0 <= mid < 0x100_0000;
    assert p / 0x100_0000 == a;
    assert p / 0x10000 == a * 0x100 + r;
    assert p / 0x100 == a * 0x10000 + r * 0x100 + g;
  }

  /** Every pixel is assembled from its four bytes. */
  lemma PixelDecomposes(p: Pixel)
    ensures p == Alpha(p) * 0x100_0000 + ChannelOf(Red, p) * 0x10000 + ChannelOf(Green, p) * 0x100 + ChannelOf(Blue, p)
  {
    var q2 := p / 0x100;
    var q1 := p / 0x10000;
    assert p == q2 * 0x100 + p % 0x100;
    assert q2 == q1 * 0x100 + q2 % 0x100;
    assert q1 == (p / 0x100_0000) * 0x100 + q1 % 0x100;
  }

  /** Unpacking a packed colour gives the colour back. */
  lemma {:induction false} ColorRoundTrip(c: Color)
    ensures FromRGB(GetRGB(c)) == c
  {
    assert Component(FromRGB(GetRGB(c)), Red) == c.red;
    assert Component(FromRGB(GetRGB(c)), Green) == c.green;
    assert Component(FromRGB(GetRGB(c)), Blue) == c.blue;
  }

  /** Repacking an unpacked pixel gives it back exactly when the pixel is opaque. */
  lemma PixelRoundTrip(p: Pixel)
    ensures GetRGB(FromRGB(p)) == p <==> Alpha(p) == 0xFF
  {
    PixelDecomposes(p);
  }
}
