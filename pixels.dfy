/**
 * 24-bit RGB packing of framebuffer pixels (`from_rgb`/`to_rgb`) and the byte
 * serialisation used when the image is saved. Channels are taken after their
 * `f32 as u32` conversion, so they are 32-bit words.
 */
module Pixels {
  /** `from_rgb`: r in bits 16.., g in bits 8.., b in bits 0.. (overlapping if a channel exceeds 255). */
  function FromRgb(r: bv32, g: bv32, b: bv32): bv32
  {
    (r << 16) | (g << 8) | b
  }

  /** `u as u8`: keep the low eight bits. */
  function LowByte(u: bv32): bv8
  {
    (u & 0xFF) as bv8
  }

  /**
   * `to_rgb`: take the bits from 16 upwards as red, clear them, take the bits from 8
   * upwards as green, clear them, and keep the remainder as blue; each is then cut to u8.
   */
  function ToRgb(color: bv32): (bv8, bv8, bv8)
  {
    var r := color >> 16;
    var rest := color ^ (r << 16);
    var g := rest >> 8;
    var b := rest ^ (g << 8);
    (LowByte(r), LowByte(g), LowByte(b))
  }

  /** Whatever the word, `to_rgb` returns bits 16-23, 8-15 and 0-7 (bits 24-31 are dropped). */
  lemma ToRgbChannels(color: bv32)
    ensures ToRgb(color).0 == ((color >> 16) & 0xFF) as bv8
    ensures ToRgb(color).1 == ((color >> 8) & 0xFF) as bv8
    ensures ToRgb(color).2 == (color & 0xFF) as bv8
  {
  }

  /** A packed pixel of 8-bit channels fits in 24 bits and keeps each channel in its byte. */
  lemma FromRgbLayout(r: bv32, g: bv32, b: bv32)
    requires r < 256 && g < 256 && b < 256
    ensures FromRgb(r, g, b) < 0x100_0000
    ensures (FromRgb(r, g, b) >> 16) & 0xFF == r
    ensures (FromRgb(r, g, b) >> 8) & 0xFF == g
    ensures FromRgb(r, g, b) & 0xFF == b
  {
  }

  /** Unpacking a packed pixel gives back its channels. */
  lemma ToRgbFromRgb(r: bv32, g: bv32, b: bv32)
    requires r < 256 && g < 256 && b < 256
    ensures ToRgb(FromRgb(r, g, b)) == (r as bv8, g as bv8, b as bv8)
  {
  }

  /** Packing the unpacked channels of a 24-bit word gives back the word. */
  lemma FromRgbToRgb(color: bv32)
    requires color < 0x100_0000
    ensures FromRgb(ToRgb(color).0 as bv32, ToRgb(color).1 as bv32, ToRgb(color).2 as bv32) == color
  {
  }

  /** The save path: every pixel flattened into its (r, g, b) bytes, in pixel order. */
  function ToBytes(pixels: seq<bv32>): seq<bv8>
  {
    if pixels == [] then []
    else
      var (r, g, b) := ToRgb(pixels[0]);
      [r, g, b] + ToBytes(pixels[1..])
  }

  /** The byte buffer has three bytes per pixel, and bytes 3k..3k+2 are the channels of pixel k. */
  lemma {:induction false} ToBytesLayout(pixels: seq<bv32>, k: nat)
    requires k < |pixels|
    ensures |ToBytes(pixels)| == 3 * |pixels|
    ensures ToBytes(pixels)[3 * k] == ToRgb(pixels[k]).0
    ensures ToBytes(pixels)[3 * k + 1] == ToRgb(pixels[k]).1
    ensures ToBytes(pixels)[3 * k + 2] == ToRgb(pixels[k]).2
  {
    if k == 0 {
      ToBytesLength(pixels[1..]);
    } else {
      ToBytesLayout(pixels[1..], k - 1);
    }
  }

  lemma {:induction false} ToBytesLength(pixels: seq<bv32>)
    ensures |ToBytes(pixels)| == 3 * |pixels|
  {
    if pixels != [] {
      ToBytesLength(pixels[1..]);
    }
  }
}
