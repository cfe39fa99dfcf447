/** YuvPixel: one BT.601 pixel in 32-bit integers, with branchless clamps. */
module Nv21Pixel {
  import opened Basics

  type Byte = i: int | 0 <= i < 256

  const YG := 18997
  const YGB := -1160
  const UB := -128
  const UG := 25
  const VG := 52
  const VR := -102
  const BB := UB * 128 + YGB
  const BG := UG * 128 + VG * 128 + YGB
  const BR := VR * 128 + YGB

  /** An arithmetic shift by 31: all ones for a negative word, else zero. */
  function SignMask(i: int): (m: int)
    requires Int32(i)
    ensures m == -1 || m == 0
  {
    i / 0x8000_0000
  }

  /** `mask & v` and `mask | v` for such a mask. */
  function And(mask: int, v: int): int
    requires mask == -1 || mask == 0
  {
    if mask == -1 then v else 0
  }

  function Or(mask: int, v: int): int
    requires mask == -1 || mask == 0
  {
    if mask == -1 then -1 else v
  }

  function Clamp0(v: int): int
    requires Int32(v) && Int32(-v)
  {
    And(SignMask(-v), v)
  }

  function Clamp255(v: int): int
    requires Int32(v) && Int32(255 - v)
  {
    Or(SignMask(255 - v), v) % 256
  }

  function Clamp(val: int): int
    requires Int32(val) && Int32(-val)
  {
    Clamp255(Clamp0(val))
  }

  function Limited(i: int): Byte { if i < 0 then 0 else if i > 255 then 255 else i }

  /** The branchless clamps limit to 0..255, the smallest word aside. */
  lemma ClampLimits(val: int)
    requires Int32(val) && Int32(-val)
    ensures Clamp(val) == Limited(val)
  {
  }

  datatype Pixel = Pixel(b: Byte, g: Byte, r: Byte)

  /** One channel before the clamp: 32-bit arithmetic, then an arithmetic shift by 6. */
  function Channel(chroma: int, y: Byte, bias: int): int { ToInt32(chroma + y * 0x0101 * YG / 0x1_0000 + bias) / 64 }

  /** The channels of a pixel, limited to a byte. */
  function YuvToRgb(y: Byte, u: Byte, v: Byte): Pixel {
    Pixel(Limited(Channel(-(u * UB), y, BB)), Limited(Channel(-(u * UG + v * VG), y, BG)), Limited(Channel(-(v * VR), y, BR)))
  }

  /** No product or sum leaves 32 bits, for any byte. */
  lemma ChannelRange(y: Byte, u: Byte, v: Byte)
    ensures Int32(y * 0x0101 * YG)
    ensures Int32(-(u * UB) + y * 0x0101 * YG / 0x1_0000 + BB) && Int32(-(v * VR) + y * 0x0101 * YG / 0x1_0000 + BR)
    ensures Int32(-(u * UG + v * VG) + y * 0x0101 * YG / 0x1_0000 + BG)
    ensures var b, g, r := Channel(-(u * UB), y, BB), Channel(-(u * UG + v * VG), y, BG), Channel(-(v * VR), y, BR);
            -1000 < b < 1000 && -1000 < g < 1000 && -1000 < r < 1000
  {
  }

  /**
   * Before the clamp the channels are within 3, 1 and 1 of the BT.601 formulas that the constants approximate:
   * B = 1.164 (Y - 16) + 2.018 (U - 128), G = 1.164 (Y - 16) - 0.391 (U - 128) - 0.813 (V - 128),
   * R = 1.164 (Y - 16) + 1.596 (V - 128), here in thousandths.
   */
  lemma CloseToBt601(y: Byte, u: Byte, v: Byte)
    ensures -3000 < 1000 * Channel(-(u * UB), y, BB) - (1164 * (y - 16) + 2018 * (u - 128)) < 3000
    ensures -1000 < 1000 * Channel(-(u * UG + v * VG), y, BG) - (1164 * (y - 16) - 391 * (u - 128) - 813 * (v - 128)) < 1000
    ensures -1000 < 1000 * Channel(-(v * VR), y, BR) - (1164 * (y - 16) + 1596 * (v - 128)) < 1000
  {
  }

  /** The pixel to the last bit: 16-bit luma times 18997 / 2^16, the chroma terms in 64ths, and the limits. */
  lemma PixelExactly(y: Byte, u: Byte, v: Byte)
    ensures var luma := 257 * y * 18997 / 65536;
            var b, g, r := (luma + 128 * u - 17544) / 64, (luma - 25 * u - 52 * v + 8696) / 64, (luma + 102 * v - 14216) / 64;
            && YuvToRgb(y, u, v).b == (if b < 0 then 0 else if b > 255 then 255 else b)
            && YuvToRgb(y, u, v).g == (if g < 0 then 0 else if g > 255 then 255 else g)
            && YuvToRgb(y, u, v).r == (if r < 0 then 0 else if r > 255 then 255 else r)
  {
    ChannelRange(y, u, v);
  }

  /** Black and white. */
  lemma KnownColours()
    ensures YuvToRgb(16, 128, 128) == Pixel(0, 0, 0) && YuvToRgb(255, 128, 128) == Pixel(255, 255, 255)
  {
    PixelExactly(16, 128, 128);
    PixelExactly(255, 128, 128);
  }

  /** Stores the three bytes of a pixel at `at`, and no others. */
  method YuvPixel(y: Byte, u: Byte, v: Byte, rgb: array<Byte>, at: nat)
    requires at + 3 <= rgb.Length
    modifies rgb
    ensures Pixel(rgb[at], rgb[at + 1], rgb[at + 2]) == YuvToRgb(y, u, v)
    ensures forall i :: 0 <= i < rgb.Length && !(at <= i < at + 3) ==> rgb[i] == old(rgb[i])
  {
    var y1 := y * 0x0101 * YG / 0x1_0000;
    ChannelRange(y, u, v);
    var b, g, r := ToInt32(-(u * UB) + y1 + BB) / 64, ToInt32(-(u * UG + v * VG) + y1 + BG) / 64, ToInt32(-(v * VR) + y1 + BR) / 64;
    ClampLimits(b);
    ClampLimits(g);
    ClampLimits(r);
    rgb[at], rgb[at + 1], rgb[at + 2] := Clamp(b), Clamp(g), Clamp(r);
  }
}
