/** NV21ToRGB24Matrix: the row loop, the flip for a negative height, and the chroma row that advances every other row. */
module Nv21Image {
  import opened Nv21Pixel
  import opened Nv21Rows

  /** The row function chosen for the processor: the plain one, or a block kernel with its wrapper for other widths. */
  datatype RowFunction = Plain | Vector(kernel: Kernel, block: nat)

  ghost predicate Faithful(f: RowFunction) { f.Vector? ==> f.block in {8, 16, 32} && MatchesOn(f.kernel, f.block) }

  method DrawRow(f: RowFunction, ys: seq<Byte>, vus: seq<Byte>, dst: array<Byte>, at: nat, width: nat)
    requires Faithful(f) && Covers(ys, vus, width) && at + 3 * width <= dst.Length
    modifies dst
    ensures Drawn(ys, vus, dst[..], old(dst[..]), at, width)
  {
    hide Drawn, Covers, MatchesOn;
    if f.Plain? {
      Nv21ToRgb24RowC(ys, vus, dst, at, width);
    } else if width % f.block != 0 {
      AnyRow(f.kernel, f.block, ys, vus, dst, at, width);
    } else {
      DrawWhole(f.kernel, f.block, ys, vus, dst, at, width);
    }
  }

  /** A chunked row whose two vector kernels draw single chunks right is such a row function, for any width. */
  lemma ChunkedIsFaithful(toArgb: Kernel, fromArgb: FromArgb, block: nat)
    requires block in {16, 32} && ChunkMatches(toArgb, fromArgb, block)
    ensures Faithful(Vector((ys, vus, n) => Chunked(toArgb, fromArgb, ys, vus, n), block))
  {
    ChunkedMatches(toArgb, fromArgb, block);
  }

  /** Where row k starts. */
  function RowStart(base: int, stride: int, k: int): int { base + k * stride }

  /** The arguments of a conversion: two source planes, the strides, and the size; a negative height flips the image. */
  datatype Image = Image(ys: seq<Byte>, yStride: int, vus: seq<Byte>, vuStride: int, rgbStride: int, width: nat, height: int)
  {
    function Rows(): nat { if height < 0 then -height else height }

    function LumaRow(y: nat): int { RowStart(0, yStride, y) }
    function ChromaRow(y: nat): int { RowStart(0, vuStride, y / 2) }

    /** Where image row y goes: upwards from the last row if the height is negative. */
    function OutRow(y: nat): int { RowStart(0, rgbStride, if height < 0 then -height - 1 - y else y) }

    /** Row y lies inside the planes and inside an output of this length. */
    predicate RowInside(y: nat, length: nat) {
      && 0 <= LumaRow(y) && LumaRow(y) + width <= |ys|
      && 0 <= ChromaRow(y) && ChromaRow(y) + (width + 1) / 2 * 2 <= |vus|
      && 0 <= OutRow(y) && OutRow(y) + 3 * width <= length
    }

    /** All rows do, and the output rows do not overlap. */
    ghost predicate Inside(length: nat) {
      (rgbStride >= 3 * width || rgbStride <= -3 * width || Rows() <= 1) && forall y: nat :: y < Rows() ==> RowInside(y, length)
    }

    /** Byte i of image row y, from luma row y and chroma row y / 2. */
    function ImageByte(y: nat, i: nat): Byte
      requires 0 <= LumaRow(y) && LumaRow(y) + width <= |ys|
      requires 0 <= ChromaRow(y) && ChromaRow(y) + (width + 1) / 2 * 2 <= |vus| && i < 3 * width
    {
      RowByte(ys[LumaRow(y)..], vus[ChromaRow(y)..], i)
    }
  }

  /** Rows before `upTo` are drawn, and every byte outside them is as before. */
  ghost predicate ImageDrawn(img: Image, rgb: seq<Byte>, before: seq<Byte>, upTo: nat)
    requires img.Inside(|before|) && upTo <= img.Rows()
  {
    && |rgb| == |before|
    && (forall y: nat, i: nat :: y < upTo && i < 3 * img.width ==> img.RowInside(y, |before|) && rgb[img.OutRow(y) + i] == img.ImageByte(y, i))
    && (forall k :: 0 <= k < |rgb| && (forall y: nat :: y < upTo ==> !InRow(img, y, k)) ==> rgb[k] == before[k])
  }

  ghost predicate InRow(img: Image, y: nat, k: int) { img.OutRow(y) <= k < img.OutRow(y) + 3 * img.width }

  /** Different rows are at least a row apart. */
  lemma RowsApart(img: Image, length: nat, y: nat, z: nat)
    requires img.Inside(length) && y < z < img.Rows()
    ensures img.OutRow(y) + 3 * img.width <= img.OutRow(z) || img.OutRow(z) + 3 * img.width <= img.OutRow(y)
  {
    var s, d := img.rgbStride, z - y;
    if img.height < 0 {
      assert img.OutRow(y) - img.OutRow(z) == d * s by { Distribute(-img.height - 1 - y, -img.height - 1 - z, s); }
    } else {
      assert img.OutRow(z) - img.OutRow(y) == d * s by { Distribute(z, y, s); }
    }
    AtLeastOne(d, s);
  }

  lemma Distribute(a: int, b: int, s: int)
    ensures a * s - b * s == (a - b) * s
  {
  }

  lemma AtLeastOne(d: int, s: int)
    requires d >= 1
    ensures s >= 0 ==> d * s >= s
    ensures s <= 0 ==> d * s <= s
  {
  }

  lemma ImageStep(img: Image, rgb: seq<Byte>, rgb': seq<Byte>, before: seq<Byte>, y: nat)
    requires img.Inside(|before|) && y < img.Rows() && ImageDrawn(img, rgb, before, y) && img.RowInside(y, |before|)
    requires Covers(img.ys[img.LumaRow(y)..], img.vus[img.ChromaRow(y)..], img.width)
    requires Drawn(img.ys[img.LumaRow(y)..], img.vus[img.ChromaRow(y)..], rgb', rgb, img.OutRow(y), img.width)
    ensures ImageDrawn(img, rgb', before, y + 1)
  {
    hide RowByte, RowStart;
    forall z: nat, i: nat | z < y + 1 && i < 3 * img.width
      ensures img.RowInside(z, |before|) && rgb'[img.OutRow(z) + i] == img.ImageByte(z, i)
    {
      assert img.RowInside(z, |before|);
      if z < y {
        assert rgb[img.OutRow(z) + i] == img.ImageByte(z, i);
        RowsApart(img, |before|, z, y);
      }
    }
    forall k | 0 <= k < |rgb'| && (forall z: nat :: z < y + 1 ==> !InRow(img, z, k)) ensures rgb'[k] == before[k] {
      assert !InRow(img, y, k);
      assert forall z: nat | z < y :: !InRow(img, z, k);
    }
  }

  /** The next luma, chroma and output row. */
  lemma NextRows(img: Image, y: nat)
    ensures img.LumaRow(y + 1) == img.LumaRow(y) + img.yStride
    ensures img.ChromaRow(y + 1) == if y % 2 == 1 then img.ChromaRow(y) + img.vuStride else img.ChromaRow(y)
    ensures img.OutRow(y + 1) == img.OutRow(y) + if img.height < 0 then -img.rgbStride else img.rgbStride
    ensures img.LumaRow(0) == 0 && img.ChromaRow(0) == 0
    ensures img.OutRow(0) == if img.height < 0 then (-img.height - 1) * img.rgbStride else 0
  {
    Distribute(y + 1, y, img.yStride);
    Distribute((y + 1) / 2, y / 2, img.vuStride);
    Distribute(-img.height - 1 - (y + 1), -img.height - 1 - y, img.rgbStride);
    Distribute(y + 1, y, img.rgbStride);
  }

  /**
   * NV21ToRGB24Matrix with any faithful row function: -1 and no change for an empty size, otherwise exactly the image's
   * bytes, each at its place, and no others.
   */
  method Nv21ToRgb24Matrix(f: RowFunction, ys: seq<Byte>, src_stride_y: int, vus: seq<Byte>, src_stride_vu: int,
                           dst: array<Byte>, dst_stride: int, width: int, height0: int) returns (code: int)
    requires Faithful(f)
    requires width > 0 ==> Image(ys, src_stride_y, vus, src_stride_vu, dst_stride, width, height0).Inside(dst.Length)
    modifies dst
    ensures width <= 0 || height0 == 0 ==> code == -1 && dst[..] == old(dst[..])
    ensures width > 0 && height0 != 0 ==>
              var img := Image(ys, src_stride_y, vus, src_stride_vu, dst_stride, width, height0);
              code == 0 && ImageDrawn(img, dst[..], old(dst[..]), img.Rows())
  {
    if width <= 0 || height0 == 0 { return -1; }
    ghost var img, before := Image(ys, src_stride_y, vus, src_stride_vu, dst_stride, width, height0), dst[..];
    var height, stride, at := height0, dst_stride, 0;
    if height < 0 {
      height := -height;
      at := (height - 1) * dst_stride;
      stride := -stride;
    }
    NextRows(img, 0);
    var src_y, src_vu := 0, 0;
    hide ImageDrawn, Drawn, RowByte, RowStart, Faithful;
    NoRowsDrawn(img, before);
    for y := 0 to height
      invariant src_y == img.LumaRow(y) && src_vu == img.ChromaRow(y) && at == img.OutRow(y)
      invariant ImageDrawn(img, dst[..], before, y)
    {
      assert img.RowInside(y, dst.Length);
      ghost var was := dst[..];
      DrawRow(f, ys[src_y..], vus[src_vu..], dst, at, width);
      ImageStep(img, was, dst[..], before, y);
      NextRows(img, y);
      at := at + stride;
      src_y := src_y + src_stride_y;
      if y % 2 == 1 { src_vu := src_vu + src_stride_vu; }
    }
    return 0;
  }

  lemma NoRowsDrawn(img: Image, before: seq<Byte>)
    requires img.Inside(|before|)
    ensures ImageDrawn(img, before, before, 0)
  {
  }

  /** So it makes no difference which faithful row function runs. */
  lemma ImageIsUnique(img: Image, rgb: seq<Byte>, rgb': seq<Byte>, before: seq<Byte>)
    requires img.Inside(|before|) && ImageDrawn(img, rgb, before, img.Rows()) && ImageDrawn(img, rgb', before, img.Rows())
    ensures rgb == rgb'
  {
    hide RowByte, RowStart;
    forall k | 0 <= k < |before| ensures rgb[k] == rgb'[k] {
      if y: nat :| y < img.Rows() && InRow(img, y, k) {
        var i: nat := k - img.OutRow(y);
        assert img.RowInside(y, |before|);
        assert rgb[img.OutRow(y) + i] == img.ImageByte(y, i) && rgb'[img.OutRow(y) + i] == img.ImageByte(y, i);
      }
    }
  }

  /** Output pixel (x, y) is YuvPixel of luma (x, y) and the chroma pair, V first, at row y / 2 and column x / 2. */
  lemma ImagePixel(img: Image, rgb: seq<Byte>, before: seq<Byte>, x: nat, y: nat)
    requires img.Inside(|before|) && ImageDrawn(img, rgb, before, img.Rows()) && x < img.width && y < img.Rows()
    ensures img.RowInside(y, |before|)
    ensures var luma, v := img.ys[y * img.yStride + x], y / 2 * img.vuStride + x / 2 * 2;
            var at := (if img.height < 0 then -img.height - 1 - y else y) * img.rgbStride + 3 * x;
            Pixel(rgb[at], rgb[at + 1], rgb[at + 2]) == YuvToRgb(luma, img.vus[v + 1], img.vus[v])
  {
    hide YuvToRgb, ImageDrawn, RowByte;
    PixelByte(img, rgb, before, x, y, 0);
    PixelByte(img, rgb, before, x, y, 1);
    PixelByte(img, rgb, before, x, y, 2);
  }

  lemma PixelByte(img: Image, rgb: seq<Byte>, before: seq<Byte>, x: nat, y: nat, c: nat)
    requires img.Inside(|before|) && ImageDrawn(img, rgb, before, img.Rows()) && x < img.width && y < img.Rows() && c < 3
    ensures img.RowInside(y, |before|) && |rgb| == |before|
    ensures rgb[img.OutRow(y) + 3 * x + c] == Component(PixelAt(img.ys[img.LumaRow(y)..], img.vus[img.ChromaRow(y)..], x), c)
  {
    hide YuvToRgb, RowStart, Component, PixelAt;
    assert img.RowInside(y, |before|);
    var i := 3 * x + c;
    assert i / 3 == x && i % 3 == c;
    assert rgb[img.OutRow(y) + i] == img.ImageByte(y, i);
  }
}
