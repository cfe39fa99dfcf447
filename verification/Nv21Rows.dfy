/** Rows of an NV21 image: the plain row, the wrapper that takes a block kernel to any width, and the chunked kernels. */
module Nv21Rows {
  import opened Basics
  import opened Nv21Pixel

  /** Pixel x of a row: luma x and the chroma pair at column x / 2, V before U. */
  function PixelAt(ys: seq<Byte>, vus: seq<Byte>, x: nat): Pixel
    requires x < |ys| && x / 2 * 2 + 1 < |vus|
  {
    YuvToRgb(ys[x], vus[x / 2 * 2 + 1], vus[x / 2 * 2])
  }

  /** Enough source bytes for `width` pixels: one chroma pair for every two, or for the odd last one. */
  predicate Covers(ys: seq<Byte>, vus: seq<Byte>, width: nat) { width <= |ys| && (width + 1) / 2 * 2 <= |vus| }

  function Component(p: Pixel, c: nat): Byte
    requires c < 3
  {
    match c
    case 0 => p.b
    case 1 => p.g
    case _ => p.r
  }

  /** Byte i of the row in RGB24. */
  function RowByte(ys: seq<Byte>, vus: seq<Byte>, i: nat): Byte
    requires i / 3 < |ys| && i / 3 / 2 * 2 + 1 < |vus|
  {
    Component(PixelAt(ys, vus, i / 3), i % 3)
  }

  lemma InRow(ys: seq<Byte>, vus: seq<Byte>, width: nat, i: nat)
    requires Covers(ys, vus, width) && i < 3 * width
    ensures i / 3 < |ys| && i / 3 / 2 * 2 + 1 < |vus|
  {
  }

  function Row(ys: seq<Byte>, vus: seq<Byte>, width: nat): (rgb: seq<Byte>)
    requires Covers(ys, vus, width)
    ensures |rgb| == 3 * width
    ensures forall i :: 0 <= i < 3 * width ==> (InRow(ys, vus, width, i); rgb[i] == RowByte(ys, vus, i))
  {
    seq(3 * width, i requires 0 <= i < 3 * width => InRow(ys, vus, width, i); RowByte(ys, vus, i))
  }

  /** The first `upTo` pixels stand at `at`, and nothing outside the row's bytes has changed. */
  ghost predicate Drawn(ys: seq<Byte>, vus: seq<Byte>, rgb: seq<Byte>, before: seq<Byte>, at: nat, upTo: nat)
    requires Covers(ys, vus, upTo)
  {
    && |rgb| == |before| && at + 3 * upTo <= |rgb|
    && (forall i :: 0 <= i < 3 * upTo ==> rgb[at + i] == RowByte(ys, vus, i))
    && (forall k :: 0 <= k < |rgb| && !(at <= k < at + 3 * upTo) ==> rgb[k] == before[k])
  }

  lemma DrawnPixel(ys: seq<Byte>, vus: seq<Byte>, rgb: seq<Byte>, before: seq<Byte>, at: nat, x: nat, rgb': seq<Byte>)
    requires Covers(ys, vus, x + 1) && at + 3 * x + 3 <= |rgb| == |rgb'| && Drawn(ys, vus, rgb, before, at, x)
    requires Pixel(rgb'[at + 3 * x], rgb'[at + 3 * x + 1], rgb'[at + 3 * x + 2]) == PixelAt(ys, vus, x)
    requires forall k :: 0 <= k < |rgb| && !(at + 3 * x <= k < at + 3 * x + 3) ==> rgb'[k] == rgb[k]
    ensures Drawn(ys, vus, rgb', before, at, x + 1)
  {
    hide PixelAt;
    forall i | 0 <= i < 3 * (x + 1) ensures rgb'[at + i] == RowByte(ys, vus, i) {
      if i < 3 * x {
        assert rgb[at + i] == RowByte(ys, vus, i);
      } else {
        assert i / 3 == x;
      }
    }
  }

  /** Puts pixel x, from its luma and the chroma pair (v, u) at its column. */
  method DrawPixel(ys: seq<Byte>, vus: seq<Byte>, rgb: array<Byte>, ghost before: seq<Byte>, at: nat, x: nat, u: Byte, v: Byte)
    requires Covers(ys, vus, x + 1) && at + 3 * x + 3 <= rgb.Length && Drawn(ys, vus, rgb[..], before, at, x)
    requires u == vus[x / 2 * 2 + 1] && v == vus[x / 2 * 2]
    modifies rgb
    ensures Drawn(ys, vus, rgb[..], before, at, x + 1)
  {
    hide Drawn, YuvToRgb;
    ghost var was := rgb[..];
    YuvPixel(ys[x], u, v, rgb, at + 3 * x);
    DrawnPixel(ys, vus, was, before, at, x, rgb[..]);
  }

  /** NV21ToRGB24Row_C: two pixels at a time, and the odd last one. */
  method Nv21ToRgb24RowC(ys: seq<Byte>, vus: seq<Byte>, rgb: array<Byte>, at: nat, width: nat)
    requires Covers(ys, vus, width) && at + 3 * width <= rgb.Length
    modifies rgb
    ensures Drawn(ys, vus, rgb[..], old(rgb[..]), at, width)
  {
    hide *;
    ghost var before := rgb[..];
    var x: nat := 0;
    NothingDrawn(ys, vus, rgb[..], at);
    while x < width - 1
      invariant x % 2 == 0 && x <= width && Covers(ys, vus, x) && Drawn(ys, vus, rgb[..], before, at, x)
    {
      PairCovers(ys, vus, x, width);
      DrawPixel(ys, vus, rgb, before, at, x, vus[x + 1], vus[x]);
      DrawPixel(ys, vus, rgb, before, at, x + 1, vus[x + 1], vus[x]);
      x := x + 2;
    }
    if width % 2 == 1 {
      PairCovers(ys, vus, x, width);
      DrawPixel(ys, vus, rgb, before, at, x, vus[x + 1], vus[x]);
    }
  }

  lemma NothingDrawn(ys: seq<Byte>, vus: seq<Byte>, rgb: seq<Byte>, at: nat)
    requires at <= |rgb|
    ensures Covers(ys, vus, 0) && Drawn(ys, vus, rgb, rgb, at, 0)
  {
  }

  /** The chroma pair at an even column serves that pixel and the next. */
  lemma PairCovers(ys: seq<Byte>, vus: seq<Byte>, x: nat, width: nat)
    requires Covers(ys, vus, width) && x % 2 == 0 && x < width
    ensures x < |ys| && x + 1 < |vus| && x / 2 * 2 == x && Covers(ys, vus, x + 1)
    ensures x + 1 < width ==> (x + 1) / 2 * 2 == x && Covers(ys, vus, x + 2)
  {
  }

  /** A vector kernel: from source bytes and a width to the row's bytes. */
  type Kernel = (seq<Byte>, seq<Byte>, nat) -> seq<Byte>

  /** The kernel draws the plain row on every width that is a multiple of its block. */
  ghost predicate MatchesOn(kernel: Kernel, block: nat) {
    block > 0 && forall ys, vus, n: nat {:trigger kernel(ys, vus, n)} ::
      n % block == 0 && Covers(ys, vus, n) ==> kernel(ys, vus, n) == Row(ys, vus, n)
  }

  /** memcpy */
  method Copy(dst: array<Byte>, at: nat, src: seq<Byte>)
    requires at + |src| <= dst.Length
    modifies dst
    ensures Overwritten(dst[..], old(dst[..]), at, src)
  {
    forall i | 0 <= i < |src| { dst[at + i] := src[i]; }
  }

  /** `s` with `part` written over it at `at`. */
  ghost predicate Overwritten(s': seq<Byte>, s: seq<Byte>, at: nat, part: seq<Byte>) {
    && |s'| == |s| && at + |part| <= |s|
    && (forall i :: 0 <= i < |part| ==> s'[at + i] == part[i])
    && (forall k :: 0 <= k < |s| && !(at <= k < at + |part|) ==> s'[k] == s[k])
  }

  /** A row from an even column on is the row of what follows. */
  lemma RowFrom(ys: seq<Byte>, vus: seq<Byte>, x: nat, t: nat)
    requires x % 2 == 0 && Covers(ys, vus, x + t)
    ensures x <= |ys| && x <= |vus| && Covers(ys[x..], vus[x..], t)
    ensures forall j :: 3 * x <= j < 3 * (x + t) ==> RowByte(ys, vus, j) == Row(ys[x..], vus[x..], t)[j - 3 * x]
  {
    hide YuvToRgb, Component;
    forall j | 3 * x <= j < 3 * (x + t) ensures RowByte(ys, vus, j) == Row(ys[x..], vus[x..], t)[j - 3 * x] {
      var i := j - 3 * x;
      assert j / 3 == x + i / 3 && j % 3 == i % 3;
      PairFrom(x, i / 3);
      assert Row(ys[x..], vus[x..], t)[i] == RowByte(ys[x..], vus[x..], i);
    }
  }

  lemma PairFrom(x: nat, k: nat)
    requires x % 2 == 0
    ensures (x + k) / 2 * 2 == x + k / 2 * 2
  {
  }

  /** A drawn part grows by the row of what follows it. */
  lemma DrawnChunk(ys: seq<Byte>, vus: seq<Byte>, rgb: seq<Byte>, before: seq<Byte>, at: nat, x: nat, t: nat, rgb': seq<Byte>)
    requires x % 2 == 0 && Covers(ys, vus, x + t) && Drawn(ys, vus, rgb, before, at, x) && at + 3 * (x + t) <= |rgb|
    requires x <= |ys| && x <= |vus| && Covers(ys[x..], vus[x..], t)
    requires Overwritten(rgb', rgb, at + 3 * x, Row(ys[x..], vus[x..], t))
    ensures Drawn(ys, vus, rgb', before, at, x + t)
  {
    RowFrom(ys, vus, x, t);
    hide Row, RowByte;
    forall i | 0 <= i < 3 * (x + t) ensures rgb'[at + i] == RowByte(ys, vus, i) {
      if i < 3 * x {
        assert rgb'[at + i] == rgb[at + i];
      } else {
        assert rgb'[at + 3 * x + (i - 3 * x)] == Row(ys[x..], vus[x..], t)[i - 3 * x];
      }
    }
  }

  /** Two sources that agree on the first `width` pixels have the same row there. */
  lemma RowPrefix(ys: seq<Byte>, vus: seq<Byte>, n: nat, ys': seq<Byte>, vus': seq<Byte>, width: nat)
    requires Covers(ys, vus, n) && Covers(ys', vus', width) && width <= n
    requires ys[..width] == ys'[..width] && vus[..(width + 1) / 2 * 2] == vus'[..(width + 1) / 2 * 2]
    ensures Row(ys, vus, n)[..3 * width] == Row(ys', vus', width)
  {
    hide YuvToRgb, Component;
    forall i | 0 <= i < 3 * width ensures RowByte(ys, vus, i) == RowByte(ys', vus', i) {
      var x := i / 3;
      assert ys[..width][x] == ys'[..width][x];
      var pairs := (width + 1) / 2 * 2;
      assert x / 2 * 2 + 1 < pairs;
      assert vus[..pairs][x / 2 * 2] == vus'[..pairs][x / 2 * 2] && vus[..pairs][x / 2 * 2 + 1] == vus'[..pairs][x / 2 * 2 + 1];
    }
    assert Row(ys, vus, n)[..3 * width] == Row(ys', vus', width) by { hide RowByte; }
  }

  /**
   * ANY21C with UVSHIFT 1, SBPP 1, SBPP2 2, BPP 3 and MASK = block - 1: the kernel draws the whole blocks in place, and
   * the rest through three parts of a temporary buffer. It draws the plain row for any width.
   */
  method AnyRow(kernel: Kernel, block: nat, ys: seq<Byte>, vus: seq<Byte>, dst: array<Byte>, at: nat, width: nat)
    requires block in {8, 16, 32} && MatchesOn(kernel, block)
    requires Covers(ys, vus, width) && at + 3 * width <= dst.Length
    modifies dst
    ensures Drawn(ys, vus, dst[..], old(dst[..]), at, width)
  {
    hide YuvToRgb, Row, MatchesOn, Drawn, Covers;
    ghost var before := dst[..];
    var r := width % block;
    var n := width - r;
    WholeBlocks(width, block);
    RowParts(ys, vus, n, r);
    NothingDrawn(ys, vus, before, at);
    if n > 0 { DrawWhole(kernel, block, ys, vus, dst, at, n); }
    ghost var was := dst[..];
    var tail := DrawTail(kernel, block, ys[n..n + r], vus[n..n + (r + 1) / 2 * 2]);
    Copy(dst, at + n * 3, tail);
    DrawnChunk(ys, vus, was, before, at, n, r, dst[..]);
  }

  method DrawWhole(kernel: Kernel, block: nat, ys: seq<Byte>, vus: seq<Byte>, dst: array<Byte>, at: nat, n: nat)
    requires MatchesOn(kernel, block) && n % block == 0
    requires Covers(ys, vus, n) && at + 3 * n <= dst.Length
    modifies dst
    ensures Drawn(ys, vus, dst[..], old(dst[..]), at, n)
  {
    hide YuvToRgb, Row, MatchesOn, Drawn;
    ghost var before := dst[..];
    NothingDrawn(ys, vus, before, at);
    assert ys[0..] == ys && vus[0..] == vus;
    KernelDraws(kernel, block, ys, vus, n);
    Copy(dst, at, kernel(ys, vus, n));
    DrawnChunk(ys, vus, before, before, at, 0, n, dst[..]);
  }

  /** The sources of the first `n` pixels and of the `r` after them. */
  lemma RowParts(ys: seq<Byte>, vus: seq<Byte>, n: nat, r: nat)
    requires n % 2 == 0 && Covers(ys, vus, n + r)
    ensures Covers(ys, vus, n) && n + r <= |ys| && n + (r + 1) / 2 * 2 <= |vus|
    ensures var tailYs, tailVus := ys[n..n + r], vus[n..n + (r + 1) / 2 * 2];
            && Covers(ys[n..], vus[n..], r) && Covers(tailYs, tailVus, r)
            && Row(tailYs, tailVus, r) == Row(ys[n..], vus[n..], r)
  {
    hide Row;
    PairFrom(n, r + 1);
    var tailYs, tailVus := ys[n..n + r], vus[n..n + (r + 1) / 2 * 2];
    RowPrefix(tailYs, tailVus, r, ys[n..], vus[n..], r);
    assert Row(tailYs, tailVus, r)[..3 * r] == Row(tailYs, tailVus, r);
  }

  lemma WholeBlocks(width: nat, block: nat)
    requires block in {8, 16, 32}
    ensures var n := width - width % block; n % block == 0 && n % 2 == 0 && 0 <= n <= width && width % block < block
  {
    if block == 8 {} else if block == 16 {} else { assert block == 32; }
  }

  lemma KernelDraws(kernel: Kernel, block: nat, ys: seq<Byte>, vus: seq<Byte>, n: nat)
    requires MatchesOn(kernel, block) && n % block == 0 && Covers(ys, vus, n)
    ensures kernel(ys, vus, n) == Row(ys, vus, n)
  {
  }

  /** The last, partial block: its sources are copied in front of zeros, and its first pixels are copied out. */
  method DrawTail(kernel: Kernel, block: nat, ys: seq<Byte>, vus: seq<Byte>) returns (tail: seq<Byte>)
    requires block in {8, 16, 32} && MatchesOn(kernel, block) && |ys| < block && |vus| == (|ys| + 1) / 2 * 2
    ensures tail == Row(ys, vus, |ys|)
  {
    var r := |ys|;
    var temp := new Byte[128 * 3];
    FillTemp(temp, ys, vus);
    var luma, chroma := temp[..128], temp[128..256];
    hide YuvToRgb, Row, MatchesOn;
    KernelDraws(kernel, block, luma, chroma, block);
    RowPrefix(luma, chroma, block, ys, vus, r);
    var part := kernel(luma, chroma, block);
    Copy(temp, 256, part);
    tail := temp[256..256 + r * 3];
    assert tail == part[..3 * r];
  }

  method FillTemp(temp: array<Byte>, ys: seq<Byte>, vus: seq<Byte>)
    requires temp.Length == 128 * 3 && |ys| <= 128 && |vus| <= 128
    modifies temp
    ensures temp[..128][..|ys|] == ys[..|ys|] && temp[128..256][..|vus|] == vus[..|vus|]
  {
    Copy(temp, 0, seq(128 * 2, _ => 0));
    Copy(temp, 0, ys);
    Copy(temp, 128, vus);
  }

  const MAXTWIDTH := 2048

  /** The two vector kernels a chunked row is made of: to ARGB, and from there to RGB24. */
  type FromArgb = (seq<Byte>, nat) -> seq<Byte>

  /** One after the other they draw the plain row of up to MAXTWIDTH pixels, if those are whole blocks. */
  ghost predicate ChunkMatches(toArgb: Kernel, fromArgb: FromArgb, block: nat) {
    block > 0 && forall ys, vus, n: nat {:trigger toArgb(ys, vus, n)} ::
      n % block == 0 && n <= MAXTWIDTH && Covers(ys, vus, n) ==> fromArgb(toArgb(ys, vus, n), n) == Row(ys, vus, n)
  }

  /** The bytes NV21ToRGB24Row_SSSE3 and _AVX2 write. */
  function Chunked(toArgb: Kernel, fromArgb: FromArgb, ys: seq<Byte>, vus: seq<Byte>, width: nat): seq<Byte>
    decreases width
  {
    if width == 0 || !Covers(ys, vus, width) then []
    else
      var t := if width > MAXTWIDTH then MAXTWIDTH else width;
      fromArgb(toArgb(ys, vus, t), t) + Chunked(toArgb, fromArgb, ys[t..], vus[Min(t, |vus|)..], width - t)
  }

  lemma RowSplits(ys: seq<Byte>, vus: seq<Byte>, a: nat, b: nat)
    requires a % 2 == 0 && Covers(ys, vus, a + b)
    ensures a <= |ys| && a <= |vus| && Covers(ys[a..], vus[a..], b) && Covers(ys, vus, a)
    ensures Row(ys, vus, a + b) == Row(ys, vus, a) + Row(ys[a..], vus[a..], b)
  {
    hide RowByte, Row, Covers;
    RowFrom(ys, vus, a, b);
    PartCovers(ys, vus, 0, a, a + b);
    forall i | 0 <= i < 3 * (a + b)
      ensures Row(ys, vus, a + b)[i] == if i < 3 * a then Row(ys, vus, a)[i] else Row(ys[a..], vus[a..], b)[i - 3 * a]
    {
      RowSplitAt(ys, vus, a, b, i);
    }
  }

  lemma RowSplitAt(ys: seq<Byte>, vus: seq<Byte>, a: nat, b: nat, i: nat)
    requires a % 2 == 0 && Covers(ys, vus, a + b) && i < 3 * (a + b)
    requires a <= |ys| && a <= |vus| && Covers(ys[a..], vus[a..], b) && Covers(ys, vus, a)
    ensures Row(ys, vus, a + b)[i] == if i < 3 * a then Row(ys, vus, a)[i] else Row(ys[a..], vus[a..], b)[i - 3 * a]
  {
    hide *;
    RowFrom(ys, vus, a, b);
    RowAt(ys, vus, a + b, i);
    if i < 3 * a { RowAt(ys, vus, a, i); }
  }

  lemma RowAt(ys: seq<Byte>, vus: seq<Byte>, width: nat, i: nat)
    requires Covers(ys, vus, width) && i < 3 * width
    ensures i / 3 < |ys| && i / 3 / 2 * 2 + 1 < |vus| && Row(ys, vus, width)[i] == RowByte(ys, vus, i)
  {
    hide Row, RowByte;
    InRow(ys, vus, width, i);
  }

  lemma {:induction false} ChunkedIsRow(toArgb: Kernel, fromArgb: FromArgb, block: nat, ys: seq<Byte>, vus: seq<Byte>, width: nat)
    requires Whole(width, block) && ChunkMatches(toArgb, fromArgb, block) && Covers(ys, vus, width)
    ensures Chunked(toArgb, fromArgb, ys, vus, width) == Row(ys, vus, width)
    decreases width
  {
    hide Row, Covers, ChunkMatches, Whole;
    if width == 0 {
      EmptyRow(ys, vus);
    } else {
      var t := if width > MAXTWIDTH then MAXTWIDTH else width;
      assert ys[0..] == ys && vus[0..] == vus;
      ChunkSource(toArgb, fromArgb, block, ys, vus, 0, width, width);
      RowSplits(ys, vus, t, width - t);
      ChunkedIsRow(toArgb, fromArgb, block, ys[t..], vus[t..], width - t);
    }
  }

  lemma EmptyRow(ys: seq<Byte>, vus: seq<Byte>)
    ensures Row(ys, vus, 0) == []
  {
  }

  lemma ChunkIsWhole(width: nat, block: nat)
    requires block in {16, 32} && width % block == 0
    ensures var t := if width > MAXTWIDTH then MAXTWIDTH else width; t % block == 0 && t % 2 == 0 && (width - t) % block == 0
  {
    if block == 16 {} else { assert block == 32; }
  }

  lemma ChunkDraws(toArgb: Kernel, fromArgb: FromArgb, block: nat, ys: seq<Byte>, vus: seq<Byte>, t: nat)
    requires ChunkMatches(toArgb, fromArgb, block) && t % block == 0 && t <= MAXTWIDTH && Covers(ys, vus, t)
    ensures fromArgb(toArgb(ys, vus, t), t) == Row(ys, vus, t)
  {
  }

  /** So the chunked row is itself a kernel that matches on every whole number of blocks, however wide. */
  lemma ChunkedMatches(toArgb: Kernel, fromArgb: FromArgb, block: nat)
    requires block in {16, 32} && ChunkMatches(toArgb, fromArgb, block)
    ensures MatchesOn((ys, vus, n) => Chunked(toArgb, fromArgb, ys, vus, n), block)
  {
    forall ys, vus, n: nat | n % block == 0 && Covers(ys, vus, n) ensures Chunked(toArgb, fromArgb, ys, vus, n) == Row(ys, vus, n) {
      ChunkedIsRow(toArgb, fromArgb, block, ys, vus, n);
    }
  }

  /** The chunk loop, with its row buffer of MAXTWIDTH ARGB pixels. */
  method ChunkedRow(toArgb: Kernel, fromArgb: FromArgb, ghost block: nat, ys: seq<Byte>, vus: seq<Byte>, dst: array<Byte>, at: nat, width: nat)
    requires Whole(width, block) && ChunkMatches(toArgb, fromArgb, block)
    requires Covers(ys, vus, width) && at + 3 * width <= dst.Length
    modifies dst
    ensures Drawn(ys, vus, dst[..], old(dst[..]), at, width)
  {
    hide YuvToRgb, Row, Drawn, ChunkMatches, Covers, Whole;
    ghost var before := dst[..];
    NothingDrawn(ys, vus, before, at);
    PartCovers(ys, vus, 0, 0, width);
    var x: nat, left: nat := 0, width;
    while left > 0
      invariant x + left == width && x % 2 == 0 && Whole(left, block) && Covers(ys, vus, x) && Drawn(ys, vus, dst[..], before, at, x)
    {
      var twidth := if left > MAXTWIDTH then MAXTWIDTH else left;
      ChunkSource(toArgb, fromArgb, block, ys, vus, x, left, width);
      var row := toArgb(ys[x..], vus[x..], twidth);
      ghost var was := dst[..];
      Copy(dst, at + 3 * x, fromArgb(row, twidth));
      DrawnChunk(ys, vus, was, before, at, x, twidth, dst[..]);
      x, left := x + twidth, left - twidth;
    }
  }

  ghost predicate Whole(n: nat, block: nat) { block in {16, 32} && n % block == 0 }

  /** What the next chunk reads and writes. */
  lemma ChunkSource(toArgb: Kernel, fromArgb: FromArgb, block: nat, ys: seq<Byte>, vus: seq<Byte>, x: nat, left: nat, width: nat)
    requires ChunkMatches(toArgb, fromArgb, block) && Whole(left, block) && x % 2 == 0 && x + left == width && Covers(ys, vus, width)
    ensures var t := if left > MAXTWIDTH then MAXTWIDTH else left;
            && Whole(left - t, block) && (x + t) % 2 == 0 && Covers(ys, vus, x + t) && x <= |ys| && x <= |vus|
            && Covers(ys[x..], vus[x..], t) && fromArgb(toArgb(ys[x..], vus[x..], t), t) == Row(ys[x..], vus[x..], t)
  {
    hide Row, ChunkMatches, RowByte;
    var t := if left > MAXTWIDTH then MAXTWIDTH else left;
    ChunkIsWhole(left, block);
    PartCovers(ys, vus, x, t, width);
    RowFrom(ys, vus, x, t);
    ChunkDraws(toArgb, fromArgb, block, ys[x..], vus[x..], t);
  }

  lemma PartCovers(ys: seq<Byte>, vus: seq<Byte>, x: nat, t: nat, width: nat)
    requires Covers(ys, vus, width) && x + t <= width
    ensures Covers(ys, vus, x + t)
  {
  }
}
