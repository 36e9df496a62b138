/** The pixel loop of `savePng`: filling a `width * height * components`
    byte buffer from the inflated colour stream and the inflated alpha
    stream, one branch per colour type. */
module Reconstruction {

  import opened Bytes
  import opened BitReader
  import opened ColorTypes

  /** A 1-bit gray sample widened to 8 bits. */
  function Expand(bit: nat): (v: byte)
    ensures v == 0x00 || v == 0xFF
    ensures v == 0xFF <==> bit != 0
  {
    if bit == 0 then 0x00 else 0xFF
  }

  /** Whether the loop has already written index `j` of an `n`-byte buffer
      after `pixelIdx` bytes' worth of iterations: the colour branches fill
      from the front, the gray branches from the back (index `n - pixelIdx`
      onwards, where index `n` itself lies outside the buffer). */
  predicate Written(ct: ColorType, n: nat, pixelIdx: nat, j: nat)
  {
    match ct
    case Rgb => j < pixelIdx
    case RgbAlpha => j < pixelIdx
    case Grayscale => n - pixelIdx < j
    case GrayscaleAlpha => n - pixelIdx < j
  }

  /** The byte the loop leaves at index `j` of an `n`-byte buffer.
      - Rgb: the colour byte at the same index.
      - RgbAlpha: pixel `j / 4` takes colour bytes `3k`, `3k+1`, `3k+2` and,
        as its alpha, the alpha byte at the last of those colour indices.
      - Grayscale: index `j` holds bit `n - j` of the colour stream; index 0
        is never written.
      - GrayscaleAlpha: iteration `k` writes bit `k` at index `n - 2k` and
        alpha byte `k` at `n - 2k - 1`; index 0 is never written. */
  function PixelByte(ct: ColorType, n: nat, color: seq<byte>, alpha: seq<byte>, j: nat): (b: byte)
    ensures (ct == Grayscale || ct == GrayscaleAlpha) && j == 0 ==> b == 0
    ensures ct == Grayscale ==> b == 0x00 || b == 0xFF
  {
    match ct
    case Rgb => At(color, j)
    case RgbAlpha =>
      if j % 4 == 3 then At(alpha, j / 4 * 3 + 2) else At(color, j / 4 * 3 + j % 4)
    case Grayscale =>
      if j == 0 || j > n then 0 else Expand(ReadBit(color, n - j))
    case GrayscaleAlpha =>
      if j == 0 || j > n then 0
      else if (n - j) % 2 == 0 then Expand(ReadBit(color, (n - j) / 2))
      else At(alpha, (n - j) / 2)
  }

  /** How far the colour stream cursor has advanced once `pixelIdx` output
      bytes are done: three colour bytes per pixel for the colour types, one
      bit per pixel for the gray types. */
  function ColorConsumed(ct: ColorType, pixelIdx: nat): (c: nat)
    ensures c <= pixelIdx
  {
    match ct
    case Rgb => pixelIdx
    case RgbAlpha => pixelIdx / 4 * 3
    case Grayscale => pixelIdx
    case GrayscaleAlpha => pixelIdx / 2
  }

  /** The buffer after the iterations that consumed `pixelIdx` output bytes:
      written bytes as `PixelByte` says, the rest still 0 as a fresh
      `Uint8Array` holds them. */
  function Partial(ct: ColorType, n: nat, color: seq<byte>, alpha: seq<byte>, pixelIdx: nat): (buf: seq<byte>)
    ensures |buf| == n
  {
    seq(n, j requires 0 <= j < n =>
      if Written(ct, n, pixelIdx, j) then PixelByte(ct, n, color, alpha, j) else 0)
  }

  /** The finished pixel buffer of a `width` by `height` image. */
  function Reconstructed(ct: ColorType, width: nat, height: nat, color: seq<byte>, alpha: seq<byte>): (data: seq<byte>)
    ensures |data| == width * height * ct.Components()
  {
    var n := width * height * ct.Components();
    Partial(ct, n, color, alpha, n)
  }

  /** `png.data[i] = v` on a `Uint8Array`: a store outside the array is
      silently dropped. */
  method Store(buf: array<byte>, i: int, v: byte)
    modifies buf
    ensures 0 <= i < buf.Length ==> buf[..] == old(buf[..])[i := v]
    ensures !(0 <= i < buf.Length) ==> buf[..] == old(buf[..])
  {
    if 0 <= i < buf.Length {
      buf[i] := v;
    }
  }

  /** The buffer of a `width` by `height` image: `width * height *
      components` bytes, filled by the pixel loop. */
  method Reconstruct(ct: ColorType, width: nat, height: nat, color: seq<byte>, alpha: seq<byte>)
    returns (data: seq<byte>)
    ensures data == Reconstructed(ct, width, height, color, alpha)
  {
    var componentsPerPixel := ct.Components();
    LengthIsMultiple(ct, width * height);
    data := FillPixels(ct, width * height * componentsPerPixel, color, alpha);
  }

  /** The pixel loop over a fresh, zero-filled `n`-byte buffer. Each
      iteration handles one pixel: for the colour types it advances both
      counters by whole bytes, for the gray types it reads one bit per pixel
      (the declared bit depth is not consulted) and writes from the end of
      the buffer backwards. */
  method FillPixels(ct: ColorType, n: nat, color: seq<byte>, alpha: seq<byte>)
    returns (data: seq<byte>)
    requires n % ct.Components() == 0
    ensures data == Partial(ct, n, color, alpha, n)
  {
    var buf := new byte[n](_ => 0);
    var colorPixelIdx: nat := 0;
    var pixelIdx: nat := 0;
    assert buf[..] == Partial(ct, n, color, alpha, 0);
    while pixelIdx < buf.Length
      invariant buf.Length == n && pixelIdx <= n
      invariant pixelIdx % ct.Components() == 0
      invariant colorPixelIdx == ColorConsumed(ct, pixelIdx)
      invariant buf[..] == Partial(ct, n, color, alpha, pixelIdx)
      decreases n - pixelIdx
    {
      pixelIdx, colorPixelIdx := Iteration(buf, ct, color, alpha, pixelIdx, colorPixelIdx);
    }
    data := buf[..];
  }

  /** One pass of the loop body: the branch of the colour type, then both
      counters advanced by what that branch consumed. */
  method Iteration(buf: array<byte>, ct: ColorType, color: seq<byte>, alpha: seq<byte>, pixelIdx: nat, colorPixelIdx: nat)
    returns (nextPixelIdx: nat, nextColorPixelIdx: nat)
    requires buf.Length % ct.Components() == 0 && pixelIdx < buf.Length
    requires pixelIdx % ct.Components() == 0 && colorPixelIdx == ColorConsumed(ct, pixelIdx)
    requires buf[..] == Partial(ct, buf.Length, color, alpha, pixelIdx)
    modifies buf
    ensures nextPixelIdx == pixelIdx + ct.Components() <= buf.Length
    ensures nextPixelIdx % ct.Components() == 0 && nextColorPixelIdx == ColorConsumed(ct, nextPixelIdx)
    ensures buf[..] == Partial(ct, buf.Length, color, alpha, nextPixelIdx)
  {
    CursorStep(ct, pixelIdx, buf.Length);
    match ct
    case Rgb =>
      RgbIteration(buf, color, alpha, pixelIdx, colorPixelIdx);
      nextPixelIdx, nextColorPixelIdx := pixelIdx + 3, colorPixelIdx + 3;
    case RgbAlpha =>
      RgbAlphaIteration(buf, color, alpha, pixelIdx, colorPixelIdx);
      nextPixelIdx, nextColorPixelIdx := pixelIdx + 4, colorPixelIdx + 3;
    case Grayscale =>
      GrayscaleIteration(buf, color, alpha, pixelIdx, colorPixelIdx);
      nextPixelIdx, nextColorPixelIdx := pixelIdx + 1, colorPixelIdx + 1;
    case GrayscaleAlpha =>
      GrayscaleAlphaIteration(buf, color, alpha, pixelIdx, colorPixelIdx);
      nextPixelIdx, nextColorPixelIdx := pixelIdx + 2, colorPixelIdx + 1;
    // A colour type outside the four cannot reach the loop, so the
    // source's "Unknown colorType" error has no counterpart here.
  }

  /** The counters after one more pixel. */
  lemma CursorStep(ct: ColorType, p: nat, n: nat)
    requires p % ct.Components() == 0 && n % ct.Components() == 0 && p < n
    ensures p + ct.Components() <= n
    ensures (p + ct.Components()) % ct.Components() == 0
    ensures ColorConsumed(ct, p + ct.Components())
      == ColorConsumed(ct, p) + (if ct == Rgb || ct == RgbAlpha then 3 else 1)
  {
    var k := ct.Components();
    var a, b := p / k, n / k;
    assert p == k * a && n == k * b;
    assert a < b && p + k == k * (a + 1) by {
      match ct
      case Rgb =>
      case RgbAlpha =>
      case Grayscale =>
      case GrayscaleAlpha =>
    }
    match ct
    case Rgb =>
    case RgbAlpha => assert (p + 4) / 4 == a + 1;
    case Grayscale =>
    case GrayscaleAlpha => assert (p + 2) / 2 == a + 1;
  }

  /** One Rgb iteration: three colour bytes copied to the same indices. */
  method RgbIteration(buf: array<byte>, color: seq<byte>, alpha: seq<byte>, pixelIdx: nat, colorPixelIdx: nat)
    requires pixelIdx % 3 == 0 && buf.Length % 3 == 0 && pixelIdx < buf.Length
    requires colorPixelIdx == pixelIdx
    requires buf[..] == Partial(Rgb, buf.Length, color, alpha, pixelIdx)
    modifies buf
    ensures buf[..] == Partial(Rgb, buf.Length, color, alpha, pixelIdx + 3)
  {
    RgbStep(buf.Length, color, alpha, pixelIdx);
    Store(buf, pixelIdx, At(color, colorPixelIdx));
    Store(buf, pixelIdx + 1, At(color, colorPixelIdx + 1));
    Store(buf, pixelIdx + 2, At(color, colorPixelIdx + 2));
  }

  /** One RgbAlpha iteration: three colour bytes, then the alpha byte at the
      index of the last colour byte read. */
  method RgbAlphaIteration(buf: array<byte>, color: seq<byte>, alpha: seq<byte>, pixelIdx: nat, colorPixelIdx: nat)
    requires pixelIdx % 4 == 0 && buf.Length % 4 == 0 && pixelIdx < buf.Length
    requires colorPixelIdx == pixelIdx / 4 * 3
    requires buf[..] == Partial(RgbAlpha, buf.Length, color, alpha, pixelIdx)
    modifies buf
    ensures buf[..] == Partial(RgbAlpha, buf.Length, color, alpha, pixelIdx + 4)
  {
    RgbAlphaStep(buf.Length, color, alpha, pixelIdx);
    Store(buf, pixelIdx, At(color, colorPixelIdx));
    Store(buf, pixelIdx + 1, At(color, colorPixelIdx + 1));
    Store(buf, pixelIdx + 2, At(color, colorPixelIdx + 2));
    Store(buf, pixelIdx + 3, At(alpha, colorPixelIdx + 2));
  }

  /** One Grayscale iteration: bit `pixelIdx` of the colour stream, widened,
      stored at `length - pixelIdx`. */
  method GrayscaleIteration(buf: array<byte>, color: seq<byte>, alpha: seq<byte>, pixelIdx: nat, colorPixelIdx: nat)
    requires pixelIdx < buf.Length
    requires colorPixelIdx == pixelIdx
    requires buf[..] == Partial(Grayscale, buf.Length, color, alpha, pixelIdx)
    modifies buf
    ensures buf[..] == Partial(Grayscale, buf.Length, color, alpha, pixelIdx + 1)
  {
    var bit := Expand(ReadBit(color, colorPixelIdx));
    GrayscaleStep(buf.Length, color, alpha, pixelIdx);
    Store(buf, buf.Length - pixelIdx, bit);
  }

  /** One GrayscaleAlpha iteration: bit `colorPixelIdx`, widened, at
      `length - pixelIdx`, then alpha byte `colorPixelIdx` just before it. */
  method GrayscaleAlphaIteration(buf: array<byte>, color: seq<byte>, alpha: seq<byte>, pixelIdx: nat, colorPixelIdx: nat)
    requires pixelIdx % 2 == 0 && buf.Length % 2 == 0 && pixelIdx < buf.Length
    requires pixelIdx == 2 * colorPixelIdx
    requires buf[..] == Partial(GrayscaleAlpha, buf.Length, color, alpha, pixelIdx)
    modifies buf
    ensures buf[..] == Partial(GrayscaleAlpha, buf.Length, color, alpha, pixelIdx + 2)
  {
    var bit := Expand(ReadBit(color, colorPixelIdx));
    GrayscaleAlphaStep(buf.Length, color, alpha, pixelIdx);
    Store(buf, buf.Length - pixelIdx, bit);
    Store(buf, buf.Length - pixelIdx - 1, At(alpha, colorPixelIdx));
  }

  /** After whole pixels the colour cursor has moved three bytes per pixel
      for the colour types and one bit per pixel for the gray types. */
  lemma ColorConsumedPerPixel(ct: ColorType, pixels: nat)
    ensures ColorConsumed(ct, pixels * ct.Components())
      == pixels * (if ct == Rgb || ct == RgbAlpha then 3 else 1)
  {
  }

  /** The buffer length is a whole number of pixels. */
  lemma LengthIsMultiple(ct: ColorType, pixels: nat)
    ensures (pixels * ct.Components()) % ct.Components() == 0
  {
    match ct
    case Rgb => assert pixels * ct.Components() == pixels * 3;
    case RgbAlpha => assert pixels * ct.Components() == pixels * 4;
    case Grayscale => assert pixels * ct.Components() == pixels;
    case GrayscaleAlpha => assert pixels * ct.Components() == pixels * 2;
  }


  lemma RgbStep(n: nat, color: seq<byte>, alpha: seq<byte>, p: nat)
    requires p % 3 == 0 && n % 3 == 0 && p < n
    ensures p + 3 <= n
    ensures Partial(Rgb, n, color, alpha, p + 3)
      == Partial(Rgb, n, color, alpha, p)[p := At(color, p)][p + 1 := At(color, p + 1)][p + 2 := At(color, p + 2)]
  {
  }

  lemma RgbAlphaStep(n: nat, color: seq<byte>, alpha: seq<byte>, p: nat)
    requires p % 4 == 0 && n % 4 == 0 && p < n
    ensures p + 4 <= n
    ensures var q := p / 4 * 3;
      Partial(RgbAlpha, n, color, alpha, p + 4)
      == Partial(RgbAlpha, n, color, alpha, p)[p := At(color, q)][p + 1 := At(color, q + 1)]
                                              [p + 2 := At(color, q + 2)][p + 3 := At(alpha, q + 2)]
  {
    RgbAlphaPixelEnd(n, p);
    var q := p / 4 * 3;
    var before := Partial(RgbAlpha, n, color, alpha, p);
    var after := Partial(RgbAlpha, n, color, alpha, p + 4);
    var updated := before[p := At(color, q)][p + 1 := At(color, q + 1)]
                         [p + 2 := At(color, q + 2)][p + 3 := At(alpha, q + 2)];
    forall j | 0 <= j < n
      ensures after[j] == updated[j]
    {
      if p <= j < p + 4 {
        RgbAlphaByte(n, color, alpha, p, j - p);
      } else {
        PartialFrame(RgbAlpha, n, color, alpha, p, p + 4, j);
      }
    }
  }

  /** Two stages of the loop agree on every index that both have written
      or both have left alone. */
  lemma PartialFrame(ct: ColorType, n: nat, color: seq<byte>, alpha: seq<byte>, p1: nat, p2: nat, j: nat)
    requires j < n && Written(ct, n, p1, j) == Written(ct, n, p2, j)
    ensures Partial(ct, n, color, alpha, p1)[j] == Partial(ct, n, color, alpha, p2)[j]
  {
  }

  /** Byte `r` of the RgbAlpha pixel starting at `p`. */
  lemma RgbAlphaByte(n: nat, color: seq<byte>, alpha: seq<byte>, p: nat, r: nat)
    requires p % 4 == 0 && r < 4
    ensures PixelByte(RgbAlpha, n, color, alpha, p + r)
      == if r == 3 then At(alpha, p / 4 * 3 + 2) else At(color, p / 4 * 3 + r)
  {
    var a := p / 4;
    assert p == 4 * a;
    assert (p + r) / 4 == a && (p + r) % 4 == r;
  }

  /** An RgbAlpha pixel starting inside an `n`-byte buffer ends inside it. */
  lemma RgbAlphaPixelEnd(n: nat, p: nat)
    requires p % 4 == 0 && n % 4 == 0 && p < n
    ensures p + 4 <= n
  {
    var a, b := p / 4, n / 4;
    assert p == 4 * a && n == 4 * b;
  }

  lemma GrayscaleStep(n: nat, color: seq<byte>, alpha: seq<byte>, p: nat)
    requires p < n
    ensures var next := Partial(Grayscale, n, color, alpha, p + 1);
      && (p == 0 ==> next == Partial(Grayscale, n, color, alpha, p))
      && (p > 0 ==> next == Partial(Grayscale, n, color, alpha, p)[n - p := Expand(ReadBit(color, p))])
  {
  }

  lemma GrayscaleAlphaStep(n: nat, color: seq<byte>, alpha: seq<byte>, p: nat)
    requires p % 2 == 0 && n % 2 == 0 && p < n
    ensures p + 2 <= n
    ensures var next := Partial(GrayscaleAlpha, n, color, alpha, p + 2);
      var k := p / 2;
      && (p == 0 ==> next == Partial(GrayscaleAlpha, n, color, alpha, p)[n - 1 := At(alpha, k)])
      && (p > 0 ==> next == Partial(GrayscaleAlpha, n, color, alpha, p)[n - p := Expand(ReadBit(color, k))]
                                                                       [n - p - 1 := At(alpha, k)])
  {
    var a, b := p / 2, n / 2;
    assert p == 2 * a && n == 2 * b;
    var before := Partial(GrayscaleAlpha, n, color, alpha, p);
    var after := Partial(GrayscaleAlpha, n, color, alpha, p + 2);
    forall j | 0 <= j < n && j != n - p && j != n - p - 1
      ensures after[j] == before[j]
    {
    }
    assert (n - (n - p)) / 2 == a && (n - (n - p - 1)) / 2 == a;
  }

  // Properties of the finished buffer, pixel by pixel.

  /** Rgb: the buffer is the colour stream byte for byte, with zeros where
      the stream is too short. */
  lemma RgbIsVerbatim(width: nat, height: nat, color: seq<byte>, alpha: seq<byte>)
    ensures var data := Reconstructed(Rgb, width, height, color, alpha);
      && |data| == 3 * (width * height)
      && (forall j :: 0 <= j < |data| ==> data[j] == At(color, j))
      && (|color| >= |data| ==> data == color[..|data|])
  {
  }

  /** RgbAlpha: pixel `k` takes colour bytes `3k` to `3k+2` and, as alpha,
      the alpha byte at index `3k+2`, not at `k`. */
  lemma RgbAlphaPixel(width: nat, height: nat, color: seq<byte>, alpha: seq<byte>, k: nat)
    requires k < width * height
    ensures var data := Reconstructed(RgbAlpha, width, height, color, alpha);
      && 4 * k + 3 < |data|
      && data[4 * k] == At(color, 3 * k)
      && data[4 * k + 1] == At(color, 3 * k + 1)
      && data[4 * k + 2] == At(color, 3 * k + 2)
      && data[4 * k + 3] == At(alpha, 3 * k + 2)
  {
    var n := width * height * RgbAlpha.Components();
    assert n == width * height * 4;
    assert 4 * k + 4 <= n;
    assert 4 * k / 4 * 3 == 3 * k;
    RgbAlphaByte(n, color, alpha, 4 * k, 0);
    RgbAlphaByte(n, color, alpha, 4 * k, 1);
    RgbAlphaByte(n, color, alpha, 4 * k, 2);
    RgbAlphaByte(n, color, alpha, 4 * k, 3);
  }

  /** Grayscale: every byte is black or white, index 0 is always black, and
      index `|data| - k` is white exactly when bit `k` of the colour stream
      is set. */
  lemma GrayscalePixel(width: nat, height: nat, color: seq<byte>, alpha: seq<byte>, k: nat)
    requires 1 <= k < width * height
    ensures var data := Reconstructed(Grayscale, width, height, color, alpha);
      && |data| == width * height
      && data[0] == 0
      && (data[|data| - k] == 0xFF <==> ReadBit(color, k) == 1)
      && (data[|data| - k] == 0x00 <==> ReadBit(color, k) == 0)
  {
  }

  lemma GrayscaleIsBilevel(width: nat, height: nat, color: seq<byte>, alpha: seq<byte>)
    ensures var data := Reconstructed(Grayscale, width, height, color, alpha);
      forall j :: 0 <= j < |data| ==> data[j] == 0x00 || data[j] == 0xFF
  {
  }

  /** Grayscale, in terms of the stream's bytes: bit `o` of the byte `m`
      places from the end lands at index `|data| - (8m + o)`. The first
      byte of the stream is the one furthest from the end. */
  lemma GrayscalePixelOfByte(width: nat, height: nat, color: seq<byte>, alpha: seq<byte>, m: nat, o: nat)
    requires 1 <= m <= |color| && o < 8 && 8 * m + o < width * height
    ensures var data := Reconstructed(Grayscale, width, height, color, alpha);
      data[|data| - (8 * m + o)] == Expand(BitOfByte(color[|color| - m], o))
  {
    GrayscalePixel(width, height, color, alpha, 8 * m + o);
    ReadBitOfByte(color, m, o);
  }

  /** Grayscale: bits 0 to 7 read as 0, so the last seven bytes of the
      buffer (and index 0) are always black, whatever the stream holds. */
  lemma GrayscaleTailIsBlack(width: nat, height: nat, color: seq<byte>, alpha: seq<byte>, j: nat)
    requires j < width * height && (j == 0 || width * height - j < 8)
    ensures Reconstructed(Grayscale, width, height, color, alpha)[j] == 0
  {
    if j > 0 {
      GrayscalePixel(width, height, color, alpha, width * height - j);
    }
  }

  /** GrayscaleAlpha: iteration `k` puts alpha byte `k` at index
      `|data| - 2k - 1` and, for `k >= 1`, bit `k` widened at index
      `|data| - 2k`; index 0 is always 0. */
  lemma GrayscaleAlphaPixel(width: nat, height: nat, color: seq<byte>, alpha: seq<byte>, k: nat)
    requires k < width * height
    ensures var data := Reconstructed(GrayscaleAlpha, width, height, color, alpha);
      && |data| == 2 * (width * height)
      && data[0] == 0
      && data[|data| - 2 * k - 1] == At(alpha, k)
      && (k >= 1 ==> data[|data| - 2 * k] == Expand(ReadBit(color, k)))
  {
  }
}
