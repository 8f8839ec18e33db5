/** The per-depth byte layout of one pixel and the index arithmetic of the
    flat, tightly packed pixel buffer. */
module PixelCodec {
  import opened Colors

  /** The only bit depths the locker accepts. */
  predicate SupportedDepth(depth: int)
  {
    depth == 8 || depth == 24 || depth == 32
  }

  /** Bytes one pixel occupies: `Depth / 8`. */
  function BytesPerPixel(depth: nat): nat
  {
    depth / 8
  }

  /** A C# `int`. */
  type int32 = n: int | -0x8000_0000 <= n < 0x8000_0000

  /** A C# `int` that cannot be negative, as image sizes are. */
  type extent = n: int | 0 <= n < 0x8000_0000

  const MaxInt: int := 0x7FFF_FFFF

  /** Unchecked C# `int` arithmetic: the exact result reduced modulo 2^32
      into the `int` range. A result that fits is kept as it is. */
  function Wrap32(n: int): (r: int32)
    ensures -0x8000_0000 <= n <= MaxInt ==> r == n
  {
    (n + 0x8000_0000) % 0x1_0000_0000 - 0x8000_0000
  }

  /** The wrapped value differs from the exact one by a multiple of 2^32. */
  lemma Wrap32Congruent(n: int)
    ensures (n - Wrap32(n)) % 0x1_0000_0000 == 0
  {
  }

  /** `((y * Width) + x) * (Depth / 8)` computed without a bound. */
  function ExactIndex(width: int, depth: nat, x: int, y: int): int
  {
    ((y * width) + x) * BytesPerPixel(depth)
  }

  /** The index expression does not overflow an `int`. */
  predicate IndexFits(width: int, depth: nat, x: int, y: int)
  {
    -0x8000_0000 <= ExactIndex(width, depth, x, y) <= MaxInt
  }

  /** Start of pixel (x, y) in the buffer as the source computes it: the
      index expression in wrapping `int` arithmetic. */
  function PixelIndex(width: int, depth: nat, x: int, y: int): (i: int32)
    ensures IndexFits(width, depth, x, y) ==> i == ExactIndex(width, depth, x, y)
  {
    Wrap32(ExactIndex(width, depth, x, y))
  }

  /** Size of the buffer for a width-by-height image of the given depth. */
  function BufferSize(width: nat, height: nat, depth: nat): nat
  {
    width * height * BytesPerPixel(depth)
  }

  /** The bytes SetPixel writes, in the order it writes them:
      B, G, R, A for 32 bpp; B, G, R for 24 bpp; only B for 8 bpp. */
  function Encode(depth: nat, c: Color): (bs: seq<byte>)
    ensures SupportedDepth(depth) ==> |bs| == BytesPerPixel(depth)
    ensures !SupportedDepth(depth) ==> bs == []
    ensures SupportedDepth(depth) ==> bs[0] == c.b
    ensures depth != 8 && SupportedDepth(depth) ==> bs[1] == c.g && bs[2] == c.r
    ensures depth == 32 ==> bs[3] == c.a
  {
    if depth == 32 then [c.b, c.g, c.r, c.a]
    else if depth == 24 then [c.b, c.g, c.r]
    else if depth == 8 then [c.b]
    else []
  }

  /** The colour GetPixel builds from one pixel's bytes. Encoding the result
      gives the same bytes back, so no two byte patterns decode alike. */
  function Decode(depth: nat, bs: seq<byte>): (c: Color)
    requires SupportedDepth(depth) && |bs| == BytesPerPixel(depth)
    ensures Encode(depth, c) == bs
    ensures depth != 32 ==> c.a == Opaque
    ensures depth == 8 ==> c.r == c.g == c.b
  {
    if depth == 32 then Color(bs[3], bs[2], bs[1], bs[0])
    else if depth == 24 then FromRgb(bs[2], bs[1], bs[0])
    else FromRgb(bs[0], bs[0], bs[0])
  }

  /** What a pixel of the given depth can hold of a colour: everything at
      32 bpp; opaque RGB at 24 bpp; an opaque gray taken from the blue
      channel at 8 bpp. */
  function Project(depth: nat, c: Color): Color
  {
    if depth == 32 then c
    else if depth == 24 then FromRgb(c.r, c.g, c.b)
    else FromRgb(c.b, c.b, c.b)
  }

  /** Writing a colour and reading it back yields its projection. */
  lemma DecodeEncode(depth: nat, c: Color)
    requires SupportedDepth(depth)
    ensures Decode(depth, Encode(depth, c)) == Project(depth, c)
    ensures depth == 32 ==> Decode(depth, Encode(depth, c)) == c
  {
  }

  /** The projection is exactly what survives: projecting is idempotent and
      projected colours are stored without loss. */
  lemma ProjectIsLossless(depth: nat, c: Color)
    requires SupportedDepth(depth)
    ensures Project(depth, Project(depth, c)) == Project(depth, c)
    ensures Encode(depth, Project(depth, c)) == Encode(depth, c)
  {
  }

  lemma MulLeftMono(a: int, b: int, k: nat)
    requires a <= b
    ensures a * k <= b * k
  {
  }

  /** A coordinate inside an image whose buffer fits an `int` has an index
      that does not overflow, and its whole byte span lies inside the
      buffer. */
  lemma SpanInBuffer(width: nat, height: nat, depth: nat, x: int, y: int)
    requires BufferSize(width, height, depth) <= MaxInt
    requires 0 <= x < width && 0 <= y < height
    ensures IndexFits(width, depth, x, y)
    ensures PixelIndex(width, depth, x, y) == ExactIndex(width, depth, x, y)
    ensures 0 <= PixelIndex(width, depth, x, y)
    ensures PixelIndex(width, depth, x, y) + BytesPerPixel(depth) <= BufferSize(width, height, depth)
  {
    var step := BytesPerPixel(depth);
    var cell := y * width + x;
    assert 0 <= y * width by { MulLeftMono(0, y, width); }
    MulLeftMono(y + 1, height, width);
    assert cell + 1 <= height * width;
    MulLeftMono(cell + 1, height * width, step);
    assert ExactIndex(width, depth, x, y) == cell * step;
    assert (cell + 1) * step == cell * step + step;
    MulLeftMono(0, cell, step);
    assert width * height * step == (height * width) * step;
  }

  /** Spans start at multiples of the stride and the buffer size is one, so
      when the index does not overflow every span lies wholly before,
      wholly inside or wholly after the buffer: no pixel straddles either
      end. */
  lemma SpanAligned(width: nat, height: nat, depth: nat, x: int, y: int)
    requires SupportedDepth(depth)
    requires IndexFits(width, depth, x, y)
    ensures var i := PixelIndex(width, depth, x, y);
            || i + BytesPerPixel(depth) <= 0
            || (0 <= i && i + BytesPerPixel(depth) <= BufferSize(width, height, depth))
            || BufferSize(width, height, depth) <= i
  {
    var step := BytesPerPixel(depth);
    var cell := y * width + x;
    var cells := width * height;
    assert PixelIndex(width, depth, x, y) == cell * step;
    assert BufferSize(width, height, depth) == cells * step;
    assert (cell + 1) * step == cell * step + step;
    if cell < 0 {
      MulLeftMono(cell + 1, 0, step);
    } else if cell < cells {
      MulLeftMono(0, cell, step);
      MulLeftMono(cell + 1, cells, step);
    } else {
      MulLeftMono(cells, cell, step);
    }
  }

  /** Distinct coordinates inside the image have disjoint byte spans. */
  lemma SpansDisjoint(width: nat, height: nat, depth: nat, x: int, y: int, x': int, y': int)
    requires BufferSize(width, height, depth) <= MaxInt
    requires 0 <= x < width && 0 <= y < height
    requires 0 <= x' < width && 0 <= y' < height
    requires (x, y) != (x', y')
    ensures PixelIndex(width, depth, x, y) + BytesPerPixel(depth) <= PixelIndex(width, depth, x', y')
         || PixelIndex(width, depth, x', y') + BytesPerPixel(depth) <= PixelIndex(width, depth, x, y)
  {
    var step := BytesPerPixel(depth);
    var cell := y * width + x;
    var cell' := y' * width + x';
    SpanInBuffer(width, height, depth, x, y);
    SpanInBuffer(width, height, depth, x', y');
    CellsDistinct(width, x, y, x', y');
    if cell < cell' {
      MulLeftMono(cell + 1, cell', step);
      assert (cell + 1) * step == cell * step + step;
    } else {
      MulLeftMono(cell' + 1, cell, step);
      assert (cell' + 1) * step == cell' * step + step;
    }
  }

  /** Row-major numbering of the cells of the image is injective. */
  lemma CellsDistinct(width: nat, x: int, y: int, x': int, y': int)
    requires 0 <= x < width && 0 <= x' < width
    requires (x, y) != (x', y')
    ensures y * width + x != y' * width + x'
  {
    if y == y' {
    } else if y < y' {
      MulLeftMono(y + 1, y', width);
      assert (y + 1) * width == y * width + width;
    } else {
      MulLeftMono(y' + 1, y, width);
      assert (y' + 1) * width == y' * width + width;
    }
  }
}
