/** The image the locker works on, reduced to what the locker sees of a
    `System.Drawing.Bitmap`: its size, its pixel format's bit depth, the
    bytes of its pixel memory and whether its bits are currently locked. */
module Bitmaps {
  import opened Colors
  import opened Outcomes
  import opened PixelCodec

  datatype Bitmap = Bitmap(width: extent, height: extent, depth: nat, native: seq<byte>, isLocked: bool)
  {
    /** A bitmap of a supported depth keeps its pixels as tightly packed
        rows, the layout the locker assumes, and its buffer size fits the
        `int` the locker computes it in. */
    predicate WellFormed()
    {
      SupportedDepth(depth) ==>
        && BufferSize(width, height, depth) <= MaxInt
        && |native| == BufferSize(width, height, depth)
    }

    /** `Bitmap.LockBits` over the whole image: refused while the bits are
        already locked. */
    function LockBits(): Result<Bitmap>
    {
      if isLocked then Err(RegionLocked) else Ok(this.(isLocked := true))
    }

    /** `Bitmap.UnlockBits`: commits the pixel memory and releases the lock. */
    function UnlockBits(): Bitmap
    {
      this.(isLocked := false)
    }

    /** `Marshal.Copy(bytes, 0, Scan0, |bytes|)`: overwrites the first
        `|bytes|` bytes of pixel memory and leaves the rest. */
    function CopyIn(bytes: seq<byte>): (b: Bitmap)
      requires |bytes| <= |native|
      ensures |b.native| == |native|
      ensures forall k :: 0 <= k < |bytes| ==> b.native[k] == bytes[k]
      ensures forall k :: |bytes| <= k < |native| ==> b.native[k] == native[k]
      ensures b.width == width && b.height == height && b.depth == depth && b.isLocked == isLocked
    {
      this.(native := bytes + native[|bytes|..])
    }

    /** `Bitmap.GetPixel(x, y)`: refused while the bits are locked, and
        otherwise assumed to read the pixel's bytes through the same packed
        layout and per-depth decoding as the locker. */
    function PixelAt(x: int, y: int): (r: Result<Color>)
      requires WellFormed() && SupportedDepth(depth)
      requires 0 <= x < width && 0 <= y < height
      ensures isLocked <==> r == Err(RegionLocked)
      ensures r.Ok? ==> var i := PixelIndex(width, depth, x, y);
                        && 0 <= i && i + BytesPerPixel(depth) <= |native|
                        && Encode(depth, r.value) == native[i..i + BytesPerPixel(depth)]
    {
      if isLocked then Err(RegionLocked)
      else
        SpanInBuffer(width, height, depth, x, y);
        var i := PixelIndex(width, depth, x, y);
        Ok(Decode(depth, native[i..i + BytesPerPixel(depth)]))
    }
  }
}
