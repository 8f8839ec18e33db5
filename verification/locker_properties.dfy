/** Properties of the locker that relate several calls: the latches, the
    object invariant, the bounds of GetPixel and SetPixel, framing and the
    set-then-get and set-then-dispose round trips. */
module LockerProperties {
  import opened Colors
  import opened Outcomes
  import opened PixelCodec
  import opened Bitmaps
  import opened BitmapLocker

  /** Every public operation keeps the object invariant, and only LockBits
      and UnlockBits move the phase, each by its own single step. */
  lemma OperationsPreserveValid(s: Locker, x: int32, y: int32, c: Color)
    requires Valid(s)
    ensures Valid(LockBits(s).after)
    ensures Valid(UnlockBits(s).after)
    ensures Valid(SetPixel(s, x, y, c).after)
    ensures var p, q := PhaseOf(s), PhaseOf(LockBits(s).after);
            q == p || (p == Unacquired && q == Locked)
    ensures var p, q := PhaseOf(s), PhaseOf(UnlockBits(s).after);
            q == p || (p == Locked && q == Unlocked)
    ensures PhaseOf(SetPixel(s, x, y, c).after) == PhaseOf(s)
  {
  }

  /** Once locked, LockBits neither reads the source again nor replaces the
      buffer. The first conclusion only collects what the contract of
      LockBits already states; the second adds that the latch is what saves
      the call, since a second lock of the source itself would be refused. */
  lemma LockIsOneShot(s: Locker)
    requires Valid(s) && s.locked
    ensures LockBits(s) == Transition(s, Done)
    ensures PhaseOf(s) == Locked ==> s.source.LockBits() == Err(RegionLocked)
  {
  }

  /** The first UnlockBits of a locked locker writes the buffer back and
      releases the source; a second one changes nothing. */
  lemma UnlockIsIdempotent(s: Locker)
    requires Valid(s) && PhaseOf(s) == Locked
    ensures var once := UnlockBits(s);
            && once.outcome == Done
            && once.after.source == s.source.(native := s.pixels.value, isLocked := false)
            && UnlockBits(once.after) == Transition(once.after, Done)
            && Dispose(once.after).after.source.native == once.after.source.native
  {
    var once := UnlockBits(s);
    assert once.after.source.native == once.after.source.native[..|s.pixels.value|];
  }

  /** GetPixel succeeds at every coordinate of the image, the last one
      (Width - 1, Height - 1) included. */
  lemma GetPixelInGrid(s: Locker, x: int32, y: int32)
    requires Valid(s) && s.locked
    requires 0 <= x < s.width && 0 <= y < s.height
    ensures GetPixel(s, x, y).Ok?
  {
    SpanInBuffer(s.width, s.height, s.depth, x, y);
  }

  /** SetPixel succeeds at every coordinate of the image. */
  lemma SetPixelInGrid(s: Locker, x: int32, y: int32, c: Color)
    requires Valid(s) && s.locked
    requires 0 <= x < s.width && 0 <= y < s.height
    ensures SetPixel(s, x, y, c).outcome == Done
  {
    SpanInBuffer(s.width, s.height, s.depth, x, y);
  }

  /** On a valid locker, when the index expression does not overflow, a
      SetPixel that throws has written nothing: the first byte it tries is
      already outside the buffer. `SetPixelHalfWritesOnOverflow` shows that
      the premise on the index is needed. */
  lemma SetPixelAllOrNothing(s: Locker, x: int32, y: int32, c: Color)
    requires Valid(s) && s.locked
    requires IndexFits(s.width, s.depth, x, y)
    requires SetPixel(s, x, y, c).outcome.Thrown?
    ensures SetPixel(s, x, y, c).after == s
  {
    var t := SetPixel(s, x, y, c);
    var p := s.pixels.value;
    SpanAligned(s.width, s.height, s.depth, x, y);
    assert t.after.pixels.value == p;
  }

  /** A coordinate far outside a 1x1 24 bpp image whose index wraps to 2:
      SetPixel writes the blue byte at 2, then throws on index 3, leaving
      the pixel half written. */
  lemma SetPixelHalfWritesOnOverflow(c: Color)
    ensures var built := Construct(Bitmap(1, 1, 24, [0, 0, 0], false));
            var t := SetPixel(built.after, 1431655766, 0, c);
            && built.outcome == Done
            && !IndexFits(1, 24, 1431655766, 0)
            && PixelIndex(1, 24, 1431655766, 0) == 2
            && t.outcome == Thrown(IndexOutOfRange)
            && t.after.pixels == Some([0, 0, c.b])
  {
    var built := Construct(Bitmap(1, 1, 24, [0, 0, 0], false));
    assert ExactIndex(1, 24, 1431655766, 0) == 4294967298;
    assert Wrap32(4294967298) == 2;
    var p := built.after.pixels.value;
    assert p == [0, 0, 0];
    var w := StoreFrom(p, 2, Encode(24, c));
    assert w == StoreFrom(p[2 := c.b], 3, [c.g, c.r]);
    assert p[2 := c.b] == [0, 0, c.b];
    assert w == Stored([0, 0, c.b], false);
    var t := SetPixel(built.after, 1431655766, 0, c);
    assert t.after.pixels == Some(w.bytes);
  }

  /** A 32 bpp buffer of one pixel is read whole by any index that comes
      out as 0. */
  lemma ReadsFirstPixel(s: Locker, x: int32, y: int32)
    requires s.pixels.Some? && |s.pixels.value| == 4 && s.depth == 32
    requires PixelIndex(s.width, s.depth, x, y) == 0
    ensures GetPixel(s, x, y) == Ok(Decode(32, s.pixels.value))
  {
    assert s.pixels.value[0..4] == s.pixels.value;
  }

  /** A coordinate far outside a 1x1 32 bpp image whose index wraps to 0:
      GetPixel passes its bound check and returns the colour of (0, 0). */
  lemma GetPixelAliasesOnOverflow(s: Locker)
    requires Valid(s) && s.locked && s.width == 1 && s.height == 1 && s.depth == 32
    ensures !IndexFits(s.width, s.depth, 0x4000_0000, 0)
    ensures PixelIndex(s.width, s.depth, 0x4000_0000, 0) == 0
    ensures GetPixel(s, 0x4000_0000, 0) == Ok(Decode(32, s.pixels.value))
    ensures GetPixel(s, 0x4000_0000, 0) == GetPixel(s, 0, 0)
  {
    assert ExactIndex(s.width, s.depth, 0x4000_0000, 0) == 0x1_0000_0000;
    assert PixelIndex(s.width, s.depth, 0x4000_0000, 0) == 0;
    ReadsFirstPixel(s, 0x4000_0000, 0);
    assert PixelIndex(s.width, s.depth, 0, 0) == 0;
    ReadsFirstPixel(s, 0, 0);
  }

  /** Neither GetPixel nor SetPixel checks the coordinate, only the index:
      x == Width on row 0 has the index of (0, 1), so on an image of two or
      more rows SetPixel there completes and overwrites pixel (0, 1), and
      GetPixel there reads it. */
  lemma RowOverrunAliasesNextRow(s: Locker, c: Color)
    requires Valid(s) && s.locked && s.width >= 1 && s.height >= 2
    ensures SetPixel(s, s.width, 0, c) == SetPixel(s, 0, 1, c)
    ensures SetPixel(s, s.width, 0, c).outcome == Done
    ensures GetPixel(s, s.width, 0) == GetPixel(s, 0, 1)
    ensures GetPixel(s, s.width, 0).Ok?
  {
    assert ExactIndex(s.width, s.depth, s.width, 0) == ExactIndex(s.width, s.depth, 0, 1);
    SetPixelInGrid(s, 0, 1, c);
    GetPixelInGrid(s, 0, 1);
  }

  /** At any index whose span lies in the buffer SetPixel succeeds, and
      reading the pixel back yields the colour as the depth can hold it:
      exact at 32 bpp, opaque at 24 bpp, opaque blue-gray at 8 bpp. */
  lemma SetThenGet(s: Locker, x: int32, y: int32, c: Color)
    requires Valid(s) && s.locked
    requires 0 <= PixelIndex(s.width, s.depth, x, y)
    requires PixelIndex(s.width, s.depth, x, y) + BytesPerPixel(s.depth) <= |s.pixels.value|
    ensures SetPixel(s, x, y, c).outcome == Done
    ensures GetPixel(SetPixel(s, x, y, c).after, x, y) == Ok(Project(s.depth, c))
  {
    var t := SetPixel(s, x, y, c);
    var i := PixelIndex(s.width, s.depth, x, y);
    var step := BytesPerPixel(s.depth);
    var q := t.after.pixels.value;
    assert q[i..i + step] == Encode(s.depth, c);
    DecodeEncode(s.depth, c);
  }

  /** Writing one pixel leaves every other pixel of the image as it was. */
  lemma SetLeavesOtherPixels(s: Locker, x: int32, y: int32, c: Color, x': int32, y': int32)
    requires Valid(s) && s.locked
    requires 0 <= x < s.width && 0 <= y < s.height
    requires 0 <= x' < s.width && 0 <= y' < s.height
    requires (x, y) != (x', y')
    ensures GetPixel(SetPixel(s, x, y, c).after, x', y') == GetPixel(s, x', y')
  {
    var t := SetPixel(s, x, y, c);
    var step := BytesPerPixel(s.depth);
    var i' := PixelIndex(s.width, s.depth, x', y');
    SpanInBuffer(s.width, s.height, s.depth, x', y');
    SpansDisjoint(s.width, s.height, s.depth, x, y, x', y');
    assert t.after.pixels.value[i'..i' + step] == s.pixels.value[i'..i' + step];
  }

  /** The whole scoped use: build a locker over an unlocked bitmap, set one
      pixel, dispose. Until the dispose the bitmap cannot be read through
      `Bitmap.GetPixel`; then it ends unlocked, holds the colour's bytes at
      that pixel and its old bytes everywhere else, and reads back the
      projected colour. The read-back rests on the layout assumption of
      `Bitmap.PixelAt`: at 32 bpp it describes straight ARGB bitmaps only. */
  lemma SetThenDispose(source: Bitmap, x: int32, y: int32, c: Color)
    requires source.WellFormed() && SupportedDepth(source.depth) && !source.isLocked
    requires 0 <= x < source.width && 0 <= y < source.height
    ensures var built := Construct(source);
            var written := SetPixel(built.after, x, y, c);
            var disposed := Dispose(written.after);
            var i := PixelIndex(source.width, source.depth, x, y);
            var n := BytesPerPixel(source.depth);
            && built.outcome == Done && written.outcome == Done && disposed.outcome == Done
            && written.after.source.PixelAt(x, y) == Err(RegionLocked)
            && !disposed.after.source.isLocked
            && 0 <= i && i + n <= |source.native|
            && disposed.after.source.native == source.native[..i] + Encode(source.depth, c) + source.native[i + n..]
            && disposed.after.source.PixelAt(x, y) == Ok(Project(source.depth, c))
  {
    var built := Construct(source);
    OperationsPreserveValid(built.after, x, y, c);
    SetPixelInGrid(built.after, x, y, c);
    var written := SetPixel(built.after, x, y, c);
    SetThenGet(built.after, x, y, c);
    OperationsPreserveValid(written.after, x, y, c);
    var disposed := Dispose(written.after);
    SpanInBuffer(source.width, source.height, source.depth, x, y);
    assert disposed.after.source.native == written.after.pixels.value;
  }

  /** The repository's test: a 1x1 32 bpp bitmap, `SetPixel(0, 0,
      FromArgb(100, 150, 200))` inside a `using` block, and the bitmap then
      reads back that colour. */
  lemma ShouldChangeColor()
    ensures var bitmap := Bitmap(1, 1, 32, [0, 0, 0, 0], false);
            var newColor := FromRgb(100, 150, 200);
            var built := Construct(bitmap);
            var disposed := Dispose(SetPixel(built.after, 0, 0, newColor).after);
            && disposed.outcome == Done
            && disposed.after.source.native == [200, 150, 100, 255]
            && disposed.after.source.PixelAt(0, 0) == Ok(newColor)
  {
    SetThenDispose(Bitmap(1, 1, 32, [0, 0, 0, 0], false), 0, 0, FromRgb(100, 150, 200));
  }
}
