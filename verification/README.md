# BitmapLocker, modelled in Dafny

`BitmapLocker` gives direct pixel access to a `System.Drawing.Bitmap`. Its
constructor locks the bitmap's bits and copies the pixel memory into a flat
byte array `Pixels`. `GetPixel` and `SetPixel` then read and write that
array by `(x, y)`, with one byte layout per bit depth:

- 32 bpp: B, G, R, A;
- 24 bpp: B, G, R;
- 8 bpp: one gray byte.

`UnlockBits` (and `Dispose`, which calls it) copies the array back into the
bitmap and releases the lock. Two one-shot latches, `locked` and `unlocked`,
make a repeated lock or unlock return at once.

The model is functional. A `Locker` record holds the bitmap, both latches,
`Width`, `Height`, `Depth` and `Pixels`. `Pixels` is `None` where the C#
field is still null. Each operation is a pure function:

- `LockBits`, `UnlockBits`, `SetPixel` and `Dispose` return the next state
  together with an `Outcome`: it returned, or it threw a given exception.
- `GetPixel` returns a `Result<Color>` and gives back no state, so it
  cannot change the buffer.

The bitmap is abstract (`Bitmaps.Bitmap`): a width, a height, a bit depth,
its pixel bytes, and an "is locked" flag. Its `LockBits` is refused while
the bitmap is already locked. Its `UnlockBits` clears the flag. `CopyIn`
stands for `Marshal.Copy` from the array into pixel memory. `PixelAt`
stands for `Bitmap.GetPixel`, which the repository's test uses to read the
result back. Like the GDI+ call, it is refused while the bits are locked.

Files:

- `outcomes.dfy`: the exceptions, `Result`, `Outcome` and `Option`.
- `colors.dfy`: bytes and colours.
- `pixel_codec.dfy`: the per-depth encode and decode, and the index
  arithmetic with its bound lemmas.
- `bitmaps.dfy`: the abstract bitmap.
- `bitmap_locker.dfy`: the locker's state and operations.
- `locker_properties.dfy`: properties that relate several calls.

Five behaviours of the code are easy to misread; the model follows the
code in each:

- A `SetPixel` whose index falls outside `Pixels` does not corrupt memory.
  C# arrays are bounds checked, so the first write outside `Pixels` throws
  `IndexOutOfRangeException`. Earlier writes of the same call stay in place
  (`StoreFrom`). On a state the locker can actually reach, and when the
  index expression does not overflow an `int`, nothing is ever half
  written (`SetPixelAllOrNothing`).
- Neither `GetPixel` nor `SetPixel` checks the coordinate itself, only the
  index. An out-of-grid coordinate whose index lands inside the buffer
  silently reads or writes another pixel: `(Width, 0)` is pixel `(0, 1)`
  (`RowOverrunAliasesNextRow`).
- The index `((y * Width) + x) * (Depth / 8)` is computed in wrapping
  32-bit `int` arithmetic (`PixelCodec.Wrap32`), so a large coordinate can
  wrap to an index inside even a tiny buffer. On a 1x1 24 bpp image,
  `SetPixel(1431655766, 0, c)` wraps to index 2, writes the blue byte there
  and then throws, leaving the pixel half written
  (`SetPixelHalfWritesOnOverflow`). On a 1x1 32 bpp image,
  `GetPixel(1 << 30, 0)` wraps to index 0 and returns pixel (0, 0)
  (`GetPixelAliasesOnOverflow`).
- A `LockBits` that rejects the depth has already set `Width`, `Height` and
  `Depth`. It has not allocated `Pixels` or locked the bitmap.
- After unlocking, `GetPixel` and `SetPixel` still work on the array. They
  do not check the phase.

## Model

| member | source | states |
|---|---|---|
| Bitmaps.Bitmap.CopyIn | LockBitmap/BitmapLocker.cs:106-107 | Marshal.Copy of the whole buffer into pixel memory: the first bytes, as many as the buffer holds, become the buffer, the rest and the bitmap's size, depth and lock state stay |
| Bitmaps.Bitmap.PixelAt | LockBitmap.Tests/BitmapLockerTests.cs:18 | Bitmap.GetPixel: refused with "region is already locked" exactly while the bits are locked; otherwise, assumed to read through the locker's layout, the pixel's span lies in pixel memory and the colour read back encodes to exactly the bytes there |
| PixelCodec.PixelIndex | LockBitmap/BitmapLocker.cs:131-134 | the start index ((y*Width)+x)*(Depth/8) as GetPixel and SetPixel compute it, in wrapping int arithmetic: when the exact value fits an int, the index is that exact value |
| PixelCodec.Wrap32 | LockBitmap/BitmapLocker.cs:134 | unchecked C# int arithmetic: a result that fits an int is kept unchanged |
| PixelCodec.Wrap32Congruent | LockBitmap/BitmapLocker.cs:134 | the wrapped result differs from the exact one by a multiple of 2^32 |
| PixelCodec.Encode | LockBitmap/BitmapLocker.cs:179-198 | SetPixel's bytes per depth: B,G,R,A at 32 bpp, B,G,R at 24 bpp, only B at 8 bpp; one byte per 8 bits of depth; nothing for another depth |
| PixelCodec.Decode | LockBitmap/BitmapLocker.cs:139-161 | GetPixel's colour from a pixel's bytes; encoding it returns the same bytes, so decoding loses nothing; alpha is 255 below 32 bpp and an 8 bpp pixel is gray |
| PixelCodec.DecodeEncode | LockBitmap/BitmapLocker.cs:139-198 | decoding what SetPixel encodes gives the colour as the depth holds it: exact at 32 bpp, (255,R,G,B) at 24 bpp, (255,B,B,B) at 8 bpp |
| PixelCodec.ProjectIsLossless | LockBitmap/BitmapLocker.cs:179-198 | a colour and its projection encode to the same bytes, and projecting twice is projecting once |
| PixelCodec.SpanInBuffer | LockBitmap/BitmapLocker.cs:131-137 | when the buffer size Width*Height*(Depth/8) fits an int, for 0 <= x < Width and 0 <= y < Height the index ((y*Width)+x)*(Depth/8) does not overflow, is non-negative, and its whole span fits in the buffer |
| PixelCodec.SpanAligned | LockBitmap/BitmapLocker.cs:173-177 | when the index does not overflow, every pixel span lies wholly before, wholly inside or wholly after the buffer |
| PixelCodec.SpansDisjoint | LockBitmap/BitmapLocker.cs:131-134 | two distinct coordinates of the image have non-overlapping byte spans |
| BitmapLocker.Fresh | LockBitmap/BitmapLocker.cs:10-26 | a new locker holds the given bitmap, has both latches clear and no buffer, and satisfies the object invariant when its bitmap is well formed |
| BitmapLocker.LockBits | LockBitmap/BitmapLocker.cs:33-87 | once locked, returns with nothing changed; otherwise succeeds exactly when the depth is 8, 24 or 32 and the bitmap is not locked; a bad depth throws before the bitmap is touched and leaves no buffer; any throw leaves Width, Height and Depth copied from the bitmap; success locks the bitmap and sets Pixels to its bytes, Width*Height*(Depth/8) of them |
| BitmapLocker.Construct | LockBitmap/BitmapLocker.cs:24-28 | the constructor succeeds exactly for a supported depth on an unlocked bitmap, then is in the locked phase, holds the given bitmap now locked, has its width, height and depth, and Pixels equal to its bytes; the resulting state always satisfies the invariant |
| BitmapLocker.UnlockBits | LockBitmap/BitmapLocker.cs:92-118 | once unlocked, returns with nothing changed; with no buffer it throws a null reference; otherwise it overwrites the start of the bitmap's memory with Pixels, keeps the rest, unlocks the bitmap and sets the latch, and changes nothing else |
| BitmapLocker.Dispose | LockBitmap/BitmapLocker.cs:201-204 | disposing a locked locker leaves the bitmap unlocked and holding exactly the buffer; disposing an unlocked one changes nothing |
| BitmapLocker.GetPixel | LockBitmap/BitmapLocker.cs:126-163 | fails with IndexOutOfRange exactly when the index is negative or above the length of Pixels minus Depth/8; otherwise returns the decoded bytes i .. i+Depth/8-1; with no buffer it throws a null reference |
| BitmapLocker.StoreFromSplices | LockBitmap/BitmapLocker.cs:179-198 | a run of writes whose span is in range leaves the old buffer with the written bytes spliced in at the start index |
| BitmapLocker.StoreFrom | LockBitmap/BitmapLocker.cs:179-198 | a run of bounds-checked array writes: completes exactly when the span is in range, writes every in-range target when the start is non-negative, writes nothing when it is negative, and leaves all other bytes alone |
| BitmapLocker.SetPixel | LockBitmap/BitmapLocker.cs:171-199 | changes only Pixels; succeeds exactly when the span is in range, and then the buffer is the old one with the colour's bytes spliced in at i; bytes outside the span never change; no-op for an unsupported depth |
| LockerProperties.OperationsPreserveValid | LockBitmap/BitmapLocker.cs:38-111 | LockBits, UnlockBits and SetPixel keep the object invariant; LockBits can only move Unacquired to Locked, UnlockBits only Locked to Unlocked, SetPixel never moves the phase, so Unlocked is terminal |
| LockerProperties.LockIsOneShot | LockBitmap/BitmapLocker.cs:38-48 | once locked, LockBits neither re-reads the bitmap nor replaces Pixels, although locking the bitmap again directly would be refused |
| LockerProperties.UnlockIsIdempotent | LockBitmap/BitmapLocker.cs:96-111 | the first unlock writes the buffer back and releases the bitmap; a second unlock or a dispose leaves the bitmap's memory as the first left it |
| LockerProperties.GetPixelInGrid | LockBitmap/BitmapLocker.cs:131-137 | GetPixel succeeds at every coordinate of the image, (Width-1, Height-1) included |
| LockerProperties.SetPixelInGrid | LockBitmap/BitmapLocker.cs:174-198 | SetPixel succeeds at every coordinate of the image |
| LockerProperties.SetPixelAllOrNothing | LockBitmap/BitmapLocker.cs:174-198 | on a reachable state whose index expression does not overflow, a SetPixel that throws has changed nothing |
| LockerProperties.SetPixelHalfWritesOnOverflow | LockBitmap/BitmapLocker.cs:177-192 | on a 1x1 24 bpp locker, SetPixel(1431655766, 0, c) has index 2 after wrapping, throws, and leaves the buffer as 0, 0, c.B: the overflow premise above is needed |
| LockerProperties.GetPixelAliasesOnOverflow | LockBitmap/BitmapLocker.cs:131-146 | on a 1x1 32 bpp locker, GetPixel(1 << 30, 0) has index 0 after wrapping, passes the bound check and returns the colour of pixel (0, 0) |
| LockerProperties.RowOverrunAliasesNextRow | LockBitmap/BitmapLocker.cs:134-177 | on an image of at least one column and two rows, the out-of-grid coordinate (Width, 0) has the index of (0, 1): SetPixel there completes and does what SetPixel at (0, 1) does, and GetPixel there succeeds and returns pixel (0, 1) |
| LockerProperties.SetThenGet | LockBitmap/BitmapLocker.cs:139-198 | wherever the pixel's span lies in the buffer, SetPixel of c succeeds and GetPixel then returns c at 32 bpp, (255,R,G,B) at 24 bpp, (255,B,B,B) at 8 bpp |
| LockerProperties.SetLeavesOtherPixels | LockBitmap/BitmapLocker.cs:174-198 | SetPixel at one coordinate of the image leaves GetPixel at every other coordinate of the image unchanged; an out-of-grid coordinate can alias one of them (`RowOverrunAliasesNextRow`) |
| LockerProperties.SetThenDispose | LockBitmap/BitmapLocker.cs:171-204 | construct, set one pixel, dispose: every step succeeds; before the dispose Bitmap.GetPixel is refused because the bits are locked; the bitmap ends unlocked, holding the colour's bytes at that pixel and its old bytes elsewhere, and reads back the projected colour (at 32 bpp this read-back holds for straight ARGB bitmaps only, see Left out) |
| LockerProperties.ShouldChangeColor | LockBitmap.Tests/BitmapLockerTests.cs:10-19 | the repository's test: a 1x1 32 bpp bitmap after SetPixel(0,0,FromArgb(100,150,200)) and dispose holds bytes 200,150,100,255 and reads back that colour |

## Left out

- Threads: the double-checked locking on the two static lock objects is one sequential latch test. The model has no concurrency.
- GDI+ and interop: `Bitmap.LockBits`, `BitmapData`, `Scan0`, `Marshal.Copy` and `Image.GetPixelFormatSize` are replaced by the abstract bitmap. Two behaviours of `Bitmap.LockBits` and `Bitmap.UnlockBits` are assumed, not taken from code: a second lock of a locked bitmap is refused, and unlocking never fails.
- Row padding: GDI+ pads each row to a multiple of 4 bytes, and the code ignores `Stride`. The model assumes tightly packed rows (`Bitmap.WellFormed`). It therefore does not show the misplaced pixels that an 8 or 24 bpp image gets when its row length is not a multiple of 4 bytes.
- Buffer size overflow: the source computes `Width * Height * (Depth / 8)` (lines 54 and 74) in wrapping `int` arithmetic. `Bitmap.WellFormed` admits only bitmaps whose buffer size fits an `int`, so a wrapped or negative array size is not modelled. The pixel index in GetPixel and SetPixel does wrap in the model, for every coordinate.
- Index arithmetic after the first byte: `i + 1`, `i + 2` and `i + 3` are taken without wrapping. They are evaluated only after the write or bound check at `i` passed, so they stay below the buffer length, which is an `int`.
- Copy faults: `Marshal.Copy` cannot run outside the pixel memory because a well-formed bitmap holds exactly the buffer's size. UnlockBits requires that the buffer fit into the bitmap's memory.
- The public setter of `Pixels` (line 19) is not modelled: the buffer is always the one LockBits allocated.
- try/catch/rethrow (lines 35-36, 82-85, 94-95, 114-117) has no behaviour of its own. Exception types are distinguished only as far as `Outcomes.Error` does.
- Colour identity: .NET `Color` equality also compares a colour's name and state flags. The model compares only the four channels. `Color.Empty` is therefore the all-zero colour, and GetPixel returns it only for an unsupported depth, which no reachable state has.
- Bitmaps.Bitmap.PixelAt: `Bitmap.GetPixel` is a GDI+ call. The model refuses it while the bits are locked, as GDI+ does with an `InvalidOperationException`. Otherwise the model assumes it reads the pixel's bytes through the same packed layout and per-depth decoding as the locker. The "reads back" conclusions of `SetThenDispose` and `ShouldChangeColor` rest on that assumption. It does not hold for palette-indexed 8 bpp bitmaps, where GDI+ returns the palette entry, or for padded rows. Nor does it hold for two of the 32 bpp formats, which share the depth 32 with `Format32bppArgb`. For `Format32bppRgb` GDI+ reports alpha 255 whatever the fourth byte holds. For `Format32bppPArgb` it un-premultiplies the channels. For those two formats and a colour with alpha below 255, the read-back of `SetThenDispose` does not describe the program. Its conclusion about the native bytes still holds. `ShouldChangeColor` is unaffected, because `new Bitmap(1, 1)` is `Format32bppArgb`.
- 8 bpp formats are palette-indexed in GDI+. Like the code, the model treats the byte as a gray level.
- Program.cs (the grayscale sample driver, with file I/O, a stopwatch and console output) is not part of this model.
