/** `BitmapLocker`: a flat byte copy of a bitmap's pixel memory, taken when
    the locker is built, read and written pixel by pixel, and written back
    when the locker is disposed. Every call is a pure transition from one
    locker state to the next. */
module BitmapLocker {
  import opened Colors
  import opened Outcomes
  import opened PixelCodec
  import opened Bitmaps

  /** The locker's fields. `locked` and `unlocked` are the two one-shot
      latches; `pixels` is `None` while the buffer has not been allocated. */
  datatype Locker = Locker(
    source: Bitmap,
    locked: bool,
    unlocked: bool,
    width: extent,
    height: extent,
    depth: nat,
    pixels: Option<seq<byte>>)

  /** The state after a call and how the call ended. */
  datatype Transition = Transition(after: Locker, outcome: Outcome)

  /** The lifecycle the two latches encode. */
  datatype Phase = Unacquired | Locked | Unlocked

  function PhaseOf(s: Locker): Phase
  {
    if !s.locked then Unacquired else if !s.unlocked then Locked else Unlocked
  }

  /** The object invariant: what every locker state reachable through the
      public operations satisfies. */
  predicate Valid(s: Locker)
  {
    && s.source.WellFormed()
    && (s.unlocked ==> s.locked)
    && (s.locked <==> s.pixels.Some?)
    && (s.locked ==>
          && s.width == s.source.width
          && s.height == s.source.height
          && s.depth == s.source.depth
          && SupportedDepth(s.depth)
          && |s.pixels.value| == BufferSize(s.width, s.height, s.depth)
          && (s.source.isLocked <==> !s.unlocked))
  }

  /** The fields of a freshly allocated locker, before the constructor's
      call to LockBits. */
  function Fresh(source: Bitmap): (s: Locker)
    ensures s.source == source
    ensures PhaseOf(s) == Unacquired && s.pixels.None?
    ensures source.WellFormed() ==> Valid(s)
  {
    Locker(source, false, false, 0, 0, 0, None)
  }

  /** LockBits: reads the size and depth of the source, rejects depths other
      than 8, 24 and 32 before touching the source, then locks the source and
      copies its pixel memory into a new buffer. Once the `locked` latch is
      set, a call returns at once. */
  function LockBits(s: Locker): (t: Transition)
    requires s.source.WellFormed()
    ensures s.locked ==> t == Transition(s, Done)
    ensures !s.locked ==>
              (t.outcome == Done <==> SupportedDepth(s.source.depth) && !s.source.isLocked)
    ensures !s.locked && !SupportedDepth(s.source.depth) ==>
              && t.outcome == Thrown(UnsupportedFormat)
              && t.after.source == s.source
              && t.after.pixels == s.pixels
              && !t.after.locked
    ensures !s.locked && t.outcome.Thrown? ==>
              && t.after.source == s.source && !t.after.locked
              && (t.after.width, t.after.height, t.after.depth)
                 == (s.source.width, s.source.height, s.source.depth)
    ensures !s.locked && t.outcome == Done ==>
              && t.after.locked && t.after.unlocked == s.unlocked
              && t.after.source == s.source.(isLocked := true)
              && (t.after.width, t.after.height, t.after.depth)
                 == (s.source.width, s.source.height, s.source.depth)
              && t.after.pixels == Some(s.source.native)
              && |t.after.pixels.value| == BufferSize(s.source.width, s.source.height, s.source.depth)
  {
    if s.locked then Transition(s, Done)
    else
      var src := s.source;
      var sized := s.(width := src.width, height := src.height, depth := src.depth);
      if !SupportedDepth(sized.depth) then Transition(sized, Thrown(UnsupportedFormat))
      else
        match src.LockBits()
        case Err(e) => Transition(sized, Thrown(e))
        case Ok(held) =>
          var n := BufferSize(sized.width, sized.height, sized.depth);
          assert held.native[..n] == held.native;
          Transition(sized.(source := held, pixels := Some(held.native[..n]), locked := true), Done)
  }

  /** The constructor: a fresh locker bound to the bitmap, then LockBits. */
  function Construct(source: Bitmap): (t: Transition)
    requires source.WellFormed()
    ensures Valid(t.after)
    ensures t.outcome == Done <==> SupportedDepth(source.depth) && !source.isLocked
    ensures t.outcome == Done ==>
              && PhaseOf(t.after) == Locked
              && t.after.source == source.(isLocked := true)
              && (t.after.width, t.after.height, t.after.depth) == (source.width, source.height, source.depth)
              && t.after.pixels == Some(source.native)
    ensures !SupportedDepth(source.depth) ==>
              && t.outcome == Thrown(UnsupportedFormat)
              && t.after.source == source
              && t.after.pixels.None?
  {
    LockBits(Fresh(source))
  }

  /** UnlockBits: copies the buffer back over the start of the source's pixel
      memory and releases the source's lock. Once the `unlocked` latch is
      set, a call returns at once. */
  function UnlockBits(s: Locker): (t: Transition)
    requires s.pixels.Some? ==> |s.pixels.value| <= |s.source.native|
    ensures s.unlocked ==> t == Transition(s, Done)
    ensures !s.unlocked && s.pixels.None? ==> t == Transition(s, Thrown(NullReference))
    ensures !s.unlocked && s.pixels.Some? ==>
              && t.outcome == Done
              && t.after.unlocked
              && t.after.source == s.source.(native := t.after.source.native, isLocked := false)
              && |t.after.source.native| == |s.source.native|
              && t.after.source.native[..|s.pixels.value|] == s.pixels.value
              && t.after.source.native[|s.pixels.value|..] == s.source.native[|s.pixels.value|..]
              && t.after == s.(source := t.after.source, unlocked := true)
  {
    if s.unlocked then Transition(s, Done)
    else
      match s.pixels
      case None => Transition(s, Thrown(NullReference))
      case Some(p) =>
        var written := s.source.CopyIn(p);
        assert written.native[..|p|] == p;
        Transition(s.(source := written.UnlockBits(), unlocked := true), Done)
  }

  /** Dispose: the end of a `using` block; it unlocks. */
  function Dispose(s: Locker): (t: Transition)
    requires s.pixels.Some? ==> |s.pixels.value| <= |s.source.native|
    ensures s.unlocked ==> t == Transition(s, Done)
    ensures Valid(s) && PhaseOf(s) == Locked ==>
              && t.outcome == Done
              && PhaseOf(t.after) == Unlocked
              && t.after.source == s.source.(native := s.pixels.value, isLocked := false)
  {
    var t := UnlockBits(s);
    assert Valid(s) && s.locked && !s.unlocked ==>
             t.after.source.native == t.after.source.native[..|s.pixels.value|];
    t
  }

  /** GetPixel: the colour at (x, y), decoded from the buffer. The index is
      computed in wrapping `int` arithmetic. The only explicit check is
      `i > |Pixels| - Depth/8`; a negative index fails on the first array
      read. The state is not an output, so nothing changes. */
  function GetPixel(s: Locker, x: int32, y: int32): (r: Result<Color>)
    ensures s.pixels.None? ==> r == Err(NullReference)
    ensures s.pixels.Some? && SupportedDepth(s.depth) ==>
              var i := PixelIndex(s.width, s.depth, x, y);
              var p := s.pixels.value;
              && (r.Ok? <==> 0 <= i && i + BytesPerPixel(s.depth) <= |p|)
              && (r.Err? ==> r.error == IndexOutOfRange)
              && (r.Ok? ==> r.value == Decode(s.depth, p[i..i + BytesPerPixel(s.depth)]))
  {
    match s.pixels
    case None => Err(NullReference)
    case Some(p) =>
      var step := BytesPerPixel(s.depth);
      var i := PixelIndex(s.width, s.depth, x, y);
      if i > |p| - step then Err(IndexOutOfRange)
      else if !SupportedDepth(s.depth) then Ok(Empty)
      else if i < 0 then Err(IndexOutOfRange)
      else Ok(Decode(s.depth, p[i..i + step]))
  }

  /** The buffer after a run of single-byte writes, and whether every write
      landed before one fell outside the buffer. */
  datatype Stored = Stored(bytes: seq<byte>, complete: bool)

  /** Writes `bs[0]` at `i`, `bs[1]` at `i + 1`, ... in that order, each with
      the array bound check of the runtime; the first write outside the
      buffer stops the run and the earlier writes stay. */
  function StoreFrom(p: seq<byte>, i: int, bs: seq<byte>): (r: Stored)
    ensures |r.bytes| == |p|
    ensures r.complete <==> |bs| == 0 || (0 <= i && i + |bs| <= |p|)
    ensures forall k :: 0 <= k < |p| && !(i <= k < i + |bs|) ==> r.bytes[k] == p[k]
    ensures 0 <= i ==> forall k :: i <= k < i + |bs| && k < |p| ==> r.bytes[k] == bs[k - i]
    ensures i < 0 && |bs| > 0 ==> r.bytes == p
    decreases |bs|
  {
    if |bs| == 0 then Stored(p, true)
    else if 0 <= i < |p| then StoreFrom(p[i := bs[0]], i + 1, bs[1..])
    else Stored(p, false)
  }

  /** A run that completes has spliced its bytes into the buffer. */
  lemma StoreFromSplices(p: seq<byte>, i: int, bs: seq<byte>)
    ensures 0 <= i && i + |bs| <= |p| ==> StoreFrom(p, i, bs).bytes == p[..i] + bs + p[i + |bs|..]
  {
    if 0 <= i && i + |bs| <= |p| {
      var w := StoreFrom(p, i, bs);
      assert forall k :: 0 <= k < |p| ==> w.bytes[k] == (p[..i] + bs + p[i + |bs|..])[k];
    }
  }

  /** SetPixel: writes the colour's bytes for the locker's depth at the
      pixel's index, computed in wrapping `int` arithmetic. There is no
      explicit bound check; a write outside the buffer throws from the array
      access. Only the buffer changes. */
  function SetPixel(s: Locker, x: int32, y: int32, c: Color): (t: Transition)
    ensures t.after == s.(pixels := t.after.pixels)
    ensures !SupportedDepth(s.depth) ==> t == Transition(s, Done)
    ensures SupportedDepth(s.depth) && s.pixels.None? ==> t == Transition(s, Thrown(NullReference))
    ensures SupportedDepth(s.depth) && s.pixels.Some? ==>
              var i := PixelIndex(s.width, s.depth, x, y);
              var p := s.pixels.value;
              var q := t.after.pixels;
              && q.Some? && |q.value| == |p|
              && (t.outcome == Done <==> 0 <= i && i + BytesPerPixel(s.depth) <= |p|)
              && (t.outcome.Thrown? ==> t.outcome.error == IndexOutOfRange)
              && (forall k :: 0 <= k < |p| && !(i <= k < i + BytesPerPixel(s.depth)) ==> q.value[k] == p[k])
              && (t.outcome == Done ==>
                    q.value == p[..i] + Encode(s.depth, c) + p[i + BytesPerPixel(s.depth)..])
  {
    if !SupportedDepth(s.depth) then Transition(s, Done)
    else
      match s.pixels
      case None => Transition(s, Thrown(NullReference))
      case Some(p) =>
        var i := PixelIndex(s.width, s.depth, x, y);
        var bs := Encode(s.depth, c);
        var w := StoreFrom(p, i, bs);
        StoreFromSplices(p, i, bs);
        Transition(s.(pixels := Some(w.bytes)), if w.complete then Done else Thrown(IndexOutOfRange))
  }
}
