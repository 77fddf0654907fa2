/**
 Animated sprites: a sprite sheet cut into a grid of equal frames, an animation
 that steps through a sequence of frame numbers, and rendering as an image.
 */
module Sprite {
  import opened CArith
  import opened Batch
  import opened Image2D

  /**
   The time one frame is shown. `(float) 1 / framePerSecond` is +infinity for a
   rate of 0, and no elapsed time exceeds it: that case is `Never`.
   */
  datatype FrameTime = Every(seconds: real) | Never

  function FrameTimeFor(framesPerSecond: int): (ft: FrameTime)
    ensures framesPerSecond == 0 <==> ft == Never
    ensures ft.Every? ==> ft.seconds * framesPerSecond as real == 1.0
  {
    if framesPerSecond == 0 then Never else Every(1.0 / framesPerSecond as real)
  }

  /** Whether `elapsed` is strictly more than one frame time. */
  predicate Exceeds(elapsed: real, ft: FrameTime) {
    ft.Every? && elapsed > ft.seconds
  }

  /**
   `cbSprite`: the image fields, the frame size, and the animation state.
   `looped` and `frameTime` are left uninitialised by `cbCreateSprite` and only
   read while playing; the model starts them at `false` and `Never`.
   */
  datatype Sprite = Sprite(
    texture: Texture,
    u0: Float, v0: Float, u1: Float, v1: Float,
    x: real, y: real, w: real, h: real,
    r: real, ox: real, oy: real,
    frameWidth: int, frameHeight: int,
    looped: bool, playing: bool,
    currentTime: real, frameTime: FrameTime,
    currentFrame: int, sequence: seq<int>)

  /**
   The sheet has at least one whole frame per row, so the integer frame
   arithmetic divides by no zero. The sheet's width is then non-zero too.
   */
  predicate HasFrameGrid(t: Texture, frameWidth: int) {
    frameWidth != 0 && CDiv(t.width, frameWidth) != 0
  }

  /** Frames per row of the sheet: `texture.width / frameWidth`. */
  function Columns(t: Texture, frameWidth: int): int
    requires HasFrameGrid(t, frameWidth)
  {
    CDiv(t.width, frameWidth)
  }

  /**
   The UV rectangle of frame `frame`: column `frame % cols`, row `frame / cols`,
   one frame in size. The frame number is recovered as `row * cols + column`.
   */
  function FrameUv(t: Texture, frameWidth: int, frameHeight: int, frame: int): (uv: Uv)
    requires HasFrameGrid(t, frameWidth)
    ensures var cols := Columns(t, frameWidth);
      var col := CMod(frame, cols);
      var row := CDiv(frame, cols);
      && frame == row * cols + col
      && Abs(col) < Abs(cols)
      && uv == PixelUv(t, col * frameWidth, row * frameHeight, (col + 1) * frameWidth, (row + 1) * frameHeight)
  {
    var cols := Columns(t, frameWidth);
    var col := CMod(frame, cols);
    var row := CDiv(frame, cols);
    DivModIdentity(frame, cols);
    PixelUv(t, col * frameWidth, row * frameHeight, (col + 1) * frameWidth, (row + 1) * frameHeight)
  }

  /**
   For a non-negative frame on a sheet of positive width, the frame lies in a
   real column of the grid, and that column ends inside the sheet.
   */
  lemma FrameCell(t: Texture, frameWidth: int, frame: int)
    requires HasFrameGrid(t, frameWidth)
    requires 0 <= frame && 0 < frameWidth && 0 < t.width
    ensures var cols := Columns(t, frameWidth);
      && 0 < cols
      && 0 <= frame % cols < cols
      && frame == (frame / cols) * cols + frame % cols
      && (frame % cols + 1) * frameWidth <= t.width
  {
    var cols := Columns(t, frameWidth);
    NonNegativeDivMod(t.width, frameWidth);
    ColumnFits(t.width, frameWidth, frame);
  }

  lemma ColumnFits(width: int, frameWidth: int, frame: int)
    requires 0 < frameWidth && 0 <= frame && width / frameWidth > 0
    ensures var cols := width / frameWidth;
      0 <= frame % cols < cols && (frame % cols + 1) * frameWidth <= width
  {
    var cols := width / frameWidth;
    var col := frame % cols;
    DivBounds(width, frameWidth);
    MulStep(col, cols, frameWidth);
    MulSucc(col, frameWidth);
  }

  /**
   Whatever the frame, its UV rectangle is exactly one frame wide, and one
   frame high unless the sheet has height 0, where its v coordinates are not finite.
   */
  lemma FrameUvWidth(t: Texture, frameWidth: int, frameHeight: int, frame: int)
    requires HasFrameGrid(t, frameWidth)
    ensures t.width != 0
    ensures var uv := FrameUv(t, frameWidth, frameHeight, frame);
      && uv.u1.val - uv.u0.val == Ratio(frameWidth, t.width)
      && (t.height != 0 ==> uv.v1.val - uv.v0.val == Ratio(frameHeight, t.height))
      && (t.height == 0 ==> !uv.v0.Finite? && !uv.v1.Finite?)
  {
    var cols := Columns(t, frameWidth);
    var col := CMod(frame, cols);
    var row := CDiv(frame, cols);
    CellSpan(t, col, row, frameWidth, frameHeight);
  }

  /** The UV rectangle of grid cell (col, row) is one cell wide and one cell high, along each non-zero side of the texture. */
  lemma CellSpan(t: Texture, col: int, row: int, w: int, h: int)
    ensures var uv := PixelUv(t, col * w, row * h, (col + 1) * w, (row + 1) * h);
      && (t.width != 0 ==> uv.u1.val - uv.u0.val == Ratio(w, t.width))
      && (t.height != 0 ==> uv.v1.val - uv.v0.val == Ratio(h, t.height))
  {
    MulSucc(col, w);
    MulSucc(row, h);
    PixelUvSpan(t, col * w, row * h, (col + 1) * w, (row + 1) * h);
  }

  function WithUv(s: Sprite, uv: Uv): Sprite {
    s.(u0 := uv.u0, v0 := uv.v0, u1 := uv.u1, v1 := uv.v1)
  }

  /** `cbSpriteSetFrame`: show frame `frame` of the sheet; nothing else changes. */
  function SetFrame(s: Sprite, frame: int): (r: Sprite)
    requires HasFrameGrid(s.texture, s.frameWidth)
    ensures Uv(r.u0, r.v0, r.u1, r.v1) == FrameUv(s.texture, s.frameWidth, s.frameHeight, frame)
    ensures WithUv(r, Uv(s.u0, s.v0, s.u1, s.v1)) == s
  {
    WithUv(s, FrameUv(s.texture, s.frameWidth, s.frameHeight, frame))
  }

  /**
   `cbCreateSprite`: frame 0 of the sheet at the origin, one frame in size,
   unrotated, centred, and not playing.
   */
  function CreateSprite(t: Texture, frameWidth: int, frameHeight: int): (s: Sprite)
    requires HasFrameGrid(t, frameWidth)
    ensures !s.playing && s.sequence == [] && s.currentFrame == 0 && s.currentTime == 0.0
    ensures s.texture == t && s.frameWidth == frameWidth && s.frameHeight == frameHeight
    ensures s.w == frameWidth as real && s.h == frameHeight as real
    ensures s.x == 0.0 && s.y == 0.0 && s.r == 0.0 && s.ox == 0.5 && s.oy == 0.5
    ensures s.u0 == Finite(0.0) && s.u1.Finite? && s.u1.val * t.width as real == frameWidth as real
    ensures t.height != 0 ==> s.v0 == Finite(0.0) && s.v1.Finite? && s.v1.val * t.height as real == frameHeight as real
    ensures t.height == 0 ==> s.v0 == NaN && s.v1 == FDiv(frameHeight, 0)
    ensures Valid(s)
  {
    var s := Sprite(t, Finite(0.0), Finite(0.0), Finite(0.0), Finite(0.0), 0.0, 0.0, frameWidth as real, frameHeight as real,
      0.0, 0.5, 0.5, frameWidth, frameHeight, false, false, 0.0, Never, 0, []);
    var r := SetFrame(s, 0);
    assert CDiv(0, Columns(t, frameWidth)) == 0 && CMod(0, Columns(t, frameWidth)) == 0;
    assert r.u0.val * t.width as real == 0.0;
    assert t.height != 0 ==> r.v0.val * t.height as real == 0.0;
    r
  }

  /**
   The state every sprite keeps: the frame index is never negative and lies in
   the sequence when there is one, and a stopped sprite holds no sequence.
   */
  predicate Valid(s: Sprite) {
    && s.currentFrame >= 0
    && (|s.sequence| > 0 ==> s.currentFrame < |s.sequence|)
    && (!s.playing ==> s.sequence == [])
  }

  /** The frames before the `-1` terminator of a C frame list. */
  function UntilTerminator(frames: seq<int>): (r: seq<int>)
    requires -1 in frames
    ensures |r| < |frames| && r == frames[..|r|] && frames[|r|] == -1
    ensures -1 !in r
  {
    if frames[0] == -1 then [] else [frames[0]] + UntilTerminator(frames[1..])
  }

  /**
   `cbSpritePlayAnimation`: does nothing while playing; otherwise starts at
   position 0 of the given frames with a fresh clock. The shown frame is not
   changed until the first step.
   */
  function Play(s: Sprite, frames: seq<int>, framesPerSecond: int, loop: bool): (r: Sprite)
    requires -1 in frames
    ensures s.playing ==> r == s
    ensures !s.playing ==>
      (&& r.playing && r.currentFrame == 0 && r.currentTime == 0.0
       && r.looped == loop && r.frameTime == FrameTimeFor(framesPerSecond)
       && r.sequence == s.sequence + UntilTerminator(frames))
    ensures Uv(r.u0, r.v0, r.u1, r.v1) == Uv(s.u0, s.v0, s.u1, s.v1)
    ensures r == s.(playing := r.playing, currentTime := r.currentTime, looped := r.looped,
      frameTime := r.frameTime, currentFrame := r.currentFrame, sequence := r.sequence)
  {
    if s.playing then s
    else s.(playing := true, currentTime := 0.0, looped := loop,
      frameTime := FrameTimeFor(framesPerSecond), currentFrame := 0,
      sequence := s.sequence + UntilTerminator(frames))
  }

  /** `cbSpriteStopAnimation`: does nothing when stopped; otherwise stops and drops the sequence. */
  function Stop(s: Sprite): (r: Sprite)
    ensures !r.playing
    ensures s.playing ==> r.sequence == []
    ensures !s.playing ==> r == s
    ensures r.currentFrame == s.currentFrame && r.currentTime == s.currentTime
    ensures r == s.(playing := r.playing, sequence := r.sequence)
  {
    if !s.playing then s else s.(playing := false, sequence := [])
  }

  /** Whether an update of `delta` seconds moves the animation one step. */
  predicate Steps(s: Sprite, delta: real) {
    s.playing && Exceeds(s.currentTime + delta, s.frameTime)
  }

  /** Whether the step is past the last position of the sequence. */
  predicate AtEnd(s: Sprite) {
    s.currentFrame + 1 >= |s.sequence|
  }

  /** Whether the step shows a frame: it does unless it ends a non-looping animation. */
  predicate ShowsFrame(s: Sprite, delta: real) {
    Steps(s, delta) && (!AtEnd(s) || s.looped)
  }

  /**
   `cbSpriteUpdate`: advance the clock; when it passes one frame time, take one
   step (never more, however large `delta` is): to the next position, or back
   to 0 at the end, where a non-looping animation stops.
   */
  function Update(s: Sprite, delta: real): (r: Sprite)
    requires Valid(s)
    requires ShowsFrame(s, delta) ==> HasFrameGrid(s.texture, s.frameWidth) && |s.sequence| > 0
    ensures Valid(r)
    ensures !s.playing ==> r == s
    ensures s.playing && !Steps(s, delta) ==> r == s.(currentTime := s.currentTime + delta)
    ensures Steps(s, delta) ==> r.currentTime == s.currentTime + delta - s.frameTime.seconds
    ensures Steps(s, delta) && !AtEnd(s) ==> r.currentFrame == s.currentFrame + 1 && r.playing
    ensures Steps(s, delta) && AtEnd(s) ==> r.currentFrame == 0
    ensures Steps(s, delta) && AtEnd(s) ==> (r.playing <==> s.looped)
    ensures ShowsFrame(s, delta) ==>
      Uv(r.u0, r.v0, r.u1, r.v1)
      == FrameUv(s.texture, s.frameWidth, s.frameHeight, s.sequence[r.currentFrame])
    ensures !ShowsFrame(s, delta) ==> Uv(r.u0, r.v0, r.u1, r.v1) == Uv(s.u0, s.v0, s.u1, s.v1)
    ensures r.playing ==> r.sequence == s.sequence
    ensures r == s.(u0 := r.u0, v0 := r.v0, u1 := r.u1, v1 := r.v1, playing := r.playing,
      currentTime := r.currentTime, currentFrame := r.currentFrame, sequence := r.sequence)
  {
    if !s.playing then s
    else
      var t := s.(currentTime := s.currentTime + delta);
      if !Exceeds(t.currentTime, t.frameTime) then t
      else
        var t := t.(currentTime := t.currentTime - t.frameTime.seconds);
        if t.currentFrame + 1 < |t.sequence| then
          var t := t.(currentFrame := t.currentFrame + 1);
          SetFrame(t, t.sequence[t.currentFrame])
        else
          var t := t.(currentFrame := 0);
          if !t.looped then Stop(t) else SetFrame(t, t.sequence[t.currentFrame])
  }

  /** A rate of zero frames per second never advances the animation. */
  lemma ZeroRateNeverSteps(s: Sprite, frames: seq<int>, loop: bool, delta: real)
    requires -1 in frames && !s.playing
    ensures !Steps(Play(s, frames, 0, loop), delta)
  {
  }

  /** Playing, stopping and updating keep every sprite in its valid state. */
  lemma {:induction false} AnimationKeepsValid(s: Sprite, frames: seq<int>, fps: int, loop: bool)
    requires Valid(s) && -1 in frames
    ensures Valid(Play(s, frames, fps, loop))
    ensures Valid(Stop(s))
  {
    if !s.playing {
      assert s.sequence + UntilTerminator(frames) == UntilTerminator(frames);
    }
  }

  /** `cbRenderSprite`: the image the sprite is drawn as carries every one of its image fields. */
  function SpriteImage(s: Sprite): (img: Image)
    ensures img.texture == s.texture
    ensures UvOf(img) == Uv(s.u0, s.v0, s.u1, s.v1)
    ensures img.x == s.x && img.y == s.y && img.w == s.w && img.h == s.h
    ensures img.r == s.r && img.ox == s.ox && img.oy == s.oy
  {
    Image(s.texture, s.u0, s.v0, s.u1, s.v1, s.x, s.y, s.w, s.h, s.r, s.ox, s.oy)
  }

  /**
   `cbRenderSprite`: rendering a sprite is rendering the image of its current
   frame, so a change of texture flushes the batch first.
   */
  function RenderSprite(b: Batcher, s: Sprite, place: Image -> Corners): (r: Batcher)
    ensures r.current == s.texture.id
    ensures b.current != s.texture.id && b.buffer != [] ==> r.log == b.log + [DrawCall(b.current, b.buffer)]
    ensures b.current == s.texture.id || b.buffer == [] ==> r.log == b.log
    ensures |r.buffer| >= 6
    ensures r.buffer[|r.buffer| - 6..] == QuadVertices(place(SpriteImage(s)), Uv(s.u0, s.v0, s.u1, s.v1))
    ensures b.current == s.texture.id ==> r.buffer[..|r.buffer| - 6] == b.buffer
    ensures b.current != s.texture.id ==> r.buffer == QuadVertices(place(SpriteImage(s)), Uv(s.u0, s.v0, s.u1, s.v1))
  {
    RenderImage(b, SpriteImage(s), place)
  }

  /**
   Drawing a sprite submits one quad with the sprite's texture, its placed
   corners and the UVs of the frame it shows; after `SetFrame(s, frame)` those
   are the UVs of that frame of the sheet.
   */
  lemma RenderSpriteSubmits(b: Batcher, s: Sprite, frame: int, place: Image -> Corners)
    requires HasFrameGrid(s.texture, s.frameWidth)
    ensures RenderSprite(b, s, place)
      == Submit(b, Submission(s.texture.id, place(SpriteImage(s)), Uv(s.u0, s.v0, s.u1, s.v1)))
    ensures var f := SetFrame(s, frame);
      RenderSprite(b, f, place)
      == Submit(b, Submission(s.texture.id, place(SpriteImage(f)), FrameUv(s.texture, s.frameWidth, s.frameHeight, frame)))
  {
  }
}
