/**
 Textures, images and the 2D renderer's batching.

 An image is a rectangle of a texture (its UV rectangle) plus a placement
 (position, size, rotation, origin). Rendering an image turns its placement
 into four corners and submits one quad to the 2D renderer's batch. The
 rotation/scale/translation matrix and the orthographic projection are float
 geometry; the model takes them as a parameter `place` that maps an image to
 its four corners.
 */
module Image2D {
  import opened CArith
  import opened Batch

  /** `cbTexture`: the GL texture name and the pixel size of the texture. */
  datatype Texture = Texture(id: nat, width: int, height: int, channels: int)

  /** `cbImage`. The texture rectangle is in C floats: a zero-size texture makes it non-finite. */
  datatype Image = Image(
    texture: Texture,
    u0: Float, v0: Float, u1: Float, v1: Float,
    x: real, y: real, w: real, h: real,
    r: real, ox: real, oy: real)

  function UvOf(img: Image): Uv {
    Uv(img.u0, img.v0, img.u1, img.v1)
  }

  /**
   The UV rectangle of the pixel rectangle from (x0, y0) to (x1, y1): each
   coordinate divided by the texture's size in that direction. Along a
   direction where the texture has size 0 the coordinates are infinities or NaN.
   */
  function PixelUv(t: Texture, x0: int, y0: int, x1: int, y1: int): (uv: Uv)
    ensures t.width != 0 ==> && uv.u0.Finite? && uv.u0.val * t.width as real == x0 as real
                             && uv.u1.Finite? && uv.u1.val * t.width as real == x1 as real
    ensures t.height != 0 ==> && uv.v0.Finite? && uv.v0.val * t.height as real == y0 as real
                              && uv.v1.Finite? && uv.v1.val * t.height as real == y1 as real
    ensures t.width == 0 ==> !uv.u0.Finite? && !uv.u1.Finite?
    ensures t.height == 0 ==> !uv.v0.Finite? && !uv.v1.Finite?
  {
    Uv(FDiv(x0, t.width), FDiv(y0, t.height), FDiv(x1, t.width), FDiv(y1, t.height))
  }

  /** The UV rectangle spans the pixel rectangle's width and height, as fractions of the texture's size. */
  lemma PixelUvSpan(t: Texture, x0: int, y0: int, x1: int, y1: int)
    ensures var uv := PixelUv(t, x0, y0, x1, y1);
      && (t.width != 0 ==> uv.u1.val - uv.u0.val == Ratio(x1 - x0, t.width))
      && (t.height != 0 ==> uv.v1.val - uv.v0.val == Ratio(y1 - y0, t.height))
  {
    if t.width != 0 {
      RatioSub(x1, x0, t.width);
    }
    if t.height != 0 {
      RatioSub(y1, y0, t.height);
    }
  }

  /**
   `cbCreateSubimage`: the pixel rectangle (x, y, w, h) of the texture. Its UV
   rectangle is that pixel rectangle scaled by the texture size; the image is
   placed at the origin, unrotated, at its pixel size, with its origin in the
   centre.
   */
  function CreateSubimage(t: Texture, x: int, y: int, w: int, h: int): (img: Image)
    ensures img.texture == t && UvOf(img) == PixelUv(t, x, y, x + w, y + h)
    ensures t.width != 0 ==> && img.u0.Finite? && img.u0.val * t.width as real == x as real
                             && img.u1.Finite? && img.u1.val * t.width as real == (x + w) as real
    ensures t.height != 0 ==> && img.v0.Finite? && img.v0.val * t.height as real == y as real
                              && img.v1.Finite? && img.v1.val * t.height as real == (y + h) as real
    ensures img.w == w as real && img.h == h as real
    ensures img.x == 0.0 && img.y == 0.0 && img.r == 0.0
    ensures img.ox == 0.5 && img.oy == 0.5
  {
    var uv := PixelUv(t, x, y, x + w, y + h);
    Image(t, uv.u0, uv.v0, uv.u1, uv.v1, 0.0, 0.0, w as real, h as real, 0.0, 0.5, 0.5)
  }

  /**
   `cbCreateImage`: the whole texture, so the UV rectangle spans 0..1 both
   ways; along a direction of size 0 both ends are 0 / 0, which is NaN.
   */
  function CreateImage(t: Texture): (img: Image)
    ensures t.width != 0 ==> img.u0 == Finite(0.0) && img.u1 == Finite(1.0)
    ensures t.height != 0 ==> img.v0 == Finite(0.0) && img.v1 == Finite(1.0)
    ensures t.width == 0 ==> img.u0 == NaN && img.u1 == NaN
    ensures t.height == 0 ==> img.v0 == NaN && img.v1 == NaN
    ensures img.w == t.width as real && img.h == t.height as real
    ensures img.texture == t
  {
    var img := CreateSubimage(t, 0, 0, t.width, t.height);
    assert t.width != 0 ==> (img.u1.val - 1.0) * t.width as real == 0.0;
    assert t.height != 0 ==> (img.v1.val - 1.0) * t.height as real == 0.0;
    img
  }

  /** The quad `cbRenderImage` pushes for an image. */
  function ImageQuad(img: Image, place: Image -> Corners): Submission {
    Submission(img.texture.id, place(img), UvOf(img))
  }

  /**
   `cbRenderImage`: flush exactly when the image's texture differs from the
   current one, make it current, and append the image's six vertices.
   */
  function RenderImage(b: Batcher, img: Image, place: Image -> Corners): (r: Batcher)
    ensures r.current == img.texture.id
    ensures b.current != img.texture.id && b.buffer != [] ==>
      r.log == b.log + [DrawCall(b.current, b.buffer)]
    ensures b.current == img.texture.id || b.buffer == [] ==> r.log == b.log
    ensures |r.buffer| >= 6
    ensures r.buffer[|r.buffer| - 6..] == QuadVertices(place(img), UvOf(img))
    ensures b.current == img.texture.id ==> r.buffer[..|r.buffer| - 6] == b.buffer
    ensures b.current != img.texture.id ==> r.buffer == QuadVertices(place(img), UvOf(img))
  {
    Submit(b, ImageQuad(img, place))
  }

  /** `cbStop2DRenderer`: draw whatever is buffered. The current texture is kept. */
  function Stop2D(b: Batcher): (r: Batcher)
    ensures r.buffer == [] && r.current == b.current
    ensures b.buffer == [] ==> r.log == b.log
    ensures b.buffer != [] ==> r.log == b.log + [DrawCall(b.current, b.buffer)]
  {
    Flush(b)
  }

  /** A frame's images, rendered in order. */
  function RenderImages(b: Batcher, imgs: seq<Image>, place: Image -> Corners): (r: Batcher)
    ensures |imgs| > 0 ==> r.current == imgs[|imgs| - 1].texture.id
    decreases |imgs|
  {
    if |imgs| == 0 then b
    else RenderImage(RenderImages(b, imgs[..|imgs| - 1], place), imgs[|imgs| - 1], place)
  }

  /** The quads a frame's images submit, in order. */
  function ImageQuads(imgs: seq<Image>, place: Image -> Corners): (subs: seq<Submission>)
    ensures |subs| == |imgs|
    ensures forall k :: 0 <= k < |imgs| ==> subs[k] == ImageQuad(imgs[k], place)
    decreases |imgs|
  {
    if |imgs| == 0 then []
    else ImageQuads(imgs[..|imgs| - 1], place) + [ImageQuad(imgs[|imgs| - 1], place)]
  }

  /** Rendering the images one by one submits their quads in order. */
  lemma {:induction false} RenderImagesSubmits(b: Batcher, imgs: seq<Image>, place: Image -> Corners)
    ensures RenderImages(b, imgs, place) == SubmitAll(b, ImageQuads(imgs, place))
    decreases |imgs|
  {
    if |imgs| > 0 {
      var n := |imgs| - 1;
      RenderImagesSubmits(b, imgs[..n], place);
      SubmitAllSnoc(b, ImageQuads(imgs[..n], place), ImageQuad(imgs[n], place));
    }
  }

  /**
   A frame of the 2D renderer: from an empty buffer, rendering images and then
   stopping logs one draw call per maximal run of images sharing a texture, in
   order, and leaves nothing buffered.
   */
  lemma FrameLog(b: Batcher, imgs: seq<Image>, place: Image -> Corners)
    requires b.buffer == []
    ensures Stop2D(RenderImages(b, imgs, place)).log == b.log + Runs(ImageQuads(imgs, place))
    ensures Stop2D(RenderImages(b, imgs, place)).buffer == []
  {
    RenderImagesSubmits(b, imgs, place);
    BatchedLog(b, ImageQuads(imgs, place));
  }
}
