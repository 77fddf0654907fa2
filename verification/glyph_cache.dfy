/**
 A font's glyph cache and its atlas pages.

 Each font keeps the glyphs it has rasterised, one record per codepoint, and a
 list of atlas pages (GL textures of CacheSize x CacheSize pixels) that the
 glyph bitmaps are packed into. Looking a codepoint up returns its cached
 record, or rasterises it, packs it onto the last page (a new page when that
 fails) and appends a record.

 Two libraries the cache calls are not part of this model and appear as
 oracles: the rectangle packer (stb_rect_pack), whose answer for a page is a
 function of the rectangles requested on that page so far, and the font
 rasteriser (stb_truetype), whose answers for a codepoint are its `Metrics`.
 GL texture names are handed out by a counter `names`, the next unused name.
 */
module GlyphCache {
  import opened CArith
  import opened Batch

  /** `CB_FONT_CACHE_SIZE`: the width and height of every atlas page, in pixels. */
  const CacheSize: int := 512

  datatype Size = Size(w: int, h: int)

  /** The packer's answer: whether the rectangle fitted, and where it was put. */
  datatype Placement = Placement(packed: bool, x: int, y: int)

  /** The packer as an oracle: where a rectangle goes on a page, given every earlier request on it. */
  type Packer = (seq<Size>, Size) -> Placement

  /** `struct cbFontTexture`: one atlas page, its GL texture name and the packer's history. */
  datatype Page = Page(texture: nat, requests: seq<Size>)

  /**
   The rasteriser's answers for one codepoint: the glyph index (0 when the font
   has no glyph for it), the unscaled advance, and the bitmap box at the font's scale.
   */
  datatype Metrics = Metrics(index: int, advance: int, x0: int, y0: int, x1: int, y1: int)

  /** A loaded font file at its pixel size: the scale for that size and the metrics of every codepoint. */
  datatype Face = Face(scale: real, metrics: int -> Metrics)

  /**
   `struct cbFontGlyph`: the codepoint, the page it was packed into (and that
   page's texture name), its pixel rectangle on the page, and its metrics.
   */
  datatype Glyph = Glyph(
    codepoint: int, page: nat, texture: nat,
    x0: int, y0: int, x1: int, y1: int,
    advance: real, xOffset: real, yOffset: real)

  /** `struct cbFontImpl` without the font file, which is the `Face` passed alongside. */
  datatype Font = Font(id: int, size: int, glyphs: seq<Glyph>, pages: seq<Page>)

  /** What `loadGlyph` returns: a pointer to a cached record, or NULL. */
  datatype GlyphRef = NoGlyph | GlyphAt(index: nat)

  datatype Loaded = Loaded(font: Font, names: nat, glyph: GlyphRef)

  predicate Cached(glyphs: seq<Glyph>, cp: int) {
    exists k :: 0 <= k < |glyphs| && glyphs[k].codepoint == cp
  }

  /** The linear search of `loadGlyph`: the first record for `cp`, or `|glyphs|` when there is none. */
  function IndexOf(glyphs: seq<Glyph>, cp: int): (i: nat)
    ensures i <= |glyphs|
    ensures i < |glyphs| ==> glyphs[i].codepoint == cp
    ensures forall k :: 0 <= k < i ==> glyphs[k].codepoint != cp
    decreases |glyphs|
  {
    if |glyphs| == 0 then 0
    else if glyphs[0].codepoint == cp then 0
    else 1 + IndexOf(glyphs[1..], cp)
  }

  /** No codepoint has two records. */
  predicate Distinct(glyphs: seq<Glyph>) {
    forall i, j :: 0 <= i < j < |glyphs| ==> glyphs[i].codepoint != glyphs[j].codepoint
  }

  /** Every record is for a codepoint the face has a glyph for. */
  predicate HasGlyphs(glyphs: seq<Glyph>, face: Face) {
    forall i :: 0 <= i < |glyphs| ==> face.metrics(glyphs[i].codepoint).index != 0
  }

  /** Every record keeps the face's scaled advance of its codepoint. */
  predicate ScaledAdvances(glyphs: seq<Glyph>, face: Face) {
    forall i :: 0 <= i < |glyphs| ==>
      glyphs[i].advance == face.scale * face.metrics(glyphs[i].codepoint).advance as real
  }

  /** The records agree with the face. */
  predicate FromFace(glyphs: seq<Glyph>, face: Face) {
    Distinct(glyphs) && HasGlyphs(glyphs, face) && ScaledAdvances(glyphs, face)
  }

  /** Every record points at an existing page and carries that page's texture. */
  predicate OnPages(glyphs: seq<Glyph>, pages: seq<Page>) {
    forall i :: 0 <= i < |glyphs| ==>
      glyphs[i].page < |pages| && glyphs[i].texture == pages[glyphs[i].page].texture
  }

  /** Page textures are pairwise distinct names already handed out. */
  predicate FreshTextures(pages: seq<Page>, names: nat) {
    && (forall i :: 0 <= i < |pages| ==> pages[i].texture < names)
    && (forall i, j :: 0 <= i < j < |pages| ==> pages[i].texture != pages[j].texture)
  }

  /** The cache invariant. */
  predicate Valid(f: Font, face: Face, names: nat) {
    FromFace(f.glyphs, face) && OnPages(f.glyphs, f.pages) && FreshTextures(f.pages, names)
  }

  /** The page list only grows, and an existing page only records more requests. */
  predicate PagesExtend(before: seq<Page>, after: seq<Page>) {
    && |before| <= |after|
    && forall i :: 0 <= i < |before| ==>
         after[i].texture == before[i].texture && before[i].requests <= after[i].requests
  }

  /** Where a glyph went: the pages afterwards, the names counter, the page index and the placement. */
  datatype Packed = Packed(pages: seq<Page>, names: nat, page: nat, at: Placement)

  /** `createFontTexture`: a fresh page with a new texture name and an empty packer. */
  function NewPage(names: nat): Page {
    Page(names, [])
  }

  /** The page it packs into is the last one of the list afterwards. */
  function Pack(pages: seq<Page>, page: nat, size: Size, pack: Packer): (r: (seq<Page>, Placement))
    requires page < |pages|
    ensures |r.0| == |pages|
    ensures PagesExtend(pages, r.0)
    ensures r.0[page].requests == pages[page].requests + [size]
    ensures forall i :: 0 <= i < |pages| && i != page ==> r.0[i] == pages[i]
    ensures r.1 == pack(pages[page].requests, size)
  {
    (pages[page := Page(pages[page].texture, pages[page].requests + [size])],
     pack(pages[page].requests, size))
  }

  /**
   The atlas policy of `loadGlyph`: make a page if there is none, try the last
   page, and on failure make another page and pack there, keeping whatever the
   second attempt answers.
   */
  function PackGlyph(pages: seq<Page>, names: nat, size: Size, pack: Packer): (r: Packed)
    ensures PagesExtend(pages, r.pages)
    ensures |r.pages| > 0 && r.page == |r.pages| - 1
    ensures |r.pages[r.page].requests| > 0
    ensures r.pages[r.page].requests[|r.pages[r.page].requests| - 1] == size
    ensures |pages| <= |r.pages| <= |pages| + 2
    ensures |pages| == 0 ==> |r.pages| >= 1
    ensures r.names == names + (|r.pages| - |pages|)
    ensures forall i :: |pages| <= i < |r.pages| ==> r.pages[i].texture == names + (i - |pages|)
  {
    var (ps, n) := if |pages| == 0 then ([NewPage(names)], names + 1) else (pages, names);
    var last := |ps| - 1;
    var (ps, first) := Pack(ps, last, size, pack);
    if first.packed then
      Packed(ps, n, last, first)
    else
      var (ps, second) := Pack(ps + [NewPage(n)], |ps|, size, pack);
      Packed(ps, n + 1, |ps| - 1, second)
  }

  /**
   The packer's first answer decides the page: the last page when it fits,
   a new one otherwise. An empty atlas first gets a page of its own, so its
   first answer is that of an empty packer.
   */
  lemma PackGlyphPlacement(pages: seq<Page>, names: nat, size: Size, pack: Packer)
    ensures var r := PackGlyph(pages, names, size, pack);
      var n := if |pages| == 0 then 1 else |pages|;
      var first := if |pages| == 0 then pack([], size) else pack(pages[|pages| - 1].requests, size);
      && (first.packed ==> |r.pages| == n && r.at == first)
      && (first.packed && |pages| > 0 ==> r.pages[..|pages| - 1] == pages[..|pages| - 1])
      && (!first.packed ==> |r.pages| == n + 1 && r.at == pack([], size))
  {
  }

  /**
   `loadGlyph`. A cached codepoint returns its record and changes nothing; a
   codepoint without a glyph in the face returns NULL and changes nothing;
   otherwise exactly one record is appended, sized like the glyph's bitmap box
   and pointing at the page it was packed into.
   */
  function LoadGlyph(f: Font, face: Face, pack: Packer, names: nat, cp: int): (r: Loaded)
    ensures r.font.id == f.id && r.font.size == f.size
    ensures r.glyph.GlyphAt? ==>
      r.glyph.index < |r.font.glyphs| && r.font.glyphs[r.glyph.index].codepoint == cp
    ensures Cached(f.glyphs, cp) ==> r.font == f && r.names == names && r.glyph.GlyphAt?
    ensures !Cached(f.glyphs, cp) && face.metrics(cp).index == 0 ==> r == Loaded(f, names, NoGlyph)
    ensures !Cached(f.glyphs, cp) && face.metrics(cp).index != 0 ==>
      var m := face.metrics(cp);
      && |r.font.glyphs| == |f.glyphs| + 1
      && r.font.glyphs[..|f.glyphs|] == f.glyphs
      && r.glyph == GlyphAt(|f.glyphs|)
      && var g := r.font.glyphs[|f.glyphs|];
      && g.x1 - g.x0 == m.x1 - m.x0 && g.y1 - g.y0 == m.y1 - m.y0
      && g.advance == face.scale * m.advance as real
      && g.xOffset == m.x0 as real && g.yOffset == m.y0 as real
      && g.page == |r.font.pages| - 1
      && g.texture == r.font.pages[g.page].texture
      && var p := PackGlyph(f.pages, names, Size(m.x1 - m.x0, m.y1 - m.y0), pack);
      && r.font.pages == p.pages && r.names == p.names
      && g.x0 == p.at.x && g.y0 == p.at.y
    ensures PagesExtend(f.pages, r.font.pages) && r.names >= names
    ensures f.glyphs <= r.font.glyphs
  {
    var i := IndexOf(f.glyphs, cp);
    if i < |f.glyphs| then
      Loaded(f, names, GlyphAt(i))
    else
      var m := face.metrics(cp);
      if m.index == 0 then
        Loaded(f, names, NoGlyph)
      else
        var size := Size(m.x1 - m.x0, m.y1 - m.y0);
        var p := PackGlyph(f.pages, names, size, pack);
        var g := Glyph(cp, p.page, p.pages[p.page].texture,
          p.at.x, p.at.y, p.at.x + size.w, p.at.y + size.h,
          face.scale * m.advance as real, m.x0 as real, m.y0 as real);
        Loaded(f.(glyphs := f.glyphs + [g], pages := p.pages), p.names, GlyphAt(|f.glyphs|))
  }

  /**
   `loadGlyph` finds a glyph exactly when the face has one for the codepoint,
   and the record's advance is the face's scaled advance, cached or not.
   */
  lemma LoadGlyphFinds(f: Font, face: Face, pack: Packer, names: nat, cp: int)
    requires HasGlyphs(f.glyphs, face) && ScaledAdvances(f.glyphs, face)
    ensures var r := LoadGlyph(f, face, pack, names, cp);
      && (r.glyph.GlyphAt? <==> face.metrics(cp).index != 0)
      && (r.glyph.GlyphAt? ==>
            r.font.glyphs[r.glyph.index].advance == face.scale * face.metrics(cp).advance as real)
  {
    var i := IndexOf(f.glyphs, cp);
    if i < |f.glyphs| {
      assert Cached(f.glyphs, cp);
      assert face.metrics(f.glyphs[i].codepoint).index != 0;
    }
  }

  /** Appending a record for an uncached codepoint the face has keeps the records agreeing with the face. */
  lemma AppendFromFace(glyphs: seq<Glyph>, face: Face, g: Glyph)
    requires FromFace(glyphs, face) && !Cached(glyphs, g.codepoint)
    requires face.metrics(g.codepoint).index != 0
    requires g.advance == face.scale * face.metrics(g.codepoint).advance as real
    ensures FromFace(glyphs + [g], face)
  {
    var gs := glyphs + [g];
    forall i, j | 0 <= i < j < |gs| ensures gs[i].codepoint != gs[j].codepoint {
      assert gs[i] == glyphs[i];
      if j < |glyphs| {
        assert gs[j] == glyphs[j];
      }
    }
  }

  /** Records stay on their pages while the page list only grows. */
  lemma ExtendOnPages(glyphs: seq<Glyph>, pages: seq<Page>, after: seq<Page>, g: Glyph)
    requires OnPages(glyphs, pages) && PagesExtend(pages, after)
    requires g.page < |after| && g.texture == after[g.page].texture
    ensures OnPages(glyphs + [g], after)
  {
    var gs := glyphs + [g];
    forall i | 0 <= i < |gs| ensures gs[i].page < |after| && gs[i].texture == after[gs[i].page].texture {
      if i < |glyphs| {
        assert gs[i] == glyphs[i];
      }
    }
  }

  /** Packing a glyph only adds pages named by fresh names. */
  lemma PackGlyphFresh(pages: seq<Page>, names: nat, size: Size, pack: Packer)
    requires FreshTextures(pages, names)
    ensures var p := PackGlyph(pages, names, size, pack); FreshTextures(p.pages, p.names)
  {
    var p := PackGlyph(pages, names, size, pack);
    forall i, j | 0 <= i < j < |p.pages| ensures p.pages[i].texture != p.pages[j].texture {
      if j >= |pages| && i < |pages| {
        assert p.pages[i].texture == pages[i].texture < names;
      }
    }
  }

  /** `loadGlyph` keeps the records agreeing with the face, so cached codepoints stay pairwise distinct. */
  lemma LoadGlyphKeepsFromFace(f: Font, face: Face, pack: Packer, names: nat, cp: int)
    requires FromFace(f.glyphs, face)
    ensures FromFace(LoadGlyph(f, face, pack, names, cp).font.glyphs, face)
  {
    var r := LoadGlyph(f, face, pack, names, cp);
    if !Cached(f.glyphs, cp) && face.metrics(cp).index != 0 {
      var g := r.font.glyphs[|f.glyphs|];
      assert r.font.glyphs == f.glyphs + [g];
      AppendFromFace(f.glyphs, face, g);
    }
  }

  /** `loadGlyph` keeps every record on an existing page with that page's texture. */
  lemma LoadGlyphKeepsOnPages(f: Font, face: Face, pack: Packer, names: nat, cp: int)
    requires OnPages(f.glyphs, f.pages)
    ensures var r := LoadGlyph(f, face, pack, names, cp); OnPages(r.font.glyphs, r.font.pages)
  {
    var r := LoadGlyph(f, face, pack, names, cp);
    if !Cached(f.glyphs, cp) && face.metrics(cp).index != 0 {
      var g := r.font.glyphs[|f.glyphs|];
      assert r.font.glyphs == f.glyphs + [g];
      ExtendOnPages(f.glyphs, f.pages, r.font.pages, g);
    }
  }

  /** `loadGlyph` names new pages with fresh, distinct texture names. */
  lemma LoadGlyphKeepsFresh(f: Font, face: Face, pack: Packer, names: nat, cp: int)
    requires FreshTextures(f.pages, names)
    ensures var r := LoadGlyph(f, face, pack, names, cp); FreshTextures(r.font.pages, r.names)
  {
    var m := face.metrics(cp);
    if IndexOf(f.glyphs, cp) == |f.glyphs| && m.index != 0 {
      PackGlyphFresh(f.pages, names, Size(m.x1 - m.x0, m.y1 - m.y0), pack);
    }
  }

  /** `loadGlyph` keeps the cache invariant. */
  lemma LoadGlyphKeepsValid(f: Font, face: Face, pack: Packer, names: nat, cp: int)
    requires Valid(f, face, names)
    ensures var r := LoadGlyph(f, face, pack, names, cp); Valid(r.font, face, r.names)
  {
    LoadGlyphKeepsFromFace(f, face, pack, names, cp);
    LoadGlyphKeepsOnPages(f, face, pack, names, cp);
    LoadGlyphKeepsFresh(f, face, pack, names, cp);
  }

  /** Loading a codepoint a second time is a cache hit that returns the same record and changes nothing. */
  lemma LoadGlyphTwice(f: Font, face: Face, pack: Packer, names: nat, cp: int)
    requires LoadGlyph(f, face, pack, names, cp).glyph.GlyphAt?
    ensures var r := LoadGlyph(f, face, pack, names, cp);
      LoadGlyph(r.font, face, pack, r.names, cp) == r
  {
    var r := LoadGlyph(f, face, pack, names, cp);
    assert Cached(r.font.glyphs, cp);
    if Cached(f.glyphs, cp) {
      assert IndexOf(r.font.glyphs, cp) == IndexOf(f.glyphs, cp);
    } else {
      var i := IndexOf(r.font.glyphs, cp);
      assert !Cached(f.glyphs, cp);
      assert r.font.glyphs[..|f.glyphs|] == f.glyphs;
      assert i == |f.glyphs|;
    }
  }

  // ---------------------------------------------------------------------------
  // `getQuad`: a glyph's screen rectangle and texture rectangle at the pen.

  /** The baseline pen: the cursor `getQuad` advances. */
  datatype Pen = Pen(x: real, y: real)

  /** `struct quad`: the screen rectangle and the texture rectangle of one glyph. */
  datatype Quad = Quad(x0: real, y0: real, x1: real, y1: real, u0: real, v0: real, u1: real, v1: real)

  datatype Placed = Placed(quad: Quad, next: Pen)

  /**
   `getQuad`: the glyph's bitmap at the pen plus its offsets, snapped down to
   whole pixels, its texture rectangle on the page, and the pen moved right by
   the glyph's advance (never down).
   */
  function GetQuad(g: Glyph, pen: Pen): (r: Placed)
    ensures r.next.x == pen.x + g.advance && r.next.y == pen.y
    ensures r.quad.x0 <= pen.x + g.xOffset < r.quad.x0 + 1.0
    ensures r.quad.y0 <= pen.y + g.yOffset < r.quad.y0 + 1.0
    ensures r.quad.x0 == r.quad.x0.Floor as real && r.quad.y0 == r.quad.y0.Floor as real
    ensures r.quad.x1 - r.quad.x0 == (g.x1 - g.x0) as real
    ensures r.quad.y1 - r.quad.y0 == (g.y1 - g.y0) as real
    ensures r.quad.u0 * CacheSize as real == g.x0 as real && r.quad.u1 * CacheSize as real == g.x1 as real
    ensures r.quad.v0 * CacheSize as real == g.y0 as real && r.quad.v1 * CacheSize as real == g.y1 as real
  {
    var rx := (pen.x + g.xOffset).Floor;
    var ry := (pen.y + g.yOffset).Floor;
    Placed(
      Quad(rx as real, ry as real, rx as real + (g.x1 - g.x0) as real, ry as real + (g.y1 - g.y0) as real,
        Ratio(g.x0, CacheSize), Ratio(g.y0, CacheSize), Ratio(g.x1, CacheSize), Ratio(g.y1, CacheSize)),
      Pen(pen.x + g.advance, pen.y))
  }

  /** The quad's corners in the order 0 top-left, 1 top-right, 2 bottom-left, 3 bottom-right. */
  function QuadCorners(q: Quad): Corners {
    Corners(Point(q.x0, q.y0), Point(q.x1, q.y0), Point(q.x0, q.y1), Point(q.x1, q.y1))
  }

  /** The quad `cbRenderText` pushes for a glyph at the pen, batched by the glyph's page texture. */
  function GlyphQuad(g: Glyph, pen: Pen): (s: Submission)
    ensures s.texture == g.texture
    ensures s.corners.c0.x == s.corners.c2.x && s.corners.c1.x == s.corners.c3.x
    ensures s.corners.c0.y == s.corners.c1.y && s.corners.c2.y == s.corners.c3.y
    ensures s.corners.c1.x - s.corners.c0.x == (g.x1 - g.x0) as real
    ensures s.corners.c2.y - s.corners.c0.y == (g.y1 - g.y0) as real
    ensures s.uv == Uv(FDiv(g.x0, CacheSize), FDiv(g.y0, CacheSize), FDiv(g.x1, CacheSize), FDiv(g.y1, CacheSize))
  {
    var q := GetQuad(g, pen).quad;
    Submission(g.texture, QuadCorners(q), Uv(Finite(q.u0), Finite(q.v0), Finite(q.u1), Finite(q.v1)))
  }
}
