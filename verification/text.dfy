/**
 The two text loops of the font renderer, `cbTextWidth` and `cbRenderText`.

 Both walk a C string byte by byte through the UTF-8 decoder; every codepoint
 it completes is looked up in the font's glyph cache (rasterising and packing
 it on a miss), codepoints without a glyph are skipped, and each glyph found
 moves the pen right by its advance. `cbTextWidth` returns the pen's final x
 truncated to an int; `cbRenderText` also pushes each glyph's quad into the
 font renderer's batch, keyed by the glyph's page texture, and flushes at the end.

 The model states the loops against three reference definitions: the
 codepoints of the text (`Utf8.Codepoints`), the glyphs a sequence of lookups
 finds (`LoadAll`), and the quads those glyphs make from the starting pen
 (`TextQuads`). The lemmas then show that the glyphs found, and so the width,
 depend only on the face and not on what was cached before.
 */
module Text {
  import opened CArith
  import opened Batch
  import opened GlyphCache
  import Utf8
  import FontRegistry

  /** A font after a sequence of lookups, the next GL name, and the glyph records found in order. */
  datatype Lookup = Lookup(font: Font, names: nat, glyphs: seq<Glyph>)

  /** `loadGlyph` on each codepoint in turn, collecting the records it returns and skipping NULLs. */
  function LoadAll(f: Font, face: Face, pack: Packer, names: nat, cps: seq<int>): (l: Lookup)
    ensures l.font.id == f.id && l.font.size == f.size
    ensures |l.glyphs| <= |cps|
    ensures f.glyphs <= l.font.glyphs
    decreases |cps|
  {
    if |cps| == 0 then Lookup(f, names, [])
    else
      var l := LoadAll(f, face, pack, names, cps[..|cps| - 1]);
      var r := LoadGlyph(l.font, face, pack, l.names, cps[|cps| - 1]);
      Lookup(r.font, r.names,
        if r.glyph.GlyphAt? then l.glyphs + [r.font.glyphs[r.glyph.index]] else l.glyphs)
  }

  /** One more lookup. */
  lemma {:induction false} LoadAllSnoc(f: Font, face: Face, pack: Packer, names: nat, cps: seq<int>, cp: int)
    ensures var l := LoadAll(f, face, pack, names, cps);
      var r := LoadGlyph(l.font, face, pack, l.names, cp);
      LoadAll(f, face, pack, names, cps + [cp])
        == Lookup(r.font, r.names, if r.glyph.GlyphAt? then l.glyphs + [r.font.glyphs[r.glyph.index]] else l.glyphs)
  {
    assert (cps + [cp])[..|cps|] == cps && (cps + [cp])[|cps|] == cp;
  }

  /**
   The `loadGlyph` call of both text loops: the glyph record for `cp`, or none
   when `loadGlyph` returns NULL. Stated against the lookups so far, it extends
   them by that one codepoint.
   */
  method FindGlyph(ghost f0: Font, face: Face, pack: Packer, ghost names0: nat, ghost cps: seq<int>, ghost gs: seq<Glyph>,
                   font: Font, nm: nat, cp: int)
    returns (font': Font, nm': nat, found: seq<Glyph>)
    requires LoadAll(f0, face, pack, names0, cps) == Lookup(font, nm, gs)
    ensures |found| <= 1
    ensures |found| == 0 ==> LoadAll(f0, face, pack, names0, cps + [cp]) == Lookup(font', nm', gs)
    ensures |found| == 1 ==> LoadAll(f0, face, pack, names0, cps + [cp]) == Lookup(font', nm', gs + [found[0]])
  {
    LoadAllSnoc(f0, face, pack, names0, cps, cp);
    var r := LoadGlyph(font, face, pack, nm, cp);
    font', nm' := r.font, r.names;
    found := if r.glyph.GlyphAt? then [r.font.glyphs[r.glyph.index]] else [];
  }

  /**
   Where both text loops stand after the first `i` bytes: none of them is NUL,
   the decoder is in the state they drive it to, `cps` are the codepoints they
   completed, and the font, the GL names and the records found are those of
   looking those codepoints up in turn.
   */
  ghost predicate Scanning(text: seq<Utf8.Byte>, f0: Font, face: Face, pack: Packer, names0: nat,
                           i: int, d: Utf8.Decoder, cps: seq<int>, font: Font, nm: nat, gs: seq<Glyph>) {
    && 0 <= i <= |text| && Utf8.NoNul(text[..i])
    && Utf8.Valid(d) && d == Utf8.Run(Utf8.Start, text[..i])
    && cps == Utf8.Scan(Utf8.Start, text[..i])
    && LoadAll(f0, face, pack, names0, cps) == Lookup(font, nm, gs)
  }

  /**
   One turn of either text loop: decode the next byte and, when that completes
   a codepoint, look it up. `found` holds the record the lookup returns, if any.
   */
  method Step(text: seq<Utf8.Byte>, ghost f0: Font, face: Face, pack: Packer, ghost names0: nat,
              i: int, d: Utf8.Decoder, ghost cps: seq<int>, font: Font, nm: nat, ghost gs: seq<Glyph>)
    returns (i': int, d': Utf8.Decoder, ghost cps': seq<int>, font': Font, nm': nat, ghost gs': seq<Glyph>,
             found: seq<Glyph>)
    requires Scanning(text, f0, face, pack, names0, i, d, cps, font, nm, gs)
    requires i < |text| && text[i] != 0
    ensures Scanning(text, f0, face, pack, names0, i', d', cps', font', nm', gs')
    ensures i' == i + 1 && |found| <= 1
    ensures |found| == 0 ==> gs' == gs
    ensures |found| == 1 ==> gs' == gs + [found[0]]
  {
    d' := Utf8.Next(text, i, d);
    i' := i + 1;
    if d'.state != Utf8.Accept {
      cps', font', nm', gs', found := cps, font, nm, gs, [];
      return;
    }
    font', nm', found := FindGlyph(f0, face, pack, names0, cps, gs, font, nm, d'.codep);
    cps' := cps + [d'.codep];
    gs' := if |found| == 0 then gs else gs + [found[0]];
  }

  /** When a loop stops at a NUL or the end, it has looked up every codepoint of the text. */
  lemma ScanningDone(text: seq<Utf8.Byte>, f0: Font, face: Face, pack: Packer, names0: nat,
                     i: int, d: Utf8.Decoder, cps: seq<int>, font: Font, nm: nat, gs: seq<Glyph>)
    requires Scanning(text, f0, face, pack, names0, i, d, cps, font, nm, gs)
    requires i == |text| || text[i] == 0
    ensures LoadAll(f0, face, pack, names0, Utf8.Codepoints(text)) == Lookup(font, nm, gs)
  {
    Utf8.ScanStopsAtNul(Utf8.Start, text, i);
  }

  /** The reference: the codepoints for which the face has a glyph, in order. */
  function WithGlyph(face: Face, cps: seq<int>): (ws: seq<int>)
    ensures |ws| <= |cps|
    decreases |cps|
  {
    if |cps| == 0 then []
    else
      WithGlyph(face, cps[..|cps| - 1])
      + (if face.metrics(cps[|cps| - 1]).index != 0 then [cps[|cps| - 1]] else [])
  }

  /** The records `gs` are records of the font's cache, for the codepoints `ws` in order. */
  predicate Found(gs: seq<Glyph>, ws: seq<int>, f: Font) {
    && |gs| == |ws|
    && forall k :: 0 <= k < |gs| ==> gs[k].codepoint == ws[k] && gs[k] in f.glyphs
  }

  lemma InPrefix(g: Glyph, a: seq<Glyph>, b: seq<Glyph>)
    requires g in a && a <= b
    ensures g in b
  {
    var i :| 0 <= i < |a| && a[i] == g;
    assert b[i] == g;
  }

  /** Records of a cache stay records of it while it only grows. */
  lemma FoundGrows(gs: seq<Glyph>, ws: seq<int>, f: Font, f': Font)
    requires Found(gs, ws, f) && f.glyphs <= f'.glyphs
    ensures Found(gs, ws, f')
  {
    forall k | 0 <= k < |gs| ensures gs[k] in f'.glyphs {
      InPrefix(gs[k], f.glyphs, f'.glyphs);
    }
  }

  /** Codepoints once cached stay cached while the cache only grows. */
  lemma CachedGrows(a: seq<Glyph>, b: seq<Glyph>, cp: int)
    requires Cached(a, cp) && a <= b
    ensures Cached(b, cp)
  {
    var k :| 0 <= k < |a| && a[k].codepoint == cp;
    assert b[k] == a[k];
  }

  /** Every codepoint of `cps` that the face has a glyph for is cached. */
  predicate CachesAll(glyphs: seq<Glyph>, face: Face, cps: seq<int>) {
    forall k :: 0 <= k < |cps| && face.metrics(cps[k]).index != 0 ==> Cached(glyphs, cps[k])
  }

  /** One more record of a grown cache, for one more codepoint. */
  lemma FoundSnoc(gs: seq<Glyph>, ws: seq<int>, f: Font, f': Font, g: Glyph)
    requires Found(gs, ws, f) && f.glyphs <= f'.glyphs && g in f'.glyphs
    ensures Found(gs + [g], ws + [g.codepoint], f')
  {
    FoundGrows(gs, ws, f, f');
  }

  /**
   One lookup on a valid cache finds a record exactly when the face has a
   glyph, extends the records found by it, and leaves the codepoint
   cached when the face has it.
   */
  lemma LoadGlyphStep(f: Font, face: Face, pack: Packer, names: nat, gs: seq<Glyph>, ws: seq<int>,
                      p: seq<int>, cp: int)
    requires HasGlyphs(f.glyphs, face) && Found(gs, ws, f) && CachesAll(f.glyphs, face, p)
    ensures var r := LoadGlyph(f, face, pack, names, cp);
      && (r.glyph.GlyphAt? <==> face.metrics(cp).index != 0)
      && (r.glyph.GlyphAt? ==> Found(gs + [r.font.glyphs[r.glyph.index]], ws + [cp], r.font))
      && (!r.glyph.GlyphAt? ==> Found(gs, ws, r.font))
      && CachesAll(r.font.glyphs, face, p + [cp])
      && HasGlyphs(r.font.glyphs, face)
  {
    var r := LoadGlyph(f, face, pack, names, cp);
    if Cached(f.glyphs, cp) {
      var k :| 0 <= k < |f.glyphs| && f.glyphs[k].codepoint == cp;
      assert face.metrics(f.glyphs[k].codepoint).index != 0;
    } else if face.metrics(cp).index != 0 {
      forall i | 0 <= i < |r.font.glyphs| ensures face.metrics(r.font.glyphs[i].codepoint).index != 0 {
        if i < |f.glyphs| {
          assert r.font.glyphs[i] == r.font.glyphs[..|f.glyphs|][i];
        }
      }
    }
    FoundGrows(gs, ws, f, r.font);
    if r.glyph.GlyphAt? {
      FoundSnoc(gs, ws, f, r.font, r.font.glyphs[r.glyph.index]);
    }
    var q := p + [cp];
    forall k | 0 <= k < |q| && face.metrics(q[k]).index != 0 ensures Cached(r.font.glyphs, q[k]) {
      if k < |p| {
        assert q[k] == p[k];
        CachedGrows(f.glyphs, r.font.glyphs, p[k]);
      } else {
        assert r.font.glyphs[r.glyph.index].codepoint == q[k];
      }
    }
  }

  /** A sequence of lookups keeps the cache invariant. */
  lemma {:induction false} LoadAllKeepsValid(f: Font, face: Face, pack: Packer, names: nat, cps: seq<int>)
    requires Valid(f, face, names)
    ensures var l := LoadAll(f, face, pack, names, cps); Valid(l.font, face, l.names)
    decreases |cps|
  {
    if |cps| > 0 {
      var p := cps[..|cps| - 1];
      var l := LoadAll(f, face, pack, names, p);
      LoadAllKeepsValid(f, face, pack, names, p);
      LoadGlyphKeepsValid(l.font, face, pack, l.names, cps[|cps| - 1]);
    }
  }

  /**
   A sequence of lookups on a cache whose records all have a glyph in the face
   finds a cached record for exactly the codepoints the face has a glyph for, in
   order, leaves every one of them cached, and caches nothing else.
   */
  lemma {:induction false} LoadAllFinds(f: Font, face: Face, pack: Packer, names: nat, cps: seq<int>)
    requires HasGlyphs(f.glyphs, face)
    ensures var l := LoadAll(f, face, pack, names, cps);
      && Found(l.glyphs, WithGlyph(face, cps), l.font)
      && CachesAll(l.font.glyphs, face, cps)
      && HasGlyphs(l.font.glyphs, face)
    decreases |cps|
  {
    if |cps| > 0 {
      var p := cps[..|cps| - 1];
      var l := LoadAll(f, face, pack, names, p);
      LoadAllFinds(f, face, pack, names, p);
      LoadGlyphStep(l.font, face, pack, l.names, l.glyphs, WithGlyph(face, p), p, cps[|cps| - 1]);
      assert p + [cps[|cps| - 1]] == cps;
    }
  }

  /**
   A pass over codepoints whose glyphs are all cached changes nothing and
   returns the cached records.
   */
  lemma {:induction false} AllCachedPass(f: Font, face: Face, pack: Packer, names: nat, cps: seq<int>)
    requires HasGlyphs(f.glyphs, face)
    requires CachesAll(f.glyphs, face, cps)
    ensures var l := LoadAll(f, face, pack, names, cps);
      l.font == f && l.names == names && Found(l.glyphs, WithGlyph(face, cps), f)
    decreases |cps|
  {
    if |cps| > 0 {
      var p := cps[..|cps| - 1];
      var cp := cps[|cps| - 1];
      assert CachesAll(f.glyphs, face, p) by {
        forall k | 0 <= k < |p| && face.metrics(p[k]).index != 0 ensures Cached(f.glyphs, p[k]) {
          assert p[k] == cps[k];
        }
      }
      AllCachedPass(f, face, pack, names, p);
      LoadGlyphStep(f, face, pack, names, LoadAll(f, face, pack, names, p).glyphs, WithGlyph(face, p), p, cp);
      assert face.metrics(cp).index != 0 ==> Cached(f.glyphs, cp);
    }
  }

  /** In a cache with distinct codepoints, the records for given codepoints are determined by them. */
  lemma SameRecords(gs1: seq<Glyph>, gs2: seq<Glyph>, ws: seq<int>, f: Font, face: Face)
    requires FromFace(f.glyphs, face) && Found(gs1, ws, f) && Found(gs2, ws, f)
    ensures gs1 == gs2
  {
    forall k | 0 <= k < |gs1| ensures gs1[k] == gs2[k] {
      var i :| 0 <= i < |f.glyphs| && f.glyphs[i] == gs1[k];
      var j :| 0 <= j < |f.glyphs| && f.glyphs[j] == gs2[k];
      assert f.glyphs[i].codepoint == f.glyphs[j].codepoint;
    }
  }

  /**
   Measuring or drawing the same text a second time finds every glyph in the
   cache: the font and the GL names are unchanged and the records are the same.
   */
  lemma LoadAllAgain(f: Font, face: Face, pack: Packer, names: nat, cps: seq<int>)
    requires Valid(f, face, names)
    ensures var l := LoadAll(f, face, pack, names, cps);
      LoadAll(l.font, face, pack, l.names, cps) == l
  {
    var l := LoadAll(f, face, pack, names, cps);
    LoadAllFinds(f, face, pack, names, cps);
    LoadAllKeepsValid(f, face, pack, names, cps);
    AllCachedPass(l.font, face, pack, l.names, cps);
    SameRecords(LoadAll(l.font, face, pack, l.names, cps).glyphs, l.glyphs, WithGlyph(face, cps), l.font, face);
  }

  // ---------------------------------------------------------------------------
  // Widths.

  /** The pen's travel over the glyphs: the sum of their advances. */
  function Advances(gs: seq<Glyph>): real
    decreases |gs|
  {
    if |gs| == 0 then 0.0 else Advances(gs[..|gs| - 1]) + gs[|gs| - 1].advance
  }

  /** The reference width: the face's scaled advances of the codepoints, summed. */
  function FaceAdvances(face: Face, ws: seq<int>): real
    decreases |ws|
  {
    if |ws| == 0 then 0.0
    else FaceAdvances(face, ws[..|ws| - 1]) + face.scale * face.metrics(ws[|ws| - 1]).advance as real
  }

  /** The cached records' advances are the face's, so their sum is the reference width. */
  lemma {:induction false} AdvancesFromFace(gs: seq<Glyph>, ws: seq<int>, f: Font, face: Face)
    requires FromFace(f.glyphs, face) && Found(gs, ws, f)
    ensures Advances(gs) == FaceAdvances(face, ws)
    decreases |gs|
  {
    if |gs| > 0 {
      var n := |gs| - 1;
      assert Found(gs[..n], ws[..n], f) by {
        forall k | 0 <= k < n ensures gs[..n][k].codepoint == ws[..n][k] && gs[..n][k] in f.glyphs {
          assert gs[..n][k] == gs[k];
        }
      }
      AdvancesFromFace(gs[..n], ws[..n], f, face);
      var i :| 0 <= i < |f.glyphs| && f.glyphs[i] == gs[n];
      assert gs[n].advance == face.scale * face.metrics(f.glyphs[i].codepoint).advance as real;
    }
  }

  /**
   The width of a text depends only on the face: whatever was cached before,
   the glyphs a pass finds advance the pen by the face's scaled advances of the
   codepoints that have a glyph.
   */
  lemma WidthFromFace(f: Font, face: Face, pack: Packer, names: nat, cps: seq<int>)
    requires Valid(f, face, names)
    ensures Advances(LoadAll(f, face, pack, names, cps).glyphs) == FaceAdvances(face, WithGlyph(face, cps))
  {
    var l := LoadAll(f, face, pack, names, cps);
    LoadAllFinds(f, face, pack, names, cps);
    LoadAllKeepsValid(f, face, pack, names, cps);
    AdvancesFromFace(l.glyphs, WithGlyph(face, cps), l.font, face);
  }

  lemma {:induction false} AdvancesSnoc(gs: seq<Glyph>, g: Glyph)
    ensures Advances(gs + [g]) == Advances(gs) + g.advance
  {
    assert (gs + [g])[..|gs|] == gs;
  }

  /**
   The loop of `cbTextWidth` over a NUL-terminated byte string (or the whole
   sequence when it has no NUL): the font after the lookups, the next GL name,
   and the pen's x, which starts at 0 and moves by each glyph found.
   */
  method MeasureText(f0: Font, face: Face, pack: Packer, names: nat, text: seq<Utf8.Byte>)
    returns (font: Font, nm: nat, x: real)
    ensures var l := LoadAll(f0, face, pack, names, Utf8.Codepoints(text));
      font == l.font && nm == l.names && x == Advances(l.glyphs)
  {
    font, nm := f0, names;
    var pen := Pen(0.0, 0.0);
    var d := Utf8.Start;
    ghost var cps: seq<int> := [];
    ghost var gs: seq<Glyph> := [];
    var i := 0;
    while i < |text| && text[i] != 0
      invariant Scanning(text, f0, face, pack, names, i, d, cps, font, nm, gs)
      invariant pen == Pen(Advances(gs), 0.0)
      decreases |text| - i
    {
      var found;
      ghost var gs';
      i, d, cps, font, nm, gs', found := Step(text, f0, face, pack, names, i, d, cps, font, nm, gs);
      if |found| == 1 {
        AdvancesSnoc(gs, found[0]);
        pen := GetQuad(found[0], pen).next;
      }
      gs := gs';
    }
    ScanningDone(text, f0, face, pack, names, i, d, cps, font, nm, gs);
    x := pen.x;
  }

  /**
   `cbTextWidth`: the font's cache after the lookups, the next GL name, and the
   pen's final x truncated toward zero. With a valid cache the width is the
   face's, whatever was cached before.
   */
  method TextWidth(fonts: seq<Font>, id: int, face: Face, pack: Packer, names: nat, text: seq<Utf8.Byte>)
    returns (fonts': seq<Font>, names': nat, width: int)
    requires FontRegistry.Live(fonts, id)
    ensures var l := LoadAll(fonts[id], face, pack, names, Utf8.Codepoints(text));
      && fonts' == fonts[id := l.font] && names' == l.names
      && width == TruncToInt(Advances(l.glyphs))
    ensures Valid(fonts[id], face, names) ==>
      width == TruncToInt(FaceAdvances(face, WithGlyph(face, Utf8.Codepoints(text))))
    ensures FontRegistry.Valid(fonts) ==> FontRegistry.Valid(fonts')
  {
    var font, nm, x := MeasureText(fonts[id], face, pack, names, text);
    if Valid(fonts[id], face, names) {
      WidthFromFace(fonts[id], face, pack, names, Utf8.Codepoints(text));
    }
    fonts', names', width := fonts[id := font], nm, TruncToInt(x);
  }

  /** Where the pen stands after the glyphs, from `start`: moved right by their advances. */
  function PenAfter(start: Pen, gs: seq<Glyph>): Pen {
    Pen(start.x + Advances(gs), start.y)
  }

  /**
   The quads of the glyphs drawn from the pen: each at the pen where the glyphs
   before it left it.
   */
  function TextQuads(gs: seq<Glyph>, pen: Pen): (subs: seq<Submission>)
    ensures |subs| == |gs|
    ensures forall k :: 0 <= k < |gs| ==> subs[k].texture == gs[k].texture
    decreases |gs|
  {
    if |gs| == 0 then []
    else
      var n := |gs| - 1;
      TextQuads(gs[..n], pen) + [GlyphQuad(gs[n], PenAfter(pen, gs[..n]))]
  }

  /** The k-th glyph is drawn at the starting pen moved right by the advances of the glyphs before it. */
  lemma {:induction false} TextQuadsAt(gs: seq<Glyph>, pen: Pen, k: int)
    requires 0 <= k < |gs|
    ensures TextQuads(gs, pen)[k] == GlyphQuad(gs[k], PenAfter(pen, gs[..k]))
    decreases |gs|
  {
    var n := |gs| - 1;
    if k < n {
      TextQuadsAt(gs[..n], pen, k);
      assert gs[..n][..k] == gs[..k];
    }
  }

  /**
   The batch after drawing the glyphs from `start`, one quad after another,
   each at the pen where the glyphs before it left it.
   */
  function Drawn(b0: Batcher, start: Pen, gs: seq<Glyph>): Batcher
    decreases |gs|
  {
    if |gs| == 0 then b0
    else
      var n := |gs| - 1;
      Submit(Drawn(b0, start, gs[..n]), GlyphQuad(gs[n], PenAfter(start, gs[..n])))
  }

  /** Drawing glyph by glyph submits the text's quads in order. */
  lemma {:induction false} DrawnSubmits(b0: Batcher, start: Pen, gs: seq<Glyph>)
    ensures Drawn(b0, start, gs) == SubmitAll(b0, TextQuads(gs, start))
    decreases |gs|
  {
    if |gs| > 0 {
      var n := |gs| - 1;
      DrawnSubmits(b0, start, gs[..n]);
      SubmitAllSnoc(b0, TextQuads(gs[..n], start), GlyphQuad(gs[n], PenAfter(start, gs[..n])));
    }
  }

  /**
   Drawn from an empty batch and flushed, the glyphs log one draw call per
   maximal run of quads sharing a page texture, in text order.
   */
  lemma DrawnLog(log: seq<DrawCall>, start: Pen, gs: seq<Glyph>)
    ensures Flush(Drawn(Batcher(0, [], log), start, gs)).log == log + Runs(TextQuads(gs, start))
  {
    DrawnSubmits(Batcher(0, [], log), start, gs);
    BatchedLog(Batcher(0, [], log), TextQuads(gs, start));
  }

  /**
   The body of the drawing loop for a glyph found: `getQuad` at the pen, the
   quad's six vertices pushed under the glyph's page texture, and the pen moved
   right by the glyph's advance.
   */
  method PushGlyph(b: Batcher, g: Glyph, pen: Pen) returns (b': Batcher, pen': Pen)
    ensures b' == Submit(b, GlyphQuad(g, pen))
    ensures pen' == Pen(pen.x + g.advance, pen.y)
  {
    var placed := GetQuad(g, pen);
    b' := Submit(b, GlyphQuad(g, pen));
    pen' := placed.next;
  }

  /**
   The drawing loop's work for a glyph found, stated against the text so far:
   the quads of the glyphs before it, from the starting pen, are followed by
   this glyph's.
   */
  method DrawGlyph(ghost b0: Batcher, ghost start: Pen, ghost gs: seq<Glyph>, b: Batcher, pen: Pen, g: Glyph)
    returns (b': Batcher, pen': Pen)
    requires b == Drawn(b0, start, gs) && pen == PenAfter(start, gs)
    ensures b' == Drawn(b0, start, gs + [g]) && pen' == PenAfter(start, gs + [g])
  {
    assert (gs + [g])[..|gs|] == gs;
    AdvancesSnoc(gs, g);
    b', pen' := PushGlyph(b, g, pen);
  }

  /**
   `cbRenderText` at pen (x, y): the same lookups as `cbTextWidth`, each glyph's
   quad submitted to a batch that starts empty with current texture 0, then a
   final flush. The draw calls logged are the maximal runs of the glyph quads
   sharing a page texture, in text order.
   */
  method RenderText(fonts: seq<Font>, id: int, face: Face, pack: Packer, names: nat, text: seq<Utf8.Byte>,
                    x: real, y: real, log: seq<DrawCall>)
    returns (fonts': seq<Font>, names': nat, log': seq<DrawCall>)
    requires FontRegistry.Live(fonts, id)
    ensures var l := LoadAll(fonts[id], face, pack, names, Utf8.Codepoints(text));
      && fonts' == fonts[id := l.font] && names' == l.names
      && log' == log + Runs(TextQuads(l.glyphs, Pen(x, y)))
    ensures FontRegistry.Valid(fonts) ==> FontRegistry.Valid(fonts')
  {
    var font := fonts[id];
    var nm := names;
    var pen := Pen(x, y);
    var b := Batcher(0, [], log);
    var d := Utf8.Start;
    ghost var cps: seq<int> := [];
    ghost var gs: seq<Glyph> := [];
    var i := 0;
    while i < |text| && text[i] != 0
      invariant Scanning(text, fonts[id], face, pack, names, i, d, cps, font, nm, gs)
      invariant pen == PenAfter(Pen(x, y), gs)
      invariant b == Drawn(Batcher(0, [], log), Pen(x, y), gs)
      decreases |text| - i
    {
      var found;
      ghost var gs';
      i, d, cps, font, nm, gs', found := Step(text, fonts[id], face, pack, names, i, d, cps, font, nm, gs);
      if |found| == 1 {
        b, pen := DrawGlyph(Batcher(0, [], log), Pen(x, y), gs, b, pen, found[0]);
      }
      gs := gs';
    }
    ScanningDone(text, fonts[id], face, pack, names, i, d, cps, font, nm, gs);
    DrawnLog(log, Pen(x, y), gs);
    b := Flush(b);
    fonts', names', log' := fonts[id := font], nm, b.log;
  }

  /**
   A text whose glyphs all sit on one atlas page is drawn by a single call
   holding every glyph's quad in text order.
   */
  lemma OnePageOneCall(f: Font, face: Face, pack: Packer, names: nat, cps: seq<int>, pen: Pen)
    requires Valid(f, face, names)
    requires var l := LoadAll(f, face, pack, names, cps); |l.font.pages| == 1 && |l.glyphs| > 0
    ensures var l := LoadAll(f, face, pack, names, cps);
      Runs(TextQuads(l.glyphs, pen)) == [DrawCall(l.font.pages[0].texture, AllVertices(TextQuads(l.glyphs, pen)))]
  {
    var l := LoadAll(f, face, pack, names, cps);
    LoadAllFinds(f, face, pack, names, cps);
    LoadAllKeepsValid(f, face, pack, names, cps);
    var subs := TextQuads(l.glyphs, pen);
    forall k | 0 <= k < |subs| ensures subs[k].texture == l.font.pages[0].texture {
      var i :| 0 <= i < |l.font.glyphs| && l.font.glyphs[i] == l.glyphs[k];
      assert l.font.glyphs[i].page < |l.font.pages|;
    }
    OneTextureOneRun(subs, l.font.pages[0].texture);
  }

  /** A malformed sequence ends the text: nothing after the byte that drove the decoder to REJECT is looked up or drawn. */
  lemma MalformedEndsText(f: Font, face: Face, pack: Packer, names: nat, a: seq<Utf8.Byte>, rest: seq<Utf8.Byte>)
    requires Utf8.NoNul(a) && Utf8.Run(Utf8.Start, a).state == Utf8.Reject
    ensures LoadAll(f, face, pack, names, Utf8.Codepoints(a + rest)) == LoadAll(f, face, pack, names, Utf8.Codepoints(a))
  {
    Utf8.MalformedEndsString(a, rest);
  }
}
