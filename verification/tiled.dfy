/**
 Tiled layers: a width x height map of tile ids drawn from a tile set.

 The tile set is a texture cut into tileWidth x tileHeight tiles, numbered
 row by row. Rendering visits the cells column by column (x outer, y inner),
 reads the cell's tile id, cuts that tile out of the tile set as a subimage,
 places it at the cell's pixel position and hands it to the 2D renderer.
 Every image uses the tile set's texture, so a whole layer is one batch run.

 `cbFillTiledLayer` copies tileWidth * tileHeight ints into the tile slots
 where width * height was meant. The model keeps that copy as
 `FillAsWritten`, shows where it goes wrong, and uses the corrected `Fill`.
 */
module Tiled {
  import opened CArith
  import opened Batch
  import opened Image2D

  /** A tile slot: allocated but never written, or holding a tile id. */
  datatype Slot = Unset | Tile(id: int)

  /** `cbTiledLayer`. */
  datatype TiledLayer = TiledLayer(
    tileSet: Texture, tileWidth: int, tileHeight: int,
    width: nat, height: nat, tiles: seq<Slot>,
    x: real, y: real)

  /** One slot per cell. */
  predicate WellFormed(l: TiledLayer) {
    |l.tiles| == l.width * l.height
  }

  /** Every cell holds a tile id. */
  predicate Filled(l: TiledLayer) {
    WellFormed(l) && forall k :: 0 <= k < |l.tiles| ==> l.tiles[k].Tile?
  }

  /**
   `cbCreateTiledLayer`: the dimensions, tile set and tile size as given, the
   position at the origin, and width * height slots not yet written.
   */
  function CreateTiledLayer(width: nat, height: nat, tiles: Texture, tileWidth: int, tileHeight: int): (l: TiledLayer)
    ensures WellFormed(l) && l.width == width && l.height == height
    ensures l.tileSet == tiles && l.tileWidth == tileWidth && l.tileHeight == tileHeight
    ensures forall k :: 0 <= k < |l.tiles| ==> l.tiles[k] == Unset
    ensures l.x == 0.0 && l.y == 0.0
  {
    TiledLayer(tiles, tileWidth, tileHeight, width, height, seq(width * height, _ => Unset), 0.0, 0.0)
  }

  // ---------------------------------------------------------------------------
  // Filling.

  /** The number of ints `cbFillTiledLayer` copies. */
  function FillCount(l: TiledLayer): int {
    l.tileWidth * l.tileHeight
  }

  /** The copy of `cbFillTiledLayer` stays inside both the tile slots and the caller's data. */
  predicate FillInBounds(l: TiledLayer, data: seq<int>) {
    0 <= FillCount(l) <= |l.tiles| && FillCount(l) <= |data|
  }

  /**
   `cbFillTiledLayer` as written: the first tileWidth * tileHeight slots take
   the caller's ints and the rest keep what they held. Only defined when the
   copy is in bounds; outside them the C writes past the tile array.
   */
  function FillAsWritten(l: TiledLayer, data: seq<int>): (r: TiledLayer)
    requires FillInBounds(l, data)
    ensures r == l.(tiles := r.tiles) && |r.tiles| == |l.tiles|
    ensures forall k :: 0 <= k < FillCount(l) ==> r.tiles[k] == Tile(data[k])
    ensures forall k :: FillCount(l) <= k < |l.tiles| ==> r.tiles[k] == l.tiles[k]
  {
    var n := FillCount(l);
    l.(tiles := seq(n, k requires 0 <= k < n => Tile(data[k])) + l.tiles[n..])
  }

  /** The corrected fill: every one of the width * height slots takes the caller's int at its index. */
  function Fill(l: TiledLayer, data: seq<int>): (r: TiledLayer)
    requires WellFormed(l) && |data| >= |l.tiles|
    ensures Filled(r) && r == l.(tiles := r.tiles)
    ensures forall k :: 0 <= k < |r.tiles| ==> r.tiles[k] == Tile(data[k])
  {
    l.(tiles := seq(|l.tiles|, k requires 0 <= k < |l.tiles| => Tile(data[k])))
  }

  /** When a tile's pixel count equals the cell count, the copy as written is the intended one. */
  lemma FillAgreesWhenCountsMatch(l: TiledLayer, data: seq<int>)
    requires WellFormed(l) && |data| >= |l.tiles| && FillCount(l) == |l.tiles|
    ensures FillInBounds(l, data) && FillAsWritten(l, data) == Fill(l, data)
  {
    assert FillAsWritten(l, data).tiles == Fill(l, data).tiles;
  }

  /**
   On a fresh layer, whose slots are all unset, the copy as written is the
   intended one exactly when a tile's pixel count equals the cell count.
   */
  lemma FillAgreesOnlyWhenCountsMatch(width: nat, height: nat, t: Texture, tw: int, th: int, data: seq<int>)
    requires 0 <= tw * th <= width * height && |data| >= width * height
    ensures var l := CreateTiledLayer(width, height, t, tw, th);
      && FillInBounds(l, data)
      && (FillAsWritten(l, data) == Fill(l, data) <==> FillCount(l) == |l.tiles|)
  {
    var l := CreateTiledLayer(width, height, t, tw, th);
    if FillCount(l) == |l.tiles| {
      FillAgreesWhenCountsMatch(l, data);
    } else {
      assert FillAsWritten(l, data).tiles[FillCount(l)] == Unset;
      assert Fill(l, data).tiles[FillCount(l)].Tile?;
    }
  }

  /** A fresh layer with more cells than a tile has pixels keeps unwritten cells after the copy as written. */
  lemma FillAsWrittenLeavesUnset(width: nat, height: nat, t: Texture, tw: int, th: int, data: seq<int>)
    requires 0 <= tw * th < width * height && |data| >= tw * th
    ensures var l := CreateTiledLayer(width, height, t, tw, th);
      FillInBounds(l, data) && FillAsWritten(l, data).tiles[tw * th] == Unset && !Filled(FillAsWritten(l, data))
  {
  }

  /** The copy as written only stays in bounds when a tile has no more pixels than the map has cells. */
  lemma FillInBoundsNeedsSmallTiles(l: TiledLayer, data: seq<int>)
    requires WellFormed(l) && FillInBounds(l, data)
    ensures l.tileWidth * l.tileHeight <= l.width * l.height
  {
  }

  /** A 3 x 3 map with 2 x 2 pixel tiles: four cells are written and five stay unset. */
  lemma SmallTilesLeaveCellsUnset(t: Texture, data: seq<int>)
    requires |data| == 9
    ensures var l := CreateTiledLayer(3, 3, t, 2, 2);
      FillInBounds(l, data) && !Filled(FillAsWritten(l, data)) && Filled(Fill(l, data))
  {
    FillAsWrittenLeavesUnset(3, 3, t, 2, 2, data);
  }

  /** A 2 x 2 map with 32 x 32 pixel tiles: the copy as written moves 1024 ints into 4 slots. */
  lemma LargeTilesOverflow(t: Texture, data: seq<int>)
    requires |data| == 4
    ensures var l := CreateTiledLayer(2, 2, t, 32, 32);
      FillCount(l) == 1024 && |l.tiles| == 4 && !FillInBounds(l, data) && Filled(Fill(l, data))
  {
  }

  // ---------------------------------------------------------------------------
  // Index math.

  /** The slot of cell (i, j): `i + j * width`, which lies inside the tile array. */
  function CellIndex(l: TiledLayer, i: int, j: int): (k: int)
    requires WellFormed(l) && 0 <= i < l.width && 0 <= j < l.height
    ensures 0 <= k < |l.tiles|
  {
    MulStep(j, l.height, l.width);
    i + j * l.width
  }

  /**
   The cell can be read back from its slot: x is the remainder and y the
   quotient by the width.
   */
  lemma CellIndexInverse(l: TiledLayer, i: int, j: int)
    requires WellFormed(l) && 0 <= i < l.width && 0 <= j < l.height
    ensures CellIndex(l, i, j) % l.width == i && CellIndex(l, i, j) / l.width == j
  {
    DivModUnique(i + j * l.width, l.width, j, i);
  }

  /** Euclidean division has one quotient and one remainder. */
  lemma DivModUnique(a: int, d: int, q: int, r: int)
    requires d > 0 && 0 <= r < d && a == q * d + r
    ensures a / d == q && a % d == r
  {
    var q', r' := a / d, a % d;
    assert a == q' * d + r' && 0 <= r' < d;
    if q' > q {
      MulStep(q, q', d);
      assert false;
    } else if q' < q {
      MulStep(q', q, d);
      assert false;
    }
  }

  /** Two cells share a slot only if they are the same cell. */
  lemma CellIndexInjective(l: TiledLayer, i: int, j: int, i': int, j': int)
    requires WellFormed(l) && 0 <= i < l.width && 0 <= j < l.height && 0 <= i' < l.width && 0 <= j' < l.height
    requires CellIndex(l, i, j) == CellIndex(l, i', j')
    ensures i == i' && j == j'
  {
    CellIndexInverse(l, i, j);
    CellIndexInverse(l, i', j');
  }

  /** The tile set has a whole tile across, so the integer divisions of rendering divide by no zero. */
  predicate HasTileGrid(l: TiledLayer) {
    l.tileWidth != 0 && CDiv(l.tileSet.width, l.tileWidth) != 0
  }

  /** `tileSet.width / tileWidth`: how many tiles fit across the tile set. */
  function Columns(l: TiledLayer): int
    requires l.tileWidth != 0
  {
    CDiv(l.tileSet.width, l.tileWidth)
  }

  /**
   The pixel origin of tile `t` in the tile set: column `t % cols` times the
   tile width across, row `t / cols` times the tile height down, both with C
   division.
   */
  function TileSource(l: TiledLayer, t: int): (o: (int, int))
    requires HasTileGrid(l)
  {
    (CMod(t, Columns(l)) * l.tileWidth, CDiv(t, Columns(l)) * l.tileHeight)
  }

  /** A tile set of positive size cut into positive tiles: the case where tile ids select tiles. */
  predicate PositiveGrid(l: TiledLayer) {
    && l.tileSet.width > 0 && l.tileSet.height > 0 && l.tileWidth > 0 && l.tileHeight > 0
    && CDiv(l.tileSet.width, l.tileWidth) > 0
  }

  /** The number of whole tiles down the tile set. */
  function Rows(l: TiledLayer): int
    requires l.tileHeight != 0
  {
    CDiv(l.tileSet.height, l.tileHeight)
  }

  /**
   A tile id below the number of whole tiles in the set selects a rectangle
   that lies inside the tile set.
   */
  lemma TileSourceInside(l: TiledLayer, t: int)
    requires PositiveGrid(l) && 0 <= t < Columns(l) * Rows(l)
    ensures HasTileGrid(l)
    ensures var o := TileSource(l, t);
      && 0 <= o.0 && o.0 + l.tileWidth <= l.tileSet.width
      && 0 <= o.1 && o.1 + l.tileHeight <= l.tileSet.height
  {
    var cols, rows := Columns(l), Rows(l);
    NonNegativeDivMod(t, cols);
    NonNegativeDivMod(l.tileSet.width, l.tileWidth);
    NonNegativeDivMod(l.tileSet.height, l.tileHeight);
    var c, r := CMod(t, cols), CDiv(t, cols);
    assert 0 <= c < cols;
    MulStep(c, cols, l.tileWidth);
    assert cols * l.tileWidth <= l.tileSet.width;
    assert r < rows by {
      if r >= rows {
        MulStep(rows - 1, r, cols);
        assert false;
      }
    }
    MulStep(r, rows, l.tileHeight);
    assert rows * l.tileHeight <= l.tileSet.height;
  }

  /** Different non-negative tile ids have different origins in the tile set. */
  lemma TileSourceInjective(l: TiledLayer, t: int, t': int)
    requires PositiveGrid(l) && 0 <= t && 0 <= t'
    ensures HasTileGrid(l)
    ensures TileSource(l, t) == TileSource(l, t') ==> t == t'
  {
    var cols := Columns(l);
    if TileSource(l, t) == TileSource(l, t') {
      NonNegativeDivMod(t, cols);
      NonNegativeDivMod(t', cols);
      CancelPositive(CMod(t, cols), CMod(t', cols), l.tileWidth);
      CancelPositive(CDiv(t, cols), CDiv(t', cols), l.tileHeight);
      DivModIdentity(t, cols);
      DivModIdentity(t', cols);
    }
  }

  lemma CancelPositive(a: int, b: int, c: int)
    requires c > 0 && a * c == b * c
    ensures a == b
  {
    if a != b {
      assert false;
    }
  }

  // ---------------------------------------------------------------------------
  // Rendering.

  /** Every cell's tile can be cut out: the layer is filled and the tile set has a tile grid. */
  predicate Renderable(l: TiledLayer) {
    Filled(l) && HasTileGrid(l)
  }

  /**
   The image `cbRenderTiledLayer` draws for cell (i, j): the tile set's tile
   for the cell's id, at the tile size, placed at (i * tileWidth, j * tileHeight).
   The layer's own x and y play no part.
   */
  function TileImage(l: TiledLayer, i: int, j: int): (img: Image)
    requires Renderable(l) && 0 <= i < l.width && 0 <= j < l.height
    ensures img.texture == l.tileSet
    ensures var o := TileSource(l, l.tiles[CellIndex(l, i, j)].id);
      UvOf(img) == PixelUv(l.tileSet, o.0, o.1, o.0 + l.tileWidth, o.1 + l.tileHeight)
    ensures img.w == l.tileWidth as real && img.h == l.tileHeight as real
    ensures img.x == (i * l.tileWidth) as real && img.y == (j * l.tileHeight) as real
  {
    var tile := l.tiles[CellIndex(l, i, j)].id;
    var cols := Columns(l);
    var row := CMod(tile, cols);
    var col := CDiv(tile, cols);
    var sub := CreateSubimage(l.tileSet, row * l.tileWidth, col * l.tileHeight, l.tileWidth, l.tileHeight);
    assert TileSource(l, tile) == (row * l.tileWidth, col * l.tileHeight);
    assert UvOf(sub) == PixelUv(l.tileSet, row * l.tileWidth, col * l.tileHeight,
      row * l.tileWidth + l.tileWidth, col * l.tileHeight + l.tileHeight);
    var img := sub.(x := (i * l.tileWidth) as real, y := (j * l.tileHeight) as real);
    assert UvOf(img) == UvOf(sub);
    img
  }

  /** Moving the layer does not move what is drawn. */
  lemma PositionIgnored(l: TiledLayer, x: real, y: real, i: int, j: int)
    requires Renderable(l) && 0 <= i < l.width && 0 <= j < l.height
    ensures TileImage(l.(x := x, y := y), i, j) == TileImage(l, i, j)
  {
  }

  /** The cell visited k-th: x outer, y inner, so (k / height, k % height). */
  function VisitedCell(l: TiledLayer, k: int): (c: (int, int))
    requires 0 <= k < l.width * l.height
    ensures 0 <= c.0 < l.width && 0 <= c.1 < l.height
    ensures k == c.0 * l.height + c.1
  {
    var c := (k / l.height, k % l.height);
    assert c.0 < l.width by {
      if c.0 >= l.width {
        MulStep(l.width - 1, c.0, l.height);
      }
    }
    c
  }

  // The visiting order, for any quad per cell: the lemmas below do not look
  // at what a cell draws, only at where its quad lands.

  /** The quads of the first m cells of column i, top to bottom. */
  function ColumnQuads(quad: (nat, nat) -> Submission, i: nat, m: nat): (subs: seq<Submission>)
    ensures |subs| == m
    decreases m
  {
    if m == 0 then [] else ColumnQuads(quad, i, m - 1) + [quad(i, m - 1)]
  }

  /** The quads of the first i columns of height h, column by column. */
  function ColumnsQuads(quad: (nat, nat) -> Submission, h: nat, i: nat): (subs: seq<Submission>)
    decreases i
  {
    if i == 0 then [] else ColumnsQuads(quad, h, i - 1) + ColumnQuads(quad, i - 1, h)
  }

  /** Where column i starts in visiting order: after the h cells of each column before it. */
  function ColumnStart(h: nat, i: nat): nat {
    if i == 0 then 0 else ColumnStart(h, i - 1) + h
  }

  /** Column i starts at i * h. */
  lemma {:induction false} ColumnStartIs(h: nat, i: nat)
    ensures ColumnStart(h, i) == i * h
  {
    if i > 0 {
      ColumnStartIs(h, i - 1);
      MulSucc(i - 1, h);
    }
  }

  /** The j-th quad of a column is its cell (i, j)'s. */
  lemma {:induction false} ColumnQuadsAt(quad: (nat, nat) -> Submission, i: nat, m: nat, j: nat)
    requires j < m
    ensures ColumnQuads(quad, i, m)[j] == quad(i, j)
    decreases m
  {
    if j < m - 1 {
      ColumnQuadsAt(quad, i, m - 1, j);
    }
  }

  /** The first i columns hold h quads each. */
  lemma {:induction false} ColumnsQuadsLength(quad: (nat, nat) -> Submission, h: nat, i: nat)
    ensures |ColumnsQuads(quad, h, i)| == ColumnStart(h, i)
    decreases i
  {
    if i > 0 {
      ColumnsQuadsLength(quad, h, i - 1);
    }
  }

  /** Among the first i columns, the j-th position of column c holds the quad of cell (c, j). */
  lemma {:induction false} ColumnsQuadsAt(quad: (nat, nat) -> Submission, h: nat, i: nat, c: nat, j: nat)
    requires c < i && j < h
    ensures ColumnStart(h, c) + j < |ColumnsQuads(quad, h, i)|
    ensures ColumnsQuads(quad, h, i)[ColumnStart(h, c) + j] == quad(c, j)
    decreases i
  {
    ColumnsQuadsLength(quad, h, i - 1);
    ColumnsQuadsLength(quad, h, i);
    if c == i - 1 {
      ColumnQuadsAt(quad, c, h, j);
    } else {
      ColumnsQuadsAt(quad, h, i - 1, c, j);
    }
  }

  /** When every cell's quad uses texture t, so does every quad of a column. */
  lemma {:induction false} ColumnQuadsTexture(quad: (nat, nat) -> Submission, i: nat, m: nat, t: nat)
    requires forall a: nat, b: nat :: quad(a, b).texture == t
    ensures forall k :: 0 <= k < m ==> ColumnQuads(quad, i, m)[k].texture == t
    decreases m
  {
    if m > 0 {
      ColumnQuadsTexture(quad, i, m - 1, t);
    }
  }

  /** When every cell's quad uses texture t, so does every quad of the first i columns. */
  lemma {:induction false} ColumnsQuadsTexture(quad: (nat, nat) -> Submission, h: nat, i: nat, t: nat)
    requires forall a: nat, b: nat :: quad(a, b).texture == t
    ensures forall k :: 0 <= k < |ColumnsQuads(quad, h, i)| ==> ColumnsQuads(quad, h, i)[k].texture == t
    decreases i
  {
    if i > 0 {
      ColumnsQuadsTexture(quad, h, i - 1, t);
      ColumnQuadsTexture(quad, i - 1, h, t);
    }
  }

  /**
   The quad `cbRenderTiledLayer` submits for cell (i, j). Only cells inside
   the layer are ever drawn; outside it the value is a placeholder.
   */
  function CellQuad(l: TiledLayer, place: Image -> Corners): (nat, nat) -> Submission
    requires Renderable(l)
  {
    (i: nat, j: nat) =>
      if i < l.width && j < l.height then ImageQuad(TileImage(l, i, j), place)
      else Submission(l.tileSet.id, place(CreateImage(l.tileSet)), Uv(Finite(0.0), Finite(0.0), Finite(0.0), Finite(0.0)))
  }

  /** The quads of a layer in visiting order: x outer, y inner. */
  function TileQuads(l: TiledLayer, place: Image -> Corners): seq<Submission>
    requires Renderable(l)
  {
    ColumnsQuads(CellQuad(l, place), l.height, l.width)
  }

  /**
   A layer submits one quad per cell, in visiting order: width * height
   quads, the k-th being that of the cell visited k-th, (k / height, k % height).
   */
  lemma TileQuadsVisit(l: TiledLayer, place: Image -> Corners, k: int)
    requires Renderable(l) && 0 <= k < l.width * l.height
    ensures |TileQuads(l, place)| == l.width * l.height
    ensures var c := VisitedCell(l, k); TileQuads(l, place)[k] == ImageQuad(TileImage(l, c.0, c.1), place)
  {
    var c := VisitedCell(l, k);
    ColumnsQuadsLength(CellQuad(l, place), l.height, l.width);
    ColumnStartIs(l.height, l.width);
    ColumnStartIs(l.height, c.0);
    ColumnsQuadsAt(CellQuad(l, place), l.height, l.width, c.0, c.1);
  }

  /** Every quad of a layer is cut from the tile set's texture. */
  lemma TileQuadsTexture(l: TiledLayer, place: Image -> Corners)
    requires Renderable(l)
    ensures forall k :: 0 <= k < |TileQuads(l, place)| ==> TileQuads(l, place)[k].texture == l.tileSet.id
  {
    ColumnsQuadsTexture(CellQuad(l, place), l.height, l.width, l.tileSet.id);
  }

  /** One pass of the inner loop: rendering cell (i, j) submits the column's next quad. */
  lemma CellStep(r0: Batcher, r: Batcher, l: TiledLayer, place: Image -> Corners, i: nat, j: nat)
    requires Renderable(l) && i < l.width && j < l.height
    requires r == SubmitAll(r0, ColumnQuads(CellQuad(l, place), i, j))
    ensures RenderImage(r, TileImage(l, i, j), place) == SubmitAll(r0, ColumnQuads(CellQuad(l, place), i, j + 1))
  {
    var quad := CellQuad(l, place);
    assert quad(i, j) == ImageQuad(TileImage(l, i, j), place);
    assert ColumnQuads(quad, i, j + 1) == ColumnQuads(quad, i, j) + [quad(i, j)];
    SubmitAllSnoc(r0, ColumnQuads(quad, i, j), quad(i, j));
  }

  /** One pass of the outer loop: a rendered column appends its quads to those of the columns before. */
  lemma ColumnStep(b: Batcher, l: TiledLayer, place: Image -> Corners, i: nat)
    requires Renderable(l)
    ensures SubmitAll(SubmitAll(b, ColumnsQuads(CellQuad(l, place), l.height, i)), ColumnQuads(CellQuad(l, place), i, l.height))
      == SubmitAll(b, ColumnsQuads(CellQuad(l, place), l.height, i + 1))
  {
    SubmitAllAppend(b, ColumnsQuads(CellQuad(l, place), l.height, i), ColumnQuads(CellQuad(l, place), i, l.height));
  }

  /**
   `cbRenderTiledLayer`: the nested loops over the cells, each tile image
   handed to the 2D renderer. The result is the batch after submitting the
   layer's quads in visiting order.
   */
  method RenderTiledLayer(b: Batcher, l: TiledLayer, place: Image -> Corners) returns (r: Batcher)
    requires Renderable(l)
    ensures r == SubmitAll(b, TileQuads(l, place))
  {
    r := b;
    var i := 0;
    while i < l.width
      invariant i <= l.width
      invariant r == SubmitAll(b, ColumnsQuads(CellQuad(l, place), l.height, i))
    {
      ColumnStep(b, l, place, i);
      r := RenderColumn(r, l, place, i);
      i := i + 1;
    }
  }

  /** The inner loop of `cbRenderTiledLayer`: the cells of column i, top to bottom. */
  method RenderColumn(r0: Batcher, l: TiledLayer, place: Image -> Corners, i: nat) returns (r: Batcher)
    requires Renderable(l) && i < l.width
    ensures r == SubmitAll(r0, ColumnQuads(CellQuad(l, place), i, l.height))
  {
    r := r0;
    var j := 0;
    while j < l.height
      invariant j <= l.height
      invariant r == SubmitAll(r0, ColumnQuads(CellQuad(l, place), i, j))
    {
      CellStep(r0, r, l, place, i, j);
      r := RenderImage(r, TileImage(l, i, j), place);
      j := j + 1;
    }
  }

  /**
   A layer drawn in a frame of its own is one draw call: every tile uses the
   tile set's texture, so stopping the 2D renderer logs a single call holding
   every cell's quad in visiting order.
   */
  lemma LayerIsOneDrawCall(b: Batcher, l: TiledLayer, place: Image -> Corners)
    requires Renderable(l) && l.width * l.height > 0 && b.buffer == []
    ensures Stop2D(SubmitAll(b, TileQuads(l, place))).log
      == b.log + [DrawCall(l.tileSet.id, AllVertices(TileQuads(l, place)))]
  {
    BatchedLog(b, TileQuads(l, place));
    TileQuadsTexture(l, place);
    OneTextureOneRun(TileQuads(l, place), l.tileSet.id);
  }
}
