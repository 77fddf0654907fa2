/**
 The quad batch protocol shared by the 2D renderer and the text renderer.

 Each renderer keeps a static vertex buffer and the texture of the quads in it
 (`currentTexture`). A quad whose texture differs from the current one first
 flushes the buffer as one draw call; a flush of an empty buffer draws nothing.
 The OpenGL calls of a flush are replaced by one entry in a log of draw calls.
 */
module Batch {
  import opened CArith

  datatype Point = Point(x: real, y: real)

  /** One vertex as pushed to the buffer: four floats, position then texture coordinate. */
  datatype Vertex = Vertex(pos: Point, u: Float, v: Float)

  /** The corners of a quad: 0 top-left, 1 top-right, 2 bottom-left, 3 bottom-right. */
  datatype Corners = Corners(c0: Point, c1: Point, c2: Point, c3: Point)

  /** A texture rectangle: (u0, v0) is the top-left corner, (u1, v1) the bottom-right one. */
  datatype Uv = Uv(u0: Float, v0: Float, u1: Float, v1: Float)

  /** Corner `k` with its texture coordinate: u1 on the right (odd k), v1 at the bottom (k >= 2). */
  function Corner(c: Corners, uv: Uv, k: int): Vertex
    requires 0 <= k < 4
  {
    var p := if k == 0 then c.c0 else if k == 1 then c.c1 else if k == 2 then c.c2 else c.c3;
    Vertex(p, if k % 2 == 1 then uv.u1 else uv.u0, if k >= 2 then uv.v1 else uv.v0)
  }

  /** The corners in push order: triangles (0, 1, 2) and (3, 1, 2), sharing the 1-2 diagonal. */
  const TriangleOrder: seq<int> := [0, 1, 2, 3, 1, 2]

  /** The six vertices one quad appends, in the order the renderers push them. */
  function QuadVertices(c: Corners, uv: Uv): (vs: seq<Vertex>)
    ensures |vs| == 6
    ensures forall k :: 0 <= k < 6 ==> vs[k] == Corner(c, uv, TriangleOrder[k])
    ensures vs[4] == vs[1] && vs[5] == vs[2]
  {
    [Vertex(c.c0, uv.u0, uv.v0), Vertex(c.c1, uv.u1, uv.v0), Vertex(c.c2, uv.u0, uv.v1),
     Vertex(c.c3, uv.u1, uv.v1), Vertex(c.c1, uv.u1, uv.v0), Vertex(c.c2, uv.u0, uv.v1)]
  }

  /** What `glDrawArrays` draws on a flush: the bound texture and the buffered vertices. */
  datatype DrawCall = DrawCall(texture: nat, vertices: seq<Vertex>)

  /** One quad handed to a renderer. */
  datatype Submission = Submission(texture: nat, corners: Corners, uv: Uv)

  function VerticesOf(s: Submission): seq<Vertex> {
    QuadVertices(s.corners, s.uv)
  }

  /** The static state of one renderer: `currentTexture`, `vertices` and the draw log. */
  datatype Batcher = Batcher(current: nat, buffer: seq<Vertex>, log: seq<DrawCall>)

  /** `flushRenderer(currentTexture)`: draw the buffer, if any, and empty it. */
  function Flush(b: Batcher): (r: Batcher)
    ensures r.buffer == [] && r.current == b.current
    ensures b.buffer == [] ==> r == b
    ensures b.buffer != [] ==> r.log == b.log + [DrawCall(b.current, b.buffer)]
  {
    if |b.buffer| == 0 then b else Batcher(b.current, [], b.log + [DrawCall(b.current, b.buffer)])
  }

  /** One quad: flush when its texture differs from the current one, then buffer it. */
  function Submit(b: Batcher, s: Submission): (r: Batcher)
    ensures r.current == s.texture
    ensures b.current == s.texture ==> r.log == b.log && r.buffer == b.buffer + VerticesOf(s)
    ensures b.current != s.texture ==> r.log == Flush(b).log && r.buffer == VerticesOf(s)
  {
    var f := if b.current != s.texture then Flush(b) else b;
    Batcher(s.texture, f.buffer + VerticesOf(s), f.log)
  }

  /** Several quads in order. */
  function SubmitAll(b: Batcher, subs: seq<Submission>): (r: Batcher)
    ensures |r.log| >= |b.log| && r.log[..|b.log|] == b.log
    ensures |subs| > 0 ==> r.current == subs[|subs| - 1].texture && r.buffer != []
    ensures |subs| == 0 ==> r == b
    decreases |subs|
  {
    if |subs| == 0 then b else Submit(SubmitAll(b, subs[..|subs| - 1]), subs[|subs| - 1])
  }

  /** Submitting one more quad after several. */
  lemma {:induction false} SubmitAllSnoc(b: Batcher, subs: seq<Submission>, s: Submission)
    ensures SubmitAll(b, subs + [s]) == Submit(SubmitAll(b, subs), s)
  {
    assert (subs + [s])[..|subs|] == subs;
  }

  /** Submitting two runs of quads one after the other is submitting them together. */
  lemma {:induction false} SubmitAllAppend(b: Batcher, s: seq<Submission>, t: seq<Submission>)
    ensures SubmitAll(b, s + t) == SubmitAll(SubmitAll(b, s), t)
    decreases |t|
  {
    if |t| == 0 {
      assert s + t == s;
    } else {
      var n := |t| - 1;
      assert (s + t)[..|s + t| - 1] == s + t[..n];
      SubmitAllAppend(b, s, t[..n]);
    }
  }

  // ---------------------------------------------------------------------------
  // The reference: draw calls as the maximal runs of equal textures.

  /** Every vertex of every submission, in submission order. */
  function AllVertices(subs: seq<Submission>): (vs: seq<Vertex>)
    ensures |vs| == 6 * |subs|
    decreases |subs|
  {
    if |subs| == 0 then [] else AllVertices(subs[..|subs| - 1]) + VerticesOf(subs[|subs| - 1])
  }

  /** Every vertex of every draw call, in log order. */
  function Flatten(calls: seq<DrawCall>): seq<Vertex>
    decreases |calls|
  {
    if |calls| == 0 then [] else Flatten(calls[..|calls| - 1]) + calls[|calls| - 1].vertices
  }

  /**
   One more submission added to a run partition: it joins the last run exactly
   when the textures agree, and opens a new run otherwise.
   */
  function Extend(calls: seq<DrawCall>, s: Submission): (r: seq<DrawCall>)
    ensures |r| > 0 && r[|r| - 1].texture == s.texture
  {
    if |calls| > 0 && calls[|calls| - 1].texture == s.texture then
      calls[..|calls| - 1] + [DrawCall(s.texture, calls[|calls| - 1].vertices + VerticesOf(s))]
    else
      calls + [DrawCall(s.texture, VerticesOf(s))]
  }

  /** The submissions cut into maximal runs of one texture, each run one draw call. */
  function Runs(subs: seq<Submission>): (calls: seq<DrawCall>)
    ensures |calls| <= |subs|
    ensures |subs| == 0 <==> |calls| == 0
    ensures |subs| > 0 ==> calls[|calls| - 1].texture == subs[|subs| - 1].texture
    decreases |subs|
  {
    if |subs| == 0 then [] else Extend(Runs(subs[..|subs| - 1]), subs[|subs| - 1])
  }

  /** The indices where the texture changes from one submission to the next. */
  function Boundaries(subs: seq<Submission>): (n: nat)
    ensures |subs| > 0 ==> n < |subs|
    decreases |subs|
  {
    if |subs| <= 1 then 0
    else
      Boundaries(subs[..|subs| - 1])
      + (if subs[|subs| - 2].texture != subs[|subs| - 1].texture then 1 else 0)
  }

  /** The buffered quads not yet drawn, as the draw call a flush would issue. */
  function Pending(b: Batcher): seq<DrawCall> {
    if b.buffer == [] then [] else [DrawCall(b.current, b.buffer)]
  }

  /** One submission keeps "log plus pending" equal to the run partition. */
  lemma SubmitExtends(prefix: seq<DrawCall>, r0: Batcher, rs: seq<DrawCall>, s: Submission)
    requires r0.log + Pending(r0) == prefix + rs
    requires r0.buffer == [] ==> rs == []
    requires r0.buffer != [] ==> rs != [] && rs[|rs| - 1].texture == r0.current
    ensures var r := Submit(r0, s); r.log + Pending(r) == prefix + Extend(rs, s)
  {
    var r := Submit(r0, s);
    if r0.buffer == [] {
      assert r0.log == r0.log + Pending(r0) == prefix + [] == prefix;
      assert Extend(rs, s) == [DrawCall(s.texture, VerticesOf(s))];
      assert r.log == r0.log;
      assert [] + VerticesOf(s) == VerticesOf(s);
      assert r.buffer == VerticesOf(s);
      assert Pending(r) == [DrawCall(s.texture, VerticesOf(s))];
    } else {
      var k := |rs| - 1;
      assert r0.log + [DrawCall(r0.current, r0.buffer)] == prefix + rs;
      assert rs[k] == DrawCall(r0.current, r0.buffer) by {
        assert (prefix + rs)[|prefix| + k] == rs[k];
      }
      assert r0.log == prefix + rs[..k] by {
        assert (r0.log + [DrawCall(r0.current, r0.buffer)])[..|r0.log|] == r0.log;
        assert (prefix + rs)[..|prefix| + k] == prefix + rs[..k];
      }
      if s.texture != r0.current {
        assert r.log == prefix + rs[..k] + [rs[k]];
        assert rs[..k] + [rs[k]] == rs;
      }
    }
  }

  /** From an empty buffer, the log plus what is pending is the run partition so far. */
  lemma {:induction false} SubmitAllPending(b: Batcher, subs: seq<Submission>)
    requires b.buffer == []
    ensures var r := SubmitAll(b, subs); r.log + Pending(r) == b.log + Runs(subs)
    decreases |subs|
  {
    if |subs| > 0 {
      var p := subs[..|subs| - 1];
      SubmitAllPending(b, p);
      SubmitExtends(b.log, SubmitAll(b, p), Runs(p), subs[|subs| - 1]);
    }
  }

  /**
   The batch protocol: starting from an empty buffer, submitting quads and then
   flushing logs exactly one draw call per maximal run of equal textures, in
   order, and leaves the buffer empty.
   */
  lemma BatchedLog(b: Batcher, subs: seq<Submission>)
    requires b.buffer == []
    ensures Flush(SubmitAll(b, subs)).log == b.log + Runs(subs)
    ensures Flush(SubmitAll(b, subs)).buffer == []
  {
    SubmitAllPending(b, subs);
  }

  /** Neighbouring draw calls use different textures. */
  predicate Alternating(calls: seq<DrawCall>) {
    forall k :: 0 <= k < |calls| - 1 ==> calls[k].texture != calls[k + 1].texture
  }

  /** Every draw call holds a non-empty sequence of whole quads. */
  predicate WholeQuads(calls: seq<DrawCall>) {
    forall k :: 0 <= k < |calls| ==> |calls[k].vertices| > 0 && |calls[k].vertices| % 6 == 0
  }

  /** Extending a partition whose neighbours differ keeps them different. */
  lemma ExtendKeepsMaximal(calls: seq<DrawCall>, s: Submission)
    requires Alternating(calls)
    ensures Alternating(Extend(calls, s))
  {
    var r := Extend(calls, s);
    forall k | 0 <= k < |r| - 1
      ensures r[k].texture != r[k + 1].texture
    {
      assert r[k] == calls[k];
      if k + 1 < |calls| {
        assert r[k + 1].texture == calls[k + 1].texture;
      }
    }
  }

  /** Neighbouring runs have different textures, so no run can be extended. */
  lemma {:induction false} RunsAreMaximal(subs: seq<Submission>)
    ensures Alternating(Runs(subs))
    decreases |subs|
  {
    if |subs| > 0 {
      var p := subs[..|subs| - 1];
      var rs := Runs(p);
      RunsAreMaximal(p);
      ExtendKeepsMaximal(rs, subs[|subs| - 1]);
    }
  }

  /** Extending keeps every run a non-empty sequence of whole quads. */
  lemma ExtendKeepsWholeQuads(calls: seq<DrawCall>, s: Submission)
    requires WholeQuads(calls)
    ensures WholeQuads(Extend(calls, s))
  {
    var r := Extend(calls, s);
    forall k | 0 <= k < |r|
      ensures |r[k].vertices| > 0 && |r[k].vertices| % 6 == 0
    {
      if k < |calls| - 1 || (k < |calls| && r[k] == calls[k]) {
        assert r[k] == calls[k];
      } else if k < |calls| {
        assert r[k].vertices == calls[k].vertices + VerticesOf(s);
      } else {
        assert r[k].vertices == VerticesOf(s);
      }
    }
  }

  /** Every run is a non-empty sequence of whole quads. */
  lemma {:induction false} RunsHoldWholeQuads(subs: seq<Submission>)
    ensures WholeQuads(Runs(subs))
    decreases |subs|
  {
    if |subs| > 0 {
      var p := subs[..|subs| - 1];
      var rs := Runs(p);
      RunsHoldWholeQuads(p);
      ExtendKeepsWholeQuads(rs, subs[|subs| - 1]);
    }
  }

  lemma FlattenAppend(calls: seq<DrawCall>, c: DrawCall)
    ensures Flatten(calls + [c]) == Flatten(calls) + c.vertices
  {
    assert (calls + [c])[..|calls|] == calls;
  }

  lemma FlattenExtend(calls: seq<DrawCall>, s: Submission)
    ensures Flatten(Extend(calls, s)) == Flatten(calls) + VerticesOf(s)
  {
    if |calls| > 0 && calls[|calls| - 1].texture == s.texture {
      var k := |calls| - 1;
      assert calls == calls[..k] + [calls[k]];
      FlattenAppend(calls[..k], calls[k]);
      FlattenAppend(calls[..k], DrawCall(s.texture, calls[k].vertices + VerticesOf(s)));
    } else {
      FlattenAppend(calls, DrawCall(s.texture, VerticesOf(s)));
    }
  }

  /** The draw calls carry every submitted vertex once, in submission order. */
  lemma {:induction false} RunsKeepOrder(subs: seq<Submission>)
    ensures Flatten(Runs(subs)) == AllVertices(subs)
    decreases |subs|
  {
    if |subs| > 0 {
      var p := subs[..|subs| - 1];
      RunsKeepOrder(p);
      FlattenExtend(Runs(p), subs[|subs| - 1]);
    }
  }

  /** The number of draw calls is one more than the number of texture changes. */
  lemma {:induction false} RunsCount(subs: seq<Submission>)
    requires |subs| > 0
    ensures |Runs(subs)| == Boundaries(subs) + 1
    decreases |subs|
  {
    if |subs| > 1 {
      var p := subs[..|subs| - 1];
      RunsCount(p);
      assert p[|p| - 1] == subs[|subs| - 2];
    }
  }

  /** Quads that all use one texture are drawn by a single call. */
  lemma {:induction false} OneTextureOneRun(subs: seq<Submission>, t: nat)
    requires |subs| > 0
    requires forall k :: 0 <= k < |subs| ==> subs[k].texture == t
    ensures Runs(subs) == [DrawCall(t, AllVertices(subs))]
    decreases |subs|
  {
    var p := subs[..|subs| - 1];
    if |p| > 0 {
      OneTextureOneRun(p, t);
    } else {
      assert p == [];
      assert AllVertices(subs) == VerticesOf(subs[0]);
    }
  }
}
