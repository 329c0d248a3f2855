/** Render_Engine_RenderFrame: clear the framebuffer, sort a working copy of the
    world's triangles farthest first, then for each triangle cull, project,
    classify and paint.

    Two steps are inputs of the model rather than parts of it: the projection
    pointToScreen (trigonometry on the camera angles) and the pixel walk of the
    two-aligned and general shapes (slope arithmetic). A `View` carries both as
    functions, together with the camera location and the heading vector that the
    source derives from the camera rotation. Every pixel either walk produces still
    goes through paintPixelf, so everything proved here about bounds, culling and
    paint order holds whatever they compute. */
module Render {
  import opened Types
  import opened Framebuffers
  import opened Geometry
  import opened DepthSort
  import opened Classify

  /** world_t: a background colour and the triangles; read-only to the renderer. */
  class World {
    const backgroundColor: Byte
    const triangles: array<Triangle>

    constructor (bg: Byte, ts: array<Triangle>)
      ensures backgroundColor == bg && triangles == ts
    {
      backgroundColor, triangles := bg, ts;
    }
  }

  /** What one frame's rendering depends on besides the triangles. */
  datatype View = View(
    location: Vector3,                                 // camera->location
    direction: Vector3,                                // cameraDirection
    project: Vector3 -> Point2,                       // pointToScreen for this frame
    rasterize: (Point2, Point2, Point2) -> seq<Point2>, // paintPixelf points of the other two shapes
    width: nat)                                        // frame->width

  /** The points of one column at x, in loop order. */
  function ColumnPixels(x: real, ys: seq<real>): (ps: seq<Point2>)
    ensures |ps| == |ys|
    ensures forall k :: 0 <= k < |ys| ==> ps[k] == Point2(x, ys[k])
  {
    if ys == [] then [] else [Point2(x, ys[0])] + ColumnPixels(x, ys[1..])
  }

  /** The points, in order, that the scan converter passes to paintPixelf for `t`. */
  function TrianglePixels(t: Triangle, v: View): seq<Point2> {
    if Culled(t, v.location, v.direction) then []
    else
      var p1 := v.project(Delta(t.p1, v.location));
      var p2 := v.project(Delta(t.p2, v.location));
      var p3 := v.project(Delta(t.p3, v.location));
      var s := Reference(p1, p2, p3);
      var left, center, right := Vertex(p1, p2, p3, s.left), Vertex(p1, p2, p3, s.center), Vertex(p1, p2, p3, s.right);
      if ShapeOf(left, center, right) == Column then
        if center.x < 0.0 || center.x >= v.width as real then []
        else ColumnPixels(center.x, ColumnYs(Max3(p1.y, p2.y, p3.y), Min3(p1.y, p2.y, p3.y)))
      else
        v.rasterize(left, center, right)
  }

  /** Every point of `t` can go through paintPixelf's casts. */
  predicate SafeToPaint(t: Triangle, v: View) {
    forall m :: 0 <= m < |TrianglePixels(t, v)| ==> CastSafe(TrianglePixels(t, v)[m])
  }

  /** The buffer after painting the triangles of `ts` in order. */
  function PaintTriangles(s: seq<Byte>, h: nat, ts: seq<Triangle>, v: View): (r: seq<Byte>)
    requires |s| == v.width * h
    ensures |r| == |s|
    decreases |ts|
  {
    if ts == [] then s
    else PaintTriangles(PaintSeq(s, v.width, h, TrianglePixels(ts[0], v), ts[0].color), h, ts[1..], v)
  }

  predicate CoveredBy(t: Triangle, v: View, px: nat, py: nat) {
    Covers(TrianglePixels(t, v), px, py)
  }

  /** The last triangle of `ts` that covers pixel (px, py), or -1. */
  function LastCover(ts: seq<Triangle>, v: View, px: nat, py: nat): (j: int)
    ensures -1 <= j < |ts|
    ensures j >= 0 ==> CoveredBy(ts[j], v, px, py)
    ensures forall k :: j < k < |ts| ==> !CoveredBy(ts[k], v, px, py)
    decreases |ts|
  {
    if ts == [] then -1
    else if CoveredBy(ts[|ts| - 1], v, px, py) then |ts| - 1
    else
      var init := ts[..|ts| - 1];
      assert forall k :: 0 <= k < |init| ==> init[k] == ts[k];
      LastCover(init, v, px, py)
  }

  /** Painting overwrites: a pixel ends up in the colour of the last triangle that
      covers it, and keeps its colour when none does. */
  lemma {:induction false} PaintTrianglesPixel(s: seq<Byte>, h: nat, ts: seq<Triangle>, v: View, px: nat, py: nat)
    requires |s| == v.width * h && InFrame(v.width, h, px, py)
    ensures var j := LastCover(ts, v, px, py);
      PixelAt(PaintTriangles(s, h, ts, v), v.width, h, px, py) ==
        if j >= 0 then ts[j].color else PixelAt(s, v.width, h, px, py)
    decreases |ts|
  {
    if ts != [] {
      var s' := PaintSeq(s, v.width, h, TrianglePixels(ts[0], v), ts[0].color);
      PaintTrianglesPixel(s', h, ts[1..], v, px, py);
      PaintTrianglesStep(s, h, ts, v, px, py, s');
    }
  }

  /** The induction step of PaintTrianglesPixel: the first triangle paints the pixel
      if it covers it, and the rest of the list then paints over that. */
  lemma PaintTrianglesStep(s: seq<Byte>, h: nat, ts: seq<Triangle>, v: View, px: nat, py: nat, s': seq<Byte>)
    requires |s| == v.width * h && InFrame(v.width, h, px, py) && ts != []
    requires s' == PaintSeq(s, v.width, h, TrianglePixels(ts[0], v), ts[0].color)
    requires var j' := LastCover(ts[1..], v, px, py);
      PixelAt(PaintTriangles(s', h, ts[1..], v), v.width, h, px, py) ==
        if j' >= 0 then ts[1..][j'].color else PixelAt(s', v.width, h, px, py)
    ensures var j := LastCover(ts, v, px, py);
      PixelAt(PaintTriangles(s, h, ts, v), v.width, h, px, py) ==
        if j >= 0 then ts[j].color else PixelAt(s, v.width, h, px, py)
  {
    var pts := TrianglePixels(ts[0], v);
    assert PaintTriangles(s, h, ts, v) == PaintTriangles(s', h, ts[1..], v);
    var p := PixelAt(PaintTriangles(s', h, ts[1..], v), v.width, h, px, py);
    PaintSeqPixel(s, v.width, h, pts, ts[0].color, px, py);
    LastCoverOfTail(ts, v, px, py);
    var j, j' := LastCover(ts, v, px, py), LastCover(ts[1..], v, px, py);
    if j' >= 0 {
      assert p == ts[1..][j'].color;
      assert j == j' + 1 && ts[1..][j'] == ts[j];
    } else {
      assert p == PixelAt(s', v.width, h, px, py);
    }
  }

  /** The last cover of `ts` is the last cover of its tail, shifted by one, or else
      its first triangle if that covers the pixel. */
  lemma LastCoverOfTail(ts: seq<Triangle>, v: View, px: nat, py: nat)
    requires ts != []
    ensures var j, j' := LastCover(ts, v, px, py), LastCover(ts[1..], v, px, py);
      j == if j' >= 0 then j' + 1 else if CoveredBy(ts[0], v, px, py) then 0 else -1
  {
    var j, j' := LastCover(ts, v, px, py), LastCover(ts[1..], v, px, py);
    if j' >= 0 {
      assert ts[1..][j'] == ts[j' + 1];
      forall k | j' + 1 < k < |ts| ensures !CoveredBy(ts[k], v, px, py) {
        assert ts[1..][k - 1] == ts[k];
      }
    } else {
      forall k | 0 < k < |ts| ensures !CoveredBy(ts[k], v, px, py) {
        assert ts[1..][k - 1] == ts[k];
      }
    }
  }

  /** Painter's algorithm: after a frame is rendered from any farthest-first order of
      the world's triangles, a pixel that no triangle covers shows the background,
      and a covered pixel shows the colour of a covering triangle that no other
      covering triangle is nearer than. */
  lemma PainterVisibility(s: seq<Byte>, h: nat, bg: Byte, world: seq<Triangle>, order: seq<Triangle>,
                          v: View, px: nat, py: nat)
    requires |s| == v.width * h < 0x1_0000 && InFrame(v.width, h, px, py)
    requires multiset(order) == multiset(world) && FarthestFirst(order, v.location)
    ensures var r := PixelAt(PaintTriangles(Cleared(s, bg, (v.width * h) % 0x1_0000), h, order, v), v.width, h, px, py);
      && ((forall t :: t in world ==> !CoveredBy(t, v, px, py)) ==> r == bg)
      && ((exists t :: t in world && CoveredBy(t, v, px, py)) ==>
            exists t :: t in world && CoveredBy(t, v, px, py) && r == t.color &&
              forall u :: u in world && CoveredBy(u, v, px, py) ==> Distance(u, v.location) >= Distance(t, v.location))
  {
    var c := Cleared(s, bg, (v.width * h) % 0x1_0000);
    IndexInBuffer(v.width, h, px, py);
    CellIsPixel(v.width, h, PixelIndex(v.width, px, py));
    assert PixelAt(c, v.width, h, px, py) == bg;
    PaintTrianglesPixel(c, h, order, v, px, py);
    var j := LastCover(order, v, px, py);
    SameMembers(world, order);
    if j >= 0 {
      FarthestFirstByDistance(order, v.location);
      LastCoverIsNearest(order, v, px, py);
    } else {
      forall t | t in order ensures !CoveredBy(t, v, px, py) {
        var m :| 0 <= m < |order| && order[m] == t;
      }
    }
  }

  lemma SameMembers(a: seq<Triangle>, b: seq<Triangle>)
    requires multiset(a) == multiset(b)
    ensures forall t :: t in a <==> t in b
  {
    forall t | t in a ensures t in b {
      assert t in multiset(a);
    }
    forall t | t in b ensures t in a {
      assert t in multiset(b);
    }
  }

  /** In a farthest-first order, the last triangle covering a pixel is one of the
      nearest triangles covering it. */
  lemma LastCoverIsNearest(order: seq<Triangle>, v: View, px: nat, py: nat)
    requires DistanceSorted(order, v.location) && LastCover(order, v, px, py) >= 0
    ensures forall u :: u in order && CoveredBy(u, v, px, py) ==>
      Distance(u, v.location) >= Distance(order[LastCover(order, v, px, py)], v.location)
  {
    var j := LastCover(order, v, px, py);
    forall u | u in order && CoveredBy(u, v, px, py) ensures Distance(u, v.location) >= Distance(order[j], v.location) {
      var m :| 0 <= m < |order| && order[m] == u;
      assert m <= j;
    }
  }

  /** A culled triangle covers no pixel; so when every triangle of the world is
      behind the camera the whole frame shows the background colour. */
  lemma AllCulledShowsBackground(s: seq<Byte>, h: nat, bg: Byte, world: seq<Triangle>, order: seq<Triangle>, v: View)
    requires |s| == v.width * h < 0x1_0000
    requires multiset(order) == multiset(world) && FarthestFirst(order, v.location)
    requires forall t :: t in world ==> Culled(t, v.location, v.direction)
    ensures forall i :: 0 <= i < |s| ==>
      PaintTriangles(Cleared(s, bg, (v.width * h) % 0x1_0000), h, order, v)[i] == bg
  {
    forall i | 0 <= i < |s|
      ensures PaintTriangles(Cleared(s, bg, (v.width * h) % 0x1_0000), h, order, v)[i] == bg
    {
      CellIsPixel(v.width, h, i);
      PainterVisibility(s, h, bg, world, order, v, i % v.width, i / v.width);
    }
  }

  /** The single-column shape paints one column only, at the shared x, and only rows
      between the lowest and highest vertex. */
  lemma ColumnStaysInColumn(t: Triangle, v: View, px: nat, py: nat)
    requires !Culled(t, v.location, v.direction)
    requires var p1, p2, p3 := v.project(Delta(t.p1, v.location)), v.project(Delta(t.p2, v.location)), v.project(Delta(t.p3, v.location));
      p1.x == p2.x == p3.x
    requires CoveredBy(t, v, px, py)
    ensures var p1, p2, p3 := v.project(Delta(t.p1, v.location)), v.project(Delta(t.p2, v.location)), v.project(Delta(t.p3, v.location));
      && px == p1.x.Floor
      && Min3(p1.y, p2.y, p3.y).Floor <= py <= Max3(p1.y, p2.y, p3.y).Floor
  {
    var p1, p2, p3 := v.project(Delta(t.p1, v.location)), v.project(Delta(t.p2, v.location)), v.project(Delta(t.p3, v.location));
    ShapeOfSelection(p1, p2, p3);
    var top, bottom := Max3(p1.y, p2.y, p3.y), Min3(p1.y, p2.y, p3.y);
    ColumnYsExact(top, bottom);
    var pts := TrianglePixels(t, v);
    var k :| 0 <= k < |pts| && Lands(pts[k], px, py);
    var ys := ColumnYs(top, bottom);
    assert pts == ColumnPixels(p1.x, ys);
    assert pts[k] == Point2(p1.x, ys[k]);
    assert bottom < ys[k] <= top;
  }

  /** The column branch of render_engine.c:147-165: the loop from max down to min. */
  method PaintColumn(frame: Framebuffer, x: real, top: real, bottom: real, color: Byte)
    requires frame.Valid()
    requires forall k :: 0 <= k < |ColumnYs(top, bottom)| ==> CastSafe(Point2(x, ColumnYs(top, bottom)[k]))
    modifies frame.buffer
    ensures frame.buffer[..] ==
      PaintSeq(old(frame.buffer[..]), frame.width, frame.height, ColumnPixels(x, ColumnYs(top, bottom)), color)
  {
    var y := top;
    while y > bottom
      invariant forall k :: 0 <= k < |ColumnYs(y, bottom)| ==> CastSafe(Point2(x, ColumnYs(y, bottom)[k]))
      invariant PaintSeq(frame.buffer[..], frame.width, frame.height, ColumnPixels(x, ColumnYs(y, bottom)), color) ==
        PaintSeq(old(frame.buffer[..]), frame.width, frame.height, ColumnPixels(x, ColumnYs(top, bottom)), color)
      decreases (y - bottom).Floor
    {
      ghost var ys := ColumnYs(y, bottom);
      assert ys == [y] + ColumnYs(y - 1.0, bottom);
      assert CastSafe(Point2(x, ys[0]));
      assert ColumnPixels(x, ys) == [Point2(x, y)] + ColumnPixels(x, ColumnYs(y - 1.0, bottom));
      frame.PaintPixelf(x, y, color);
      y := y - 1.0;
    }
  }

  /** The paintPixelf calls of the two-aligned and general shapes (render_engine.c:166-326),
      in the order the walk produces them. */
  method PaintPoints(frame: Framebuffer, pts: seq<Point2>, color: Byte)
    requires frame.Valid()
    requires forall k :: 0 <= k < |pts| ==> CastSafe(pts[k])
    modifies frame.buffer
    ensures frame.buffer[..] == PaintSeq(old(frame.buffer[..]), frame.width, frame.height, pts, color)
  {
    var i := 0;
    while i < |pts|
      invariant 0 <= i <= |pts|
      invariant PaintSeq(frame.buffer[..], frame.width, frame.height, pts[i..], color) ==
        PaintSeq(old(frame.buffer[..]), frame.width, frame.height, pts, color)
    {
      assert pts[i..][1..] == pts[i + 1..];
      frame.PaintPixelf(pts[i].x, pts[i].y, color);
      i := i + 1;
    }
  }

  /** The highest and lowest vertex rows of the column shape (render_engine.c:147-158). */
  method ColumnSpan(p1: Point2, p2: Point2, p3: Point2) returns (max: real, min: real)
    ensures max == Max3(p1.y, p2.y, p3.y) && min == Min3(p1.y, p2.y, p3.y)
  {
    max := p1.y;
    if max < p2.y {
      max := p2.y;
    }
    if max < p3.y {
      max := p3.y;
    }
    min := p1.y;
    if min > p2.y {
      min := p2.y;
    }
    if min > p3.y {
      min := p3.y;
    }
  }

  /** One iteration of the triangle loop of Render_Engine_RenderFrame (render_engine.c:74-326). */
  method RenderTriangle(frame: Framebuffer, t: Triangle, v: View)
    requires frame.Valid() && frame.width == v.width
    requires SafeToPaint(t, v)
    modifies frame.buffer
    ensures frame.buffer[..] == PaintSeq(old(frame.buffer[..]), frame.width, frame.height, TrianglePixels(t, v), t.color)
  {
    var p1Delta := Delta(t.p1, v.location);
    var p2Delta := Delta(t.p2, v.location);
    var p3Delta := Delta(t.p3, v.location);
    if Dot(p1Delta, v.direction) <= 0.0 && Dot(p2Delta, v.direction) <= 0.0 && Dot(p3Delta, v.direction) <= 0.0 {
      return;
    }

    var p1 := v.project(p1Delta);
    var p2 := v.project(p2Delta);
    var p3 := v.project(p3Delta);

    var left, leftSel, right, rightSel, center := SelectVertices(p1, p2, p3);

    if left.x == center.x && center.x == right.x {
      if center.x < 0.0 || center.x >= frame.width as real {
        return;
      }
      var max, min := ColumnSpan(p1, p2, p3);
      ghost var pts := ColumnPixels(center.x, ColumnYs(max, min));
      assert TrianglePixels(t, v) == pts;
      assert forall k :: 0 <= k < |pts| ==> pts[k] == Point2(center.x, ColumnYs(max, min)[k]);
      PaintColumn(frame, center.x, max, min, t.color);
    } else {
      assert TrianglePixels(t, v) == v.rasterize(left, center, right);
      PaintPoints(frame, v.rasterize(left, center, right), t.color);
    }
  }

  /** Render_Engine_RenderFrame. `order` is the order qsort left the working copy
      in: any farthest-first permutation of the world's triangles. */
  method RenderFrame(world: World, v: View, frame: Framebuffer) returns (ghost order: seq<Triangle>)
    requires frame.Valid() && frame.width == v.width
    requires world.triangles.Length < 0x1_0000
    requires forall t :: t in world.triangles[..] ==> SafeToPaint(t, v)
    modifies frame.buffer
    ensures world.triangles[..] == old(world.triangles[..])
    ensures multiset(order) == multiset(world.triangles[..]) && FarthestFirst(order, v.location)
    ensures frame.buffer[..] ==
      PaintTriangles(Cleared(old(frame.buffer[..]), world.backgroundColor, (frame.width * frame.height) % 0x1_0000),
                     frame.height, order, v)
  {
    frame.Clear(world.backgroundColor);
    ghost var cleared := frame.buffer[..];

    var triangles := CopyTriangles(world.triangles);
    SortByDepth(triangles, v.location);
    order := triangles[..];

    var i: U16 := 0;
    while i < triangles.Length
      invariant 0 <= i <= triangles.Length == |order|
      invariant triangles[..] == order
      invariant PaintTriangles(frame.buffer[..], frame.height, order[i..], v) ==
        PaintTriangles(cleared, frame.height, order, v)
      modifies frame.buffer
    {
      assert triangles[i] in multiset(world.triangles[..]);
      assert order[i..][1..] == order[i + 1..];
      RenderTriangle(frame, triangles[i], v);
      i := i + 1;
    }
  }
}
