/** Vector arithmetic of render_engine.c that involves no trigonometry: the
    camera-relative deltas, dotProduct, the rear-hemisphere cull test of
    Render_Engine_RenderFrame, and the depth comparator compareTriangles. The
    camera location that the source passes to the comparator through the static
    `compareCamera` is an explicit parameter here. */
module Geometry {
  import opened Types

  /** The position of `p` relative to the camera at `cam`. */
  function Delta(p: Vector3, cam: Vector3): Vector3 {
    Vector3(p.x - cam.x, p.y - cam.y, p.z - cam.z)
  }

  /** dotProduct. */
  function Dot(a: Vector3, b: Vector3): real {
    a.x * b.x + a.y * b.y + a.z * b.z
  }

  /** The cull test: no vertex of `t` lies strictly in front of the camera at `cam`
      looking along `dir`. */
  predicate Culled(t: Triangle, cam: Vector3, dir: Vector3) {
    && Dot(Delta(t.p1, cam), dir) <= 0.0
    && Dot(Delta(t.p2, cam), dir) <= 0.0
    && Dot(Delta(t.p3, cam), dir) <= 0.0
  }

  /** The point a*p1 + b*p2 + c*p3 of triangle `t`, for barycentric weights a, b, c. */
  function Blend(t: Triangle, a: real, b: real, c: real): Vector3 {
    Vector3(a * t.p1.x + b * t.p2.x + c * t.p3.x,
            a * t.p1.y + b * t.p2.y + c * t.p3.y,
            a * t.p1.z + b * t.p2.z + c * t.p3.z)
  }

  predicate Barycentric(a: real, b: real, c: real) {
    a >= 0.0 && b >= 0.0 && c >= 0.0 && a + b + c == 1.0
  }

  /** a*u + b*v + c*w, coordinate by coordinate. */
  function Combination(a: real, b: real, c: real, u: Vector3, v: Vector3, w: Vector3): Vector3 {
    Vector3(a * u.x + b * v.x + c * w.x, a * u.y + b * v.y + c * w.y, a * u.z + b * v.z + c * w.z)
  }

  /** Seen from the camera, a blend of the vertices is the same blend of their deltas. */
  lemma DeltaOfBlend(t: Triangle, a: real, b: real, c: real, cam: Vector3)
    requires a + b + c == 1.0
    ensures Delta(Blend(t, a, b, c), cam) == Combination(a, b, c, Delta(t.p1, cam), Delta(t.p2, cam), Delta(t.p3, cam))
  {
    assert c == 1.0 - a - b;
  }

  /** dotProduct is linear in its first argument. */
  lemma DotOfCombination(q: Vector3, a: real, b: real, c: real, u: Vector3, v: Vector3, w: Vector3, d: Vector3)
    requires q == Combination(a, b, c, u, v, w)
    ensures Dot(q, d) == a * Dot(u, d) + b * Dot(v, d) + c * Dot(w, d)
  {
  }

  lemma WeightedNonPositive(a: real, b: real, c: real, u: real, v: real, w: real)
    requires a >= 0.0 && b >= 0.0 && c >= 0.0 && u <= 0.0 && v <= 0.0 && w <= 0.0
    ensures a * u + b * v + c * w <= 0.0
  {
    assert a * u <= 0.0;
    assert b * v <= 0.0;
    assert c * w <= 0.0;
  }

  /** Weights that put all the weight on one vertex give that vertex. */
  lemma BlendAtVertices(t: Triangle)
    ensures Blend(t, 1.0, 0.0, 0.0) == t.p1
    ensures Blend(t, 0.0, 1.0, 0.0) == t.p2
    ensures Blend(t, 0.0, 0.0, 1.0) == t.p3
  {
  }

  /** A culled triangle lies wholly in the camera's rear hemisphere. */
  lemma CulledWholeTriangleBehind(t: Triangle, cam: Vector3, dir: Vector3, a: real, b: real, c: real)
    requires Culled(t, cam, dir) && Barycentric(a, b, c)
    ensures Dot(Delta(Blend(t, a, b, c), cam), dir) <= 0.0
  {
    var d1, d2, d3 := Delta(t.p1, cam), Delta(t.p2, cam), Delta(t.p3, cam);
    DeltaOfBlend(t, a, b, c, cam);
    DotOfCombination(Delta(Blend(t, a, b, c), cam), a, b, c, d1, d2, d3, dir);
    WeightedNonPositive(a, b, c, Dot(d1, dir), Dot(d2, dir), Dot(d3, dir));
  }

  /** A triangle is culled exactly when the whole triangle, not only its vertices,
      lies in the camera's rear hemisphere. */
  lemma CulledIffWholeTriangleBehind(t: Triangle, cam: Vector3, dir: Vector3)
    ensures Culled(t, cam, dir) <==>
      forall a, b, c :: Barycentric(a, b, c) ==> Dot(Delta(Blend(t, a, b, c), cam), dir) <= 0.0
  {
    if Culled(t, cam, dir) {
      forall a, b, c | Barycentric(a, b, c)
        ensures Dot(Delta(Blend(t, a, b, c), cam), dir) <= 0.0
      {
        CulledWholeTriangleBehind(t, cam, dir, a, b, c);
      }
    } else {
      assert Barycentric(1.0, 0.0, 0.0) && Barycentric(0.0, 1.0, 0.0) && Barycentric(0.0, 0.0, 1.0);
      BlendAtVertices(t);
    }
  }

  /** The centroid of `t`, the mean of its three vertices. */
  function Centroid(t: Triangle): Vector3 {
    Vector3((t.p1.x + t.p2.x + t.p3.x) / 3.0,
            (t.p1.y + t.p2.y + t.p3.y) / 3.0,
            (t.p1.z + t.p2.z + t.p3.z) / 3.0)
  }

  /** The squared distance from the camera at `cam` to the centroid of `t`. */
  function Distance(t: Triangle, cam: Vector3): (d: real)
    ensures d >= 0.0
  {
    var c := Delta(Centroid(t), cam);
    c.x * c.x + c.y * c.y + c.z * c.z
  }

  /** compareTriangles, with the camera location passed explicitly. */
  function CompareTriangles(a: Triangle, b: Triangle, cam: Vector3): (r: int)
    ensures r == 0 <==> Distance(a, cam) == Distance(b, cam)
    ensures r == 1 <==> Distance(a, cam) < Distance(b, cam)
    ensures r == -1 <==> Distance(a, cam) > Distance(b, cam)
  {
    var distA, distB := Distance(a, cam), Distance(b, cam);
    if distA == distB then 0 else if distA < distB then 1 else -1
  }

  /** The comparator is antisymmetric and its "not after" relation is transitive
      and total, so it is a proper ordering for qsort. */
  lemma CompareIsOrdering(a: Triangle, b: Triangle, c: Triangle, cam: Vector3)
    ensures CompareTriangles(a, b, cam) == -CompareTriangles(b, a, cam)
    ensures CompareTriangles(a, a, cam) == 0
    ensures CompareTriangles(a, b, cam) <= 0 || CompareTriangles(b, a, cam) <= 0
    ensures CompareTriangles(a, b, cam) <= 0 && CompareTriangles(b, c, cam) <= 0 ==>
      CompareTriangles(a, c, cam) <= 0
  {
  }
}
