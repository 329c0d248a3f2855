/** The per-frame depth sort of Render_Engine_RenderFrame: the world's triangles
    are copied and the copy is put in qsort order under compareTriangles. Only
    qsort's contract matters (a permutation in which no triangle compares after a
    later one); an insertion sort supplies one such order. */
module DepthSort {
  import opened Types
  import opened Geometry

  /** qsort's postcondition for compareTriangles: no triangle compares after a
      later one. Since compareTriangles answers 1 for "nearer", this is farthest first. */
  predicate FarthestFirst(s: seq<Triangle>, cam: Vector3) {
    forall i, j :: 0 <= i < j < |s| ==> CompareTriangles(s[i], s[j], cam) <= 0
  }

  /** Non-increasing distance from the camera. */
  predicate DistanceSorted(s: seq<Triangle>, cam: Vector3) {
    forall i, j :: 0 <= i < j < |s| ==> Distance(s[i], cam) >= Distance(s[j], cam)
  }

  /** Sorted in the comparator's order is sorted by non-increasing distance. */
  lemma FarthestFirstByDistance(s: seq<Triangle>, cam: Vector3)
    ensures FarthestFirst(s, cam) <==> DistanceSorted(s, cam)
  {
    if FarthestFirst(s, cam) {
      forall i, j | 0 <= i < j < |s| ensures Distance(s[i], cam) >= Distance(s[j], cam) {
        assert CompareTriangles(s[i], s[j], cam) <= 0;
      }
    }
  }

  /** Puts `t` in front of the first triangle that it does not compare after. */
  function Insert(t: Triangle, s: seq<Triangle>, cam: Vector3): (r: seq<Triangle>)
    ensures multiset(r) == multiset(s) + multiset{t}
    decreases |s|
  {
    if s == [] then [t]
    else if CompareTriangles(t, s[0], cam) <= 0 then [t] + s
    else
      assert s == [s[0]] + s[1..];
      [s[0]] + Insert(t, s[1..], cam)
  }

  lemma {:induction false} InsertSorted(t: Triangle, s: seq<Triangle>, cam: Vector3)
    requires DistanceSorted(s, cam)
    ensures DistanceSorted(Insert(t, s, cam), cam)
    decreases |s|
  {
    if s != [] && CompareTriangles(t, s[0], cam) > 0 {
      var rest := Insert(t, s[1..], cam);
      InsertSorted(t, s[1..], cam);
      InsertWithin(t, s[1..], cam, Distance(s[0], cam));
      var r := [s[0]] + rest;
      forall i, j | 0 <= i < j < |r| ensures Distance(r[i], cam) >= Distance(r[j], cam) {
        if i > 0 {
          assert r[i] == rest[i - 1] && r[j] == rest[j - 1];
        } else {
          assert r[j] == rest[j - 1];
        }
      }
    }
  }

  /** Inserting keeps every triangle within a distance bound that `t` and `s` keep. */
  lemma {:induction false} InsertWithin(t: Triangle, s: seq<Triangle>, cam: Vector3, bound: real)
    requires Distance(t, cam) <= bound
    requires forall k :: 0 <= k < |s| ==> Distance(s[k], cam) <= bound
    ensures forall k :: 0 <= k < |Insert(t, s, cam)| ==> Distance(Insert(t, s, cam)[k], cam) <= bound
    decreases |s|
  {
    if s != [] && CompareTriangles(t, s[0], cam) > 0 {
      InsertWithin(t, s[1..], cam, bound);
    }
  }

  /** A farthest-first permutation of `ts`: the order qsort leaves the working copy in. */
  function SortedByDepth(ts: seq<Triangle>, cam: Vector3): (r: seq<Triangle>)
    ensures multiset(r) == multiset(ts)
    ensures |r| == |ts|
    decreases |ts|
  {
    if ts == [] then []
    else
      assert ts == [ts[0]] + ts[1..];
      Insert(ts[0], SortedByDepth(ts[1..], cam), cam)
  }

  /** The sort orders the triangles as qsort promises: farthest first. */
  lemma {:induction false} SortedByDepthIsFarthestFirst(ts: seq<Triangle>, cam: Vector3)
    ensures FarthestFirst(SortedByDepth(ts, cam), cam)
    ensures DistanceSorted(SortedByDepth(ts, cam), cam)
    decreases |ts|
  {
    if ts != [] {
      SortedByDepthIsFarthestFirst(ts[1..], cam);
      InsertSorted(ts[0], SortedByDepth(ts[1..], cam), cam);
    }
    FarthestFirstByDistance(SortedByDepth(ts, cam), cam);
  }

  /** The working copy of the triangles (render_engine.c:56-62): a fresh array, so
      the world's own array is never reordered. */
  method CopyTriangles(src: array<Triangle>) returns (dst: array<Triangle>)
    requires src.Length < 0x1_0000
    ensures fresh(dst) && dst[..] == src[..]
  {
    dst := new Triangle[src.Length];
    var i: U16 := 0;
    while i < src.Length
      invariant i <= src.Length
      invariant forall k :: 0 <= k < i ==> dst[k] == src[k]
    {
      dst[i] := src[i];
      i := i + 1;
    }
  }

  /** qsort(triangles, numTriangles, sizeof(triangle_t), compareTriangles). */
  method SortByDepth(a: array<Triangle>, cam: Vector3)
    modifies a
    ensures multiset(a[..]) == multiset(old(a[..]))
    ensures FarthestFirst(a[..], cam)
  {
    var s := SortedByDepth(a[..], cam);
    SortedByDepthIsFarthestFirst(a[..], cam);
    forall i | 0 <= i < a.Length {
      a[i] := s[i];
    }
    assert a[..] == s;
  }
}
