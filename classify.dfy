/** The discrete steps of the scan converter in Render_Engine_RenderFrame: which
    projected vertex is `left`, `right` and `center`, which of the three shapes
    the triangle has, and the rows of the degenerate single-column shape. Screen
    coordinates are compared only, so they are modelled as reals. */
module Classify {
  import opened Types

  /** Vertex number `k` (1, 2 or 3) of a projected triangle. */
  function Vertex(p1: Point2, p2: Point2, p3: Point2, k: int): Point2
    requires 1 <= k <= 3
  {
    if k == 1 then p1 else if k == 2 then p2 else p3
  }

  /** The vertex numbers chosen as left, center and right. */
  datatype Selection = Selection(left: int, center: int, right: int)

  /** The classification stated directly: `left` is the earliest vertex of least x;
      `right` is, of the other two, the one of greater x, the later one on a tie;
      `center` is the vertex left over. */
  function Reference(p1: Point2, p2: Point2, p3: Point2): (s: Selection)
    ensures 1 <= s.left <= 3 && 1 <= s.center <= 3 && 1 <= s.right <= 3
    ensures {s.left, s.center, s.right} == {1, 2, 3}
    ensures Vertex(p1, p2, p3, s.left).x <= Vertex(p1, p2, p3, s.center).x <= Vertex(p1, p2, p3, s.right).x
    ensures forall k :: 1 <= k <= 3 ==> Vertex(p1, p2, p3, s.left).x <= Vertex(p1, p2, p3, k).x
    ensures forall k :: 1 <= k < s.left ==> Vertex(p1, p2, p3, s.left).x < Vertex(p1, p2, p3, k).x
    ensures forall k :: 1 <= k <= 3 ==> Vertex(p1, p2, p3, k).x <= Vertex(p1, p2, p3, s.right).x
    ensures forall k :: s.right < k <= 3 && k != s.left ==>
      Vertex(p1, p2, p3, k).x < Vertex(p1, p2, p3, s.right).x
  {
    var l := if p1.x <= p2.x && p1.x <= p3.x then 1 else if p2.x <= p3.x then 2 else 3;
    var a := if l == 1 then 2 else 1;
    var b := if l == 3 then 2 else 3;
    var r := if Vertex(p1, p2, p3, a).x > Vertex(p1, p2, p3, b).x then a else b;
    Selection(l, if r == a then b else a, r)
  }

  /** The selection steps of render_engine.c:106-137: two strict comparisons pick
      `left`, two guarded comparisons pick `right`, and the sum of the two vertex
      numbers (3, 4 or 5) names `center`. */
  method SelectVertices(p1: Point2, p2: Point2, p3: Point2)
    returns (left: Point2, leftSel: int, right: Point2, rightSel: int, center: Point2)
    ensures var s := Reference(p1, p2, p3);
      && leftSel == s.left && rightSel == s.right
      && left == Vertex(p1, p2, p3, s.left)
      && center == Vertex(p1, p2, p3, s.center)
      && right == Vertex(p1, p2, p3, s.right)
  {
    left := p1;
    leftSel := 1;
    if left.x > p2.x {
      left := p2;
      leftSel := 2;
    }
    if left.x > p3.x {
      left := p3;
      leftSel := 3;
    }

    right := p3;
    rightSel := 3;
    if (right.x < p2.x || leftSel == 3) && leftSel != 2 {
      right := p2;
      rightSel := 2;
    }
    if right.x < p1.x && leftSel != 1 {
      right := p1;
      rightSel := 1;
    }

    if leftSel + rightSel == 3 {
      center := p3;
    } else if leftSel + rightSel == 4 {
      center := p2;
    } else {
      assert leftSel + rightSel == 5;
      center := p1;
    }
  }

  /** The three shapes the scan converter distinguishes (render_engine.c:140, 166, 249). */
  datatype Shape = Column | TwoAligned | General

  function ShapeOf(left: Point2, center: Point2, right: Point2): Shape {
    if left.x == center.x && center.x == right.x then Column
    else if left.x == center.x || center.x == right.x then TwoAligned
    else General
  }

  /** After classification, the shape is Column exactly when all three vertices
      share one x, and General exactly when all three x values differ. */
  lemma ShapeOfSelection(p1: Point2, p2: Point2, p3: Point2)
    ensures var s := Reference(p1, p2, p3);
      var sh := ShapeOf(Vertex(p1, p2, p3, s.left), Vertex(p1, p2, p3, s.center), Vertex(p1, p2, p3, s.right));
      && (sh == Column <==> p1.x == p2.x == p3.x)
      && (sh == General <==> p1.x != p2.x && p2.x != p3.x && p1.x != p3.x)
  {
    var s := Reference(p1, p2, p3);
    assert {s.left, s.center, s.right} == {1, 2, 3};
  }

  /** The largest of three values, as the column branch computes `max`. */
  function Max3(a: real, b: real, c: real): (m: real)
    ensures m >= a && m >= b && m >= c
    ensures m == a || m == b || m == c
  {
    if a >= b && a >= c then a else if b >= c then b else c
  }

  /** The smallest of three values, as the column branch computes `min`. */
  function Min3(a: real, b: real, c: real): (m: real)
    ensures m <= a && m <= b && m <= c
    ensures m == a || m == b || m == c
  {
    if a <= b && a <= c then a else if b <= c then b else c
  }

  /** The y values visited by `for (y = max; y > min; y--)`. */
  function ColumnYs(top: real, bottom: real): (ys: seq<real>)
    decreases (top - bottom).Floor
  {
    if top > bottom then
      assert (top - 1.0 - bottom).Floor == (top - bottom).Floor - 1;
      [top] + ColumnYs(top - 1.0, bottom)
    else
      []
  }

  /** The loop visits top, top-1, top-2, ... strictly above `bottom`, and stops at
      the first step that is not. */
  lemma {:induction false} ColumnYsExact(top: real, bottom: real)
    ensures var ys := ColumnYs(top, bottom);
      && (forall k :: 0 <= k < |ys| ==> ys[k] == top - k as real && ys[k] > bottom)
      && top - |ys| as real <= bottom
    decreases (top - bottom).Floor
  {
    if top > bottom {
      assert (top - 1.0 - bottom).Floor == (top - bottom).Floor - 1;
      ColumnYsExact(top - 1.0, bottom);
      var ys := ColumnYs(top, bottom);
      var rest := ColumnYs(top - 1.0, bottom);
      assert ys == [top] + rest;
      forall k | 0 <= k < |ys| ensures ys[k] == top - k as real && ys[k] > bottom {
        if k > 0 {
          assert ys[k] == rest[k - 1];
        }
      }
    }
  }

  /** For whole-numbered ends the loop visits exactly top - bottom values, so the
      rows painted are bottom+1 .. top and row `bottom` itself is not painted. */
  lemma ColumnSkipsBottomRow(top: int, bottom: int)
    requires bottom <= top
    ensures var ys := ColumnYs(top as real, bottom as real);
      && |ys| == top - bottom
      && forall k :: 0 <= k < |ys| ==> ys[k].Floor == top - k
  {
    ColumnYsExact(top as real, bottom as real);
    var ys := ColumnYs(top as real, bottom as real);
    if |ys| > 0 {
      assert ys[|ys| - 1] == (top - (|ys| - 1)) as real > bottom as real;
    }
  }
}
