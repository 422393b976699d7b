/**
 * Snap targets of the packer (src/components/masonry/index.ts): the nearest
 * target `shift` moves a dragged item to, the deduplicated target list
 * `updateShiftTargetPoints` builds, the grid of `updateShiftTargetsWithGrid`,
 * and the JavaScript rounding functions they use.
 */
module Snapping {
  import opened Wrappers
  import opened Geometry
  import opened RectOrder

  // ---------------------------------------------------------------------
  // Math.floor, Math.ceil, Math.round

  function Floor(q: real): int {
    q.Floor
  }

  function Ceil(q: real): int {
    -((-q).Floor)
  }

  /** `Math.round`: halves round up, towards positive infinity. */
  function Round(q: real): int {
    (q + 0.5).Floor
  }

  lemma FloorCeilRoundBounds(q: real)
    ensures (Floor(q) as real) <= q < (Floor(q) as real) + 1.0
    ensures (Ceil(q) as real) - 1.0 < q <= (Ceil(q) as real)
    ensures q - 0.5 < (Round(q) as real) <= q + 0.5
  {
  }

  lemma RoundOfHalf(n: int)
    ensures Round(n as real + 0.5) == n + 1 && Round(n as real - 0.5) == n
  {
  }

  // ---------------------------------------------------------------------
  // The nearest target

  /**
   * The squared distance from a target to (x, y); `shift` compares its square
   * root, which orders targets the same way.
   */
  function SquaredDistance(p: Point, x: real, y: real): real {
    (x - p.x) * (x - p.x) + (y - p.y) * (y - p.y)
  }

  /**
   * The index of the target `shift` picks: the scan keeps a target only when
   * it is strictly nearer than the best so far, so the first of equally near
   * targets wins.
   */
  function Nearest(targets: seq<Point>, x: real, y: real): (k: nat)
    requires |targets| > 0
    ensures k < |targets|
    ensures forall m :: 0 <= m < |targets| ==>
      SquaredDistance(targets[k], x, y) <= SquaredDistance(targets[m], x, y)
    ensures forall m :: 0 <= m < k ==>
      SquaredDistance(targets[m], x, y) > SquaredDistance(targets[k], x, y)
  {
    if |targets| == 1 then 0
    else
      var init := targets[..|targets| - 1];
      var k := Nearest(init, x, y);
      assert forall m :: 0 <= m < |init| ==> init[m] == targets[m];
      if SquaredDistance(targets[|targets| - 1], x, y) < SquaredDistance(targets[k], x, y) then |targets| - 1
      else k
  }

  /** Where `shift` moves the item's corner: the nearest target, or the origin when there is none. */
  function SnapTarget(targets: seq<Point>, x: real, y: real): (p: Point)
    ensures |targets| == 0 ==> p == Point(0.0, 0.0)
    ensures |targets| > 0 ==>
      (p in targets && forall m :: 0 <= m < |targets| ==> SquaredDistance(p, x, y) <= SquaredDistance(targets[m], x, y))
  {
    if |targets| == 0 then Point(0.0, 0.0) else targets[Nearest(targets, x, y)]
  }

  // ---------------------------------------------------------------------
  // The target list of updateShiftTargetPoints

  /** `addShiftTarget` accepts a point at x = 0 or at most `bound` to the right. */
  predicate Admitted(p: Point, bound: real) {
    p.x == 0.0 || p.x <= bound
  }

  /** `addShiftTarget`: an admitted point is appended unless it is already listed. */
  function WithTarget(ps: seq<Point>, p: Point, bound: real): seq<Point> {
    if Admitted(p, bound) && p !in ps then ps + [p] else ps
  }

  /** `addShiftTarget` applied to each candidate in turn. */
  function AddAll(ps: seq<Point>, cands: seq<Point>, bound: real): seq<Point>
    decreases |cands|
  {
    if cands == [] then ps else AddAll(WithTarget(ps, cands[0], bound), cands[1..], bound)
  }

  /** Every point of `ps` is admitted. */
  ghost predicate AllAdmitted(ps: seq<Point>, bound: real) {
    forall k :: 0 <= k < |ps| ==> Admitted(ps[k], bound)
  }

  /** The position of the first occurrence of `q` in `s`. */
  function FirstIndex(s: seq<Point>, q: Point): (k: nat)
    requires q in s
    ensures k < |s| && s[k] == q && forall m :: 0 <= m < k ==> s[m] != q
  {
    if s[0] == q then 0 else 1 + FirstIndex(s[1..], q)
  }

  /**
   * The list built keeps the points it started with, in front; it lists no
   * point twice and none that is not admitted; each of its points was there
   * before or is a candidate; every admitted candidate is in it; and the
   * points added are candidates, in the order of their first occurrence among
   * the candidates.
   */
  lemma {:induction false} AddAllSpec(ps: seq<Point>, cands: seq<Point>, bound: real)
    requires NoDuplicates(ps) && AllAdmitted(ps, bound)
    ensures var out := AddAll(ps, cands, bound);
      NoDuplicates(out) && AllAdmitted(out, bound) && |ps| <= |out| && out[..|ps|] == ps
    ensures forall q :: q in AddAll(ps, cands, bound) ==> q in ps || q in cands
    ensures forall q :: q in cands && Admitted(q, bound) ==> q in AddAll(ps, cands, bound)
    ensures var out := AddAll(ps, cands, bound);
      (forall i :: |ps| <= i < |out| ==> out[i] in cands) &&
      (forall i, j :: |ps| <= i < j < |out| && out[i] in cands && out[j] in cands ==>
         FirstIndex(cands, out[i]) < FirstIndex(cands, out[j]))
    decreases |cands|
  {
    if cands != [] {
      var c := cands[0];
      var next := WithTarget(ps, c, bound);
      if Admitted(c, bound) && c !in ps {
        forall i, j | 0 <= i < j < |next| ensures next[i] != next[j] {
          if j == |ps| {
            assert next[i] == ps[i];
          } else {
            assert next[i] == ps[i] && next[j] == ps[j];
          }
        }
      }
      AddAllSpec(next, cands[1..], bound);
      var out := AddAll(next, cands[1..], bound);
      assert out[..|next|] == next;
      assert out[..|ps|] == next[..|ps|];
      AddedInOrder(ps, c, cands[1..], next, out, bound);
      forall q | q in cands && Admitted(q, bound) ensures q in out {
        if q == c {
          assert q in next;
          var m :| 0 <= m < |next| && next[m] == q;
          assert out[..|next|][m] == q;
        } else {
          assert q in cands[1..];
        }
      }
      forall q | q in out ensures q in ps || q in cands {
        if q in next && q !in ps {
          assert q == c;
        } else if q !in next {
          assert q in cands[1..];
        }
      }
    }
  }

  /**
   * The order step of `AddAllSpec`: the points added after the first
   * candidate `c` come after it, and those the rest of the candidates added
   * keep their order with their positions there shifted by one.
   */
  lemma AddedInOrder(ps: seq<Point>, c: Point, rest: seq<Point>, next: seq<Point>, out: seq<Point>, bound: real)
    requires NoDuplicates(ps) && next == WithTarget(ps, c, bound) && |next| <= |out|
    requires NoDuplicates(out) && AllAdmitted(out, bound) && out[..|next|] == next
    requires forall i :: |next| <= i < |out| ==> out[i] in rest
    requires forall i, j :: |next| <= i < j < |out| && out[i] in rest && out[j] in rest ==>
      FirstIndex(rest, out[i]) < FirstIndex(rest, out[j])
    ensures forall i :: |ps| <= i < |out| ==> out[i] in [c] + rest
    ensures forall i, j :: |ps| <= i < j < |out| && out[i] in [c] + rest && out[j] in [c] + rest ==>
      FirstIndex([c] + rest, out[i]) < FirstIndex([c] + rest, out[j])
  {
    var cands := [c] + rest;
    assert cands[1..] == rest;
    // A point the rest added is not `c`: `c` is listed already or not admitted.
    forall i | |next| <= i < |out| ensures out[i] != c && FirstIndex(cands, out[i]) == 1 + FirstIndex(rest, out[i]) {
      if Admitted(c, bound) && c !in ps {
        assert out[|ps|] == next[|ps|] == c;
      } else if c in ps {
        var m :| 0 <= m < |ps| && ps[m] == c;
        assert out[m] == next[m] == ps[m];
      } else {
        assert Admitted(out[i], bound);
      }
    }
    forall i | |ps| <= i < |out| ensures out[i] in cands {
      if i < |next| {
        assert out[i] == next[i] == c;
      }
    }
    forall i, j | |ps| <= i < j < |out| && out[i] in cands && out[j] in cands
      ensures FirstIndex(cands, out[i]) < FirstIndex(cands, out[j])
    {
      if i < |next| {
        assert out[i] == next[i] == c;
      }
    }
  }

  /** Candidates taken in two runs are taken as in one run over both. */
  lemma {:induction false} AddAllConcat(ps: seq<Point>, a: seq<Point>, b: seq<Point>, bound: real)
    ensures AddAll(ps, a + b, bound) == AddAll(AddAll(ps, a, bound), b, bound)
    decreases |a|
  {
    if a != [] {
      assert (a + b)[0] == a[0] && (a + b)[1..] == a[1..] + b;
      AddAllConcat(WithTarget(ps, a[0], bound), a[1..], b, bound);
    } else {
      assert a + b == b;
    }
  }

  lemma AddAllSnoc(ps: seq<Point>, a: seq<Point>, c: Point, bound: real)
    ensures AddAll(ps, a + [c], bound) == WithTarget(AddAll(ps, a, bound), c, bound)
  {
    AddAllConcat(ps, a, [c], bound);
    assert [c][1..] == [];
  }

  /** The targets along the top edge: one per whole segment of the width. */
  function TopRow(segs: int, segment: real): (row: seq<Point>)
    ensures |row| == (if segs < 0 then 0 else segs)
    ensures forall i :: 0 <= i < |row| ==> row[i] == Point(i as real * segment, 0.0)
  {
    seq(if segs < 0 then 0 else segs, i requires 0 <= i => Point(i as real * segment, 0.0))
  }

  /**
   * The candidates an item adds once aligned: its top-left corner, its
   * bottom-left corner, and one point per further whole segment along its
   * bottom edge.
   */
  function ItemTargets(r: Rect, segment: real): (ts: seq<Point>)
    requires segment != 0.0
    ensures |ts| == 2 + (if Round(r.width / segment) < 1 then 0 else Round(r.width / segment) - 1)
    ensures ts[0] == Point(r.x, r.y) && ts[1] == Point(r.x, r.Bottom())
    ensures forall k :: 2 <= k < |ts| ==> ts[k] == Point(r.x + segment * ((k - 1) as real), r.Bottom())
  {
    var span := Round(r.width / segment);
    [Point(r.x, r.y), Point(r.x, r.Bottom())] +
    seq(if span < 1 then 0 else span - 1, i requires 0 <= i => Point(r.x + segment * ((i + 1) as real), r.Bottom()))
  }

  /**
   * The candidates the aligned items add, in list order, skipping the item
   * standing for `skip`.
   */
  function TargetsOf(items: seq<Rect>, skip: Option<ElementId>, segment: real): seq<Point>
    requires segment != 0.0
  {
    if items == [] then []
    else
      var last := items[|items| - 1];
      TargetsOf(items[..|items| - 1], skip, segment) +
      (if skip.Some? && last.element == skip then [] else ItemTargets(last, segment))
  }

  lemma TargetsSkip(done: seq<Rect>, r: Rect, skip: Option<ElementId>, segment: real)
    requires segment != 0.0 && skip.Some? && r.element == skip
    ensures TargetsOf(done + [r], skip, segment) == TargetsOf(done, skip, segment)
  {
    assert (done + [r])[..|done|] == done;
  }

  lemma TargetsTake(done: seq<Rect>, r: Rect, skip: Option<ElementId>, segment: real)
    requires segment != 0.0 && !(skip.Some? && r.element == skip)
    ensures TargetsOf(done + [r], skip, segment) == TargetsOf(done, skip, segment) + ItemTargets(r, segment)
  {
    assert (done + [r])[..|done|] == done;
  }

  /** `boundsSize`: how far right a target may lie for an item of width `rectWidth`. */
  function BoundsSize(width: real, segment: real, rectWidth: real): real
    requires segment != 0.0
  {
    ((Floor(width / segment) - Ceil(rectWidth / segment)) as real) * segment
  }

  // ---------------------------------------------------------------------
  // The grid of updateShiftTargetsWithGrid

  /** The number of whole numbers j >= 0 with j < q. */
  function RowCount(q: real): nat {
    if q <= 0.0 then 0 else Ceil(q)
  }

  /** The loop `for (j = 0; j < q; j++)` runs exactly `RowCount(q)` times. */
  lemma RowCountCounts(q: real, j: nat)
    ensures (j as real) < q <==> j < RowCount(q)
  {
    FloorCeilRoundBounds(q);
  }

  /**
   * The number of rows of the grid: the loop `j < height / segmentHeight`; a
   * zero segment height leaves no row when the height is not positive.
   */
  function GridRows(height: real, segmentHeight: real): nat {
    if segmentHeight == 0.0 then 0 else RowCount(height / segmentHeight)
  }

  /** Row `j` of the grid: `cols` points spaced `dx` apart at height `j * dy`. */
  function GridRow(j: nat, cols: nat, dx: real, dy: real): (row: seq<Point>)
    ensures |row| == cols
    ensures forall i :: 0 <= i < cols ==> row[i] == Point(i as real * dx, j as real * dy)
  {
    seq(cols, i requires 0 <= i => Point(i as real * dx, j as real * dy))
  }

  /** The number of columns of the grid: whole segments of the width, none when negative. */
  function GridColumns(width: real, segment: real): nat
    requires segment != 0.0
  {
    var segs := Floor(width / segment);
    if segs < 0 then 0 else segs
  }

  /** The first `rows` rows of the grid, row by row. */
  function GridPoints(rows: nat, cols: nat, dx: real, dy: real): seq<Point> {
    if rows == 0 then [] else GridPoints(rows - 1, cols, dx, dy) + GridRow(rows - 1, cols, dx, dy)
  }

  /**
   * The grid holds `rows * cols` points: the point of column `i` in row `j`
   * for every `i < cols` and `j < rows`, and nothing else.
   */
  lemma {:induction false} GridPointsHold(rows: nat, cols: nat, dx: real, dy: real)
    ensures |GridPoints(rows, cols, dx, dy)| == rows * cols
    ensures forall j, i :: 0 <= j < rows && 0 <= i < cols ==> GridRow(j, cols, dx, dy)[i] in GridPoints(rows, cols, dx, dy)
    ensures forall p :: p in GridPoints(rows, cols, dx, dy) ==>
      exists j, i :: 0 <= j < rows && 0 <= i < cols && p == GridRow(j, cols, dx, dy)[i]
  {
    if rows > 0 {
      var init := GridPoints(rows - 1, cols, dx, dy);
      var last := GridRow(rows - 1, cols, dx, dy);
      GridPointsHold(rows - 1, cols, dx, dy);
      assert rows * cols == (rows - 1) * cols + cols;
      forall j, i | 0 <= j < rows && 0 <= i < cols ensures GridRow(j, cols, dx, dy)[i] in init + last {
        if j < rows - 1 {
          assert GridRow(j, cols, dx, dy)[i] in init;
        } else {
          assert last[i] in last;
        }
      }
      forall p | p in init + last ensures exists j, i :: 0 <= j < rows && 0 <= i < cols && p == GridRow(j, cols, dx, dy)[i] {
        if p in init {
          var j, i :| 0 <= j < rows - 1 && 0 <= i < cols && p == GridRow(j, cols, dx, dy)[i];
        } else {
          var i :| 0 <= i < cols && last[i] == p;
        }
      }
    }
  }

  /** The grid is row-major: the point of column `i` in row `j` is at position `j * cols + i`. */
  lemma {:induction false} GridPointsRowMajor(rows: nat, cols: nat, dx: real, dy: real)
    ensures |GridPoints(rows, cols, dx, dy)| == rows * cols
    ensures forall j, i :: 0 <= j < rows && 0 <= i < cols ==>
      j * cols + i < rows * cols && GridPoints(rows, cols, dx, dy)[j * cols + i] == GridRow(j, cols, dx, dy)[i]
  {
    if rows > 0 {
      var init := GridPoints(rows - 1, cols, dx, dy);
      var last := GridRow(rows - 1, cols, dx, dy);
      GridPointsRowMajor(rows - 1, cols, dx, dy);
      assert rows * cols == (rows - 1) * cols + cols;
      forall j, i | 0 <= j < rows && 0 <= i < cols
        ensures j * cols + i < rows * cols && (init + last)[j * cols + i] == GridRow(j, cols, dx, dy)[i]
      {
        if j < rows - 1 {
          RowMajorBound(j, rows - 1, cols, i);
          assert (init + last)[j * cols + i] == init[j * cols + i];
        } else {
          assert j * cols + i == |init| + i;
        }
      }
    }
  }

  /** Position `j * cols + i` of a row-major grid of `rows` rows lies inside it. */
  lemma RowMajorBound(j: nat, rows: nat, cols: nat, i: nat)
    requires j < rows && i < cols
    ensures j * cols + i < rows * cols
  {
    assert rows * cols == (rows - 1 - j) * cols + j * cols + cols;
  }
}
