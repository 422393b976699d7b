/**
 * The rectangle value of the masonry packer (class `Rect` of
 * src/components/masonry/index.ts). Coordinates are exact reals.
 */
module Geometry {
  import opened Wrappers

  /** Opaque identity of the page element an item stands for. */
  type ElementId = nat

  datatype Point = Point(x: real, y: real)

  /**
   * An axis-aligned rectangle. `element` is the item it stands for; free
   * regions and copies carry none.
   */
  datatype Rect = Rect(x: real, y: real, width: real, height: real, element: Option<ElementId>) {

    function Top(): real { y }
    function Left(): real { x }
    function Right(): real { x + width }
    function Bottom(): real { y + height }

    /** Inclusive containment of `other`, which may be a zero-size point. */
    predicate Contains(other: Rect) {
      x <= other.x && y <= other.y &&
      x + width >= other.x + other.width &&
      y + height >= other.y + other.height
    }

    /** The point (px, py) lies in this rectangle or on its boundary. */
    predicate ContainsPoint(px: real, py: real) {
      Contains(Rect(px, py, 0.0, 0.0, None))
    }

    /** Strict overlap: rectangles that only share an edge do not overlap. */
    predicate Overlaps(other: Rect) {
      x < other.Right() && Right() > other.x &&
      y < other.Bottom() && Bottom() > other.y
    }

    /**
     * Guillotine split of this free region around `placed`: the parts above,
     * right of, below and left of it, each kept only when it is non-empty on
     * its split axis.
     */
    function GetMaximalFreeRects(placed: Rect): (pieces: seq<Rect>)
      ensures |pieces| <= 4
      ensures !Overlaps(placed) ==> pieces == [this]
      ensures forall k :: 0 <= k < |pieces| ==> Contains(pieces[k]) && !pieces[k].Overlaps(placed)
      ensures Overlaps(placed) ==>
        forall k :: 0 <= k < |pieces| ==>
          pieces[k].element == None &&
          ((pieces[k].width == width && pieces[k].height > 0.0) ||
           (pieces[k].height == height && pieces[k].width > 0.0))
      ensures width > 0.0 && height > 0.0 ==>
        forall k :: 0 <= k < |pieces| ==> pieces[k].width > 0.0 && pieces[k].height > 0.0
    {
      if !Overlaps(placed) then [this]
      else
        var thisRight := x + width;
        var thisBottom := y + height;
        var rectRight := placed.x + placed.width;
        var rectBottom := placed.y + placed.height;
        var top := if y < placed.y then [Rect(x, y, width, placed.y - y, None)] else [];
        var right := if thisRight > rectRight then [Rect(rectRight, y, thisRight - rectRight, height, None)] else [];
        var bottom := if thisBottom > rectBottom then [Rect(x, rectBottom, width, thisBottom - rectBottom, None)] else [];
        var left := if x < placed.x then [Rect(x, y, placed.x - x, height, None)] else [];
        top + right + bottom + left
    }

    /** Moves the rectangle by (dx, dy). */
    function Translate(dx: real, dy: real): (r: Rect)
      ensures r.width == width && r.height == height && r.element == element
      ensures r.x - x == dx && r.y - y == dy
    {
      this.(x := x + dx, y := y + dy)
    }

    /** Moves the rectangle's top-left corner to (nx, ny). */
    function Location(nx: real, ny: real): (r: Rect)
      ensures r.width == width && r.height == height && r.element == element
      ensures r.x == nx && r.y == ny
    {
      this.(x := nx, y := ny)
    }

    /** Position-independent capacity test. */
    predicate CanFit(other: Rect) {
      width >= other.width && height >= other.height
    }

    /** The smallest rectangle enclosing both; it stands for no element. */
    function Merge(other: Rect): (r: Rect)
      ensures r.Contains(this) && r.Contains(other) && r.element == None
    {
      var minX := if other.x <= x then other.x else x;
      var minY := if other.y <= y then other.y else y;
      var maxRight := if Right() >= other.Right() then Right() else other.Right();
      var maxBottom := if Bottom() >= other.Bottom() then Bottom() else other.Bottom();
      Rect(minX, minY, maxRight - minX, maxBottom - minY, None)
    }

    /** A copy with the same geometry and no element. */
    function Clone(): (r: Rect)
      ensures r.element == None
      ensures Contains(r) && r.Contains(this)
    {
      Rect(x, y, width, height, None)
    }
  }

  /** A rectangle of the given geometry standing for no element. */
  function NewRect(x: real, y: real, width: real, height: real): Rect {
    Rect(x, y, width, height, None)
  }

  // ---------------------------------------------------------------------
  // Containment and overlap

  lemma ContainsPointIsInclusive(r: Rect, px: real, py: real)
    ensures r.ContainsPoint(px, py) <==>
      r.Left() <= px <= r.Right() && r.Top() <= py <= r.Bottom()
  {
  }

  lemma ContainsIsPreorder(a: Rect, b: Rect, c: Rect)
    ensures a.Contains(a)
    ensures a.Contains(b) && b.Contains(c) ==> a.Contains(c)
  {
  }

  /** Containment is a statement about the covered points. */
  lemma ContainsCoversPoints(a: Rect, b: Rect, px: real, py: real)
    requires a.Contains(b) && b.ContainsPoint(px, py)
    ensures a.ContainsPoint(px, py)
  {
  }

  lemma OverlapsIsSymmetric(a: Rect, b: Rect)
    ensures a.Overlaps(b) <==> b.Overlaps(a)
  {
  }

  /** Rectangles that only share a vertical or horizontal edge do not overlap. */
  lemma SharedEdgeIsNoOverlap(a: Rect, b: Rect)
    requires a.Right() == b.Left() || b.Right() == a.Left() || a.Bottom() == b.Top() || b.Bottom() == a.Top()
    ensures !a.Overlaps(b) && !b.Overlaps(a)
  {
  }

  /** A rectangle inside one that misses `c` misses `c` too. */
  lemma ContainedMisses(outer: Rect, inner: Rect, c: Rect)
    requires outer.Contains(inner) && !outer.Overlaps(c)
    ensures !inner.Overlaps(c)
  {
  }

  /** A rectangle placed at the top-left of a region it fits lies inside the region. */
  lemma FitAtCornerIsContained(space: Rect, r: Rect)
    requires space.CanFit(r)
    ensures space.Contains(r.Location(space.x, space.y))
  {
  }

  lemma CanFitIgnoresPosition(a: Rect, b: Rect, ax: real, ay: real, bx: real, bY: real)
    ensures a.Location(ax, ay).CanFit(b.Location(bx, bY)) == a.CanFit(b)
  {
  }

  // ---------------------------------------------------------------------
  // The guillotine split

  /**
   * The split loses no free area: a point of the region that is not in the
   * closed placed rectangle lies in one of the pieces.
   */
  lemma SplitCoversRest(space: Rect, placed: Rect, px: real, py: real)
    requires space.ContainsPoint(px, py) && !placed.ContainsPoint(px, py)
    ensures exists k :: 0 <= k < |space.GetMaximalFreeRects(placed)| &&
                        space.GetMaximalFreeRects(placed)[k].ContainsPoint(px, py)
  {
    var pieces := space.GetMaximalFreeRects(placed);
    if !space.Overlaps(placed) {
      assert pieces[0] == space;
    } else {
      var top := if space.y < placed.y then [Rect(space.x, space.y, space.width, placed.y - space.y, None)] else [];
      var right := if space.Right() > placed.Right() then [Rect(placed.Right(), space.y, space.Right() - placed.Right(), space.height, None)] else [];
      var bottom := if space.Bottom() > placed.Bottom() then [Rect(space.x, placed.Bottom(), space.width, space.Bottom() - placed.Bottom(), None)] else [];
      var left := if space.x < placed.x then [Rect(space.x, space.y, placed.x - space.x, space.height, None)] else [];
      assert pieces == top + right + bottom + left;
      var k := CoveringPart(space, placed, px, py, top, right, bottom, left);
      assert pieces[k].ContainsPoint(px, py);
    }
  }

  /** Which of the four parts of an overlapping split holds the point. */
  lemma CoveringPart(space: Rect, placed: Rect, px: real, py: real,
                     top: seq<Rect>, right: seq<Rect>, bottom: seq<Rect>, left: seq<Rect>)
    returns (k: nat)
    requires space.ContainsPoint(px, py) && !placed.ContainsPoint(px, py)
    requires top == if space.y < placed.y then [Rect(space.x, space.y, space.width, placed.y - space.y, None)] else []
    requires right == if space.Right() > placed.Right() then [Rect(placed.Right(), space.y, space.Right() - placed.Right(), space.height, None)] else []
    requires bottom == if space.Bottom() > placed.Bottom() then [Rect(space.x, placed.Bottom(), space.width, space.Bottom() - placed.Bottom(), None)] else []
    requires left == if space.x < placed.x then [Rect(space.x, space.y, placed.x - space.x, space.height, None)] else []
    ensures k < |top + right + bottom + left| && (top + right + bottom + left)[k].ContainsPoint(px, py)
  {
    var parts := top + right + bottom + left;
    ContainsPointIsInclusive(space, px, py);
    ContainsPointIsInclusive(placed, px, py);
    if py < placed.y {
      ContainsPointIsInclusive(top[0], px, py);
      k := 0;
      assert parts[k] == top[0];
    } else if px > placed.Right() {
      ContainsPointIsInclusive(right[0], px, py);
      k := |top|;
      assert parts[k] == right[0];
    } else if py > placed.Bottom() {
      ContainsPointIsInclusive(bottom[0], px, py);
      k := |top| + |right|;
      assert parts[k] == bottom[0];
    } else {
      assert px < placed.x;
      ContainsPointIsInclusive(left[0], px, py);
      k := |top| + |right| + |bottom|;
      assert parts[k] == left[0];
    }
  }

  // ---------------------------------------------------------------------
  // Merge, translate, location, clone

  /** Merge is the least enclosing rectangle. */
  lemma MergeIsLeast(a: Rect, b: Rect, c: Rect)
    requires c.Contains(a) && c.Contains(b)
    ensures c.Contains(a.Merge(b))
  {
  }

  lemma TranslateKeepsRelations(a: Rect, b: Rect, dx: real, dy: real)
    ensures a.Translate(dx, dy).Overlaps(b.Translate(dx, dy)) == a.Overlaps(b)
    ensures a.Translate(dx, dy).Contains(b.Translate(dx, dy)) == a.Contains(b)
  {
  }

  lemma TranslateIsRelativeLocation(r: Rect, dx: real, dy: real)
    ensures r.Translate(dx, dy) == r.Location(r.x + dx, r.y + dy)
    ensures r.Translate(dx, dy).Translate(-dx, -dy) == r
  {
  }
}
