/**
 * The bin packer of src/components/masonry/index.ts (class `Packer`): a free
 * list (`spaces`) and the placed items (`rects`) it rewrites as items are
 * packed, aligned and dragged, and the snap targets a drag uses.
 *
 * Items are `Rect` values; an item moved in place by the source is written
 * back into `rects` at the item standing for the same element.
 */
module Packing {
  import opened Wrappers
  import opened Geometry
  import opened RectOrder
  import opened FreeSpace
  import opened Layout
  import opened Snapping

  class Packer {
    var spaces: seq<Rect>
    const width: real
    const height: real
    var rects: seq<Rect>
    var shiftTargetPoints: seq<Point>
    /** The already-listed targets; the source keys them by the string "x,y". */
    var shiftTargetPointKeys: seq<Point>
    const segmentLength: real
    /**
     * The items a region took since the free list was last reset, by `append`
     * or `relayout`. Aligning may leave items overlapping by the 0.01
     * tolerance of `alignColumn`, so `alignments` and `push` empty it.
     */
    ghost var fitted: set<Rect>

    /**
     * The segment length divides; items stand for distinct elements; the free
     * list is tidy; and the items that found room are listed, overlap no other
     * such item, and are missed by every free region.
     */
    ghost predicate Valid()
      reads this
    {
      && segmentLength != 0.0 && Tagged(rects) && Tidy(spaces)
      && (forall a :: a in fitted ==> a in rects)
      && Apart(spaces, fitted)
    }

    /** With no item counted as fitted, the invariant asks only for the first three facts. */
    lemma EmptyFittedValid()
      requires segmentLength != 0.0 && Tagged(rects) && Tidy(spaces) && fitted == {}
      ensures Valid()
    {
    }

    constructor(width: real, height: real, segmentLength: real := 60.0)
      requires segmentLength != 0.0
      ensures this.width == width && this.height == height && this.segmentLength == segmentLength
      ensures spaces == [Container(width, height)] && rects == [] && shiftTargetPointKeys == []
      ensures shiftTargetPoints ==
        GridPoints(GridRows(height, segmentLength), GridColumns(width, segmentLength), segmentLength, segmentLength)
      ensures fitted == {} && Valid()
    {
      this.width := width;
      this.height := height;
      this.segmentLength := segmentLength;
      spaces := [];
      rects := [];
      shiftTargetPoints := [];
      shiftTargetPointKeys := [];
      fitted := {};
      new;
      Reset();
      UpdateShiftTargetsWithGrid(segmentLength);
    }

    /**
     * The free list becomes the whole container, which overlaps every item,
     * so no item counts as fitted any more.
     */
    method Reset()
      modifies this
      ensures spaces == [Container(width, height)] && fitted == {}
      ensures rects == old(rects) && shiftTargetPoints == old(shiftTargetPoints)
      ensures shiftTargetPointKeys == old(shiftTargetPointKeys)
      ensures old(Valid()) ==> Valid()
    {
      spaces := [NewRect(0.0, 0.0, width, height)];
      fitted := {};
      SingleTidy(spaces[0]);
    }

    /** Adds an item for a new element and packs it. */
    method Append(rect: Rect) returns (placed: Rect)
      requires Valid() && rect.element.Some?
      requires forall k :: 0 <= k < |rects| ==> rects[k].element != rect.element
      modifies this
      ensures placed == PackPosition(old(spaces), rect)
      ensures rects == old(rects) + [placed] && spaces == PackedSpaces(old(spaces), rect)
      ensures fitted == old(fitted) + (if FirstFit(old(spaces), rect).Some? then {placed} else {})
      ensures shiftTargetPoints == old(shiftTargetPoints) && shiftTargetPointKeys == old(shiftTargetPointKeys)
      ensures Valid()
    {
      ghost var before := rects;
      rects := rects + [rect];
      placed := Pack(rect);
      PackPlaces(old(spaces), rect);
      PackKeepsApart(old(spaces), fitted, rect);
      PlacingKeepsTidy(old(spaces), rect);
      if FirstFit(old(spaces), rect).Some? {
        fitted := fitted + {placed};
      }
      rects := Put(rects, placed);
      assert rects == before + [placed] by {
        assert forall k :: 0 <= k < |before| ==> rects[k] == before[k];
      }
      assert forall a :: a in fitted ==> a in rects by {
        forall a | a in fitted ensures a in rects {
          if a != placed {
            assert a in before;
          }
        }
      }
      assert Tagged(rects) by {
        forall i, j | 0 <= i < j < |rects| ensures rects[i].element != rects[j].element {
          if j < |before| {
            assert rects[i] == before[i] && rects[j] == before[j];
          }
        }
      }
    }

    /**
     * Puts `rect` at the top-left corner of the first free region it fits in
     * and splits the free list around it; when none fits nothing changes.
     */
    method Pack(rect: Rect) returns (placed: Rect)
      modifies this
      ensures placed == PackPosition(old(spaces), rect) && spaces == PackedSpaces(old(spaces), rect)
      ensures rects == old(rects) && shiftTargetPoints == old(shiftTargetPoints)
      ensures shiftTargetPointKeys == old(shiftTargetPointKeys) && fitted == old(fitted)
    {
      placed := rect;
      var i := 0;
      while i < |spaces|
        invariant 0 <= i <= |spaces| && spaces == old(spaces)
        invariant forall k :: 0 <= k < i ==> !spaces[k].CanFit(rect)
      {
        var space := spaces[i];
        if space.CanFit(rect) {
          placed := rect.(x := space.x, y := space.y);
          UpdateSpacesWithPlaced(placed);
          return;
        }
        i := i + 1;
      }
    }

    /** Splits every free region around `rect`, then merges and sorts the free list. */
    method UpdateSpacesWithPlaced(rect: Rect)
      modifies this
      ensures spaces == Respace(old(spaces), rect)
      ensures rects == old(rects) && shiftTargetPoints == old(shiftTargetPoints)
      ensures shiftTargetPointKeys == old(shiftTargetPointKeys) && fitted == old(fitted)
    {
      var revisedSpaces: seq<Rect> := [];
      for k := 0 to |spaces|
        invariant revisedSpaces == SplitAll(spaces[..k], rect)
      {
        assert spaces[..k + 1][..k] == spaces[..k];
        revisedSpaces := revisedSpaces + spaces[k].GetMaximalFreeRects(rect);
      }
      assert spaces[..|spaces|] == spaces;
      spaces := revisedSpaces;
      MergeAndSortSpaces();
    }

    /** Drops every free region contained in another and sorts the rest by (y, x). */
    method MergeAndSortSpaces()
      modifies this
      ensures spaces == MergeAndSort(old(spaces))
      ensures rects == old(rects) && shiftTargetPoints == old(shiftTargetPoints)
      ensures shiftTargetPointKeys == old(shiftTargetPointKeys) && fitted == old(fitted)
    {
      var kept := RemoveContained(spaces);
      spaces := SortByYX(kept);
    }

    /** Gives a region back to the free list. */
    method AddSpace(rect: Rect)
      modifies this
      ensures spaces == MergeAndSort(old(spaces) + [rect])
      ensures rects == old(rects) && shiftTargetPoints == old(shiftTargetPoints)
      ensures shiftTargetPointKeys == old(shiftTargetPointKeys) && fitted == old(fitted)
    {
      spaces := spaces + [rect];
      MergeAndSortSpaces();
    }

    /** Sorts the items by (y, x), stably; the sorted list is returned too. */
    method SortItems() returns (sorted: seq<Rect>)
      modifies this
      ensures rects == SortByYX(old(rects)) && sorted == rects
      ensures old(Valid()) ==> Valid()
      ensures spaces == old(spaces) && shiftTargetPoints == old(shiftTargetPoints)
      ensures shiftTargetPointKeys == old(shiftTargetPointKeys) && fitted == old(fitted)
    {
      if Tagged(rects) {
        SortKeepsTagged(rects);
      }
      SortByYXSortsAndPermutes(rects);
      forall a | a in fitted && a in rects ensures a in SortByYX(rects) {
        assert a in multiset(rects);
      }
      rects := SortByYX(rects);
      sorted := rects;
    }

    /**
     * Moves `r` up to the top of the first free region that spans its column
     * and is tall enough, and splits the free list around it; when none does
     * nothing changes.
     */
    method AlignColumn(r: Rect) returns (aligned: Rect)
      modifies this
      ensures aligned == AlignPosition(old(spaces), r) && spaces == AlignedSpaces(old(spaces), r)
      ensures rects == old(rects) && shiftTargetPoints == old(shiftTargetPoints)
      ensures shiftTargetPointKeys == old(shiftTargetPointKeys) && fitted == old(fitted)
    {
      aligned := r;
      var i := 0;
      while i < |spaces|
        invariant 0 <= i <= |spaces| && spaces == old(spaces)
        invariant forall k :: 0 <= k < i ==> !ColumnFits(spaces[k], r)
      {
        var space := spaces[i];
        var canFitInSpaceColumn := space.x <= r.x &&
          space.Right() >= r.Right() &&
          space.height >= r.height - 0.01;
        if canFitInSpaceColumn {
          aligned := r.(y := space.y);
          UpdateSpacesWithPlaced(aligned);
          return;
        }
        i := i + 1;
      }
    }

    /** The snap targets of a grid: `segmentLength` apart across, `segmentHeight` apart down. */
    method UpdateShiftTargetsWithGrid(segmentHeight: real)
      requires segmentLength != 0.0
      requires segmentHeight != 0.0 || height <= 0.0
      modifies this
      ensures shiftTargetPoints ==
        GridPoints(GridRows(height, segmentHeight), GridColumns(width, segmentLength), segmentLength, segmentHeight)
      ensures spaces == old(spaces) && rects == old(rects)
      ensures shiftTargetPointKeys == old(shiftTargetPointKeys) && fitted == old(fitted)
    {
      shiftTargetPoints := [];
      var segment := segmentLength;
      var segs := Floor(width / segment);
      var rows := GridRows(height, segmentHeight);
      var cols := GridColumns(width, segment);
      var j := 0;
      while segmentHeight != 0.0 && (j as real) < height / segmentHeight
        invariant 0 <= j <= rows
        invariant shiftTargetPoints == GridPoints(j, cols, segment, segmentHeight)
        invariant spaces == old(spaces) && rects == old(rects) && shiftTargetPointKeys == old(shiftTargetPointKeys) && fitted == old(fitted)
        decreases rows - j
      {
        RowCountCounts(height / segmentHeight, j);
        var i := 0;
        ghost var done := shiftTargetPoints;
        ghost var row := GridRow(j, cols, segment, segmentHeight);
        while i < segs
          invariant 0 <= i <= cols
          invariant shiftTargetPoints == done + row[..i]
          invariant spaces == old(spaces) && rects == old(rects) && shiftTargetPointKeys == old(shiftTargetPointKeys) && fitted == old(fitted)
        {
          assert i < cols;
          assert row[i] == Point(i as real * segment, j as real * segmentHeight);
          assert row[..i + 1] == row[..i] + [row[i]];
          shiftTargetPoints := shiftTargetPoints + [Point(i as real * segment, j as real * segmentHeight)];
          i := i + 1;
        }
        assert row[..i] == row;
        j := j + 1;
      }
      if segmentHeight != 0.0 {
        RowCountCounts(height / segmentHeight, j);
      }
    }

    /** One iteration of `relayout`'s loop: packs the item at `k`, the first not yet packed. */
    method PackAt(k: nat, ghost start: seq<Rect>, ghost items: seq<Rect>)
      requires k < |items|
      requires rects == PackAll(start, items[..k]).items + items[k..] && spaces == PackAll(start, items[..k]).spaces
      modifies this
      ensures rects == PackAll(start, items[..k + 1]).items + items[k + 1..] && spaces == PackAll(start, items[..k + 1]).spaces
      ensures shiftTargetPoints == old(shiftTargetPoints) && shiftTargetPointKeys == old(shiftTargetPointKeys) && fitted == old(fitted)
    {
      ghost var done := PackAll(start, items[..k]).items;
      PackAllSnoc(start, items[..k], items[k]);
      assert items[..k + 1] == items[..k] + [items[k]];
      assert rects[k] == items[k];
      var placed := Pack(rects[k]);
      ReplaceNext(done, items[k..], placed);
      assert items[k..][1..] == items[k + 1..];
      rects := rects[k := placed];
    }

    /** The loop of `relayout`: packs the items in list order. */
    method PackEach(items: seq<Rect>)
      requires rects == items
      modifies this
      ensures rects == PackAll(old(spaces), items).items && spaces == PackAll(old(spaces), items).spaces
      ensures shiftTargetPoints == old(shiftTargetPoints) && shiftTargetPointKeys == old(shiftTargetPointKeys) && fitted == old(fitted)
    {
      ghost var start := spaces;
      assert items[..0] == [] && items[0..] == items;
      for k := 0 to |items|
        invariant rects == PackAll(start, items[..k]).items + items[k..] && spaces == PackAll(start, items[..k]).spaces
        invariant shiftTargetPoints == old(shiftTargetPoints) && shiftTargetPointKeys == old(shiftTargetPointKeys) && fitted == old(fitted)
      {
        PackAt(k, start, items);
      }
      assert items[..|items|] == items;
    }

    /** Packs every item again, in (y, x) order, into an empty container. */
    method Relayout()
      modifies this
      ensures var out := PackAll([Container(width, height)], SortByYX(old(rects)));
        rects == out.items && spaces == out.spaces && fitted == Fitted(out)
      ensures old(Valid()) ==> Valid()
      ensures shiftTargetPoints == old(shiftTargetPoints) && shiftTargetPointKeys == old(shiftTargetPointKeys)
    {
      Reset();
      var items := SortItems();
      ghost var tagged := Tagged(items);
      PackEach(items);
      ghost var out := PackAll([Container(width, height)], items);
      fitted := Fitted(out);
      RelayoutApart(width, height, items);
      SingleTidy(Container(width, height));
      PackAllTidy([Container(width, height)], items);
      if tagged {
        TaggedSameElements(items, rects);
      }
    }

    /**
     * One iteration of the aligning loops: aligns the item at `k`, the first
     * not yet visited, which is not the skipped one.
     */
    method AlignAt(k: nat, ghost start: seq<Rect>, ghost items: seq<Rect>, ghost skip: Option<ElementId>)
      returns (aligned: Rect)
      requires k < |items| && !(skip.Some? && items[k].element == skip)
      requires rects == AlignAll(start, items[..k], skip).items + items[k..]
      requires spaces == AlignAll(start, items[..k], skip).spaces
      modifies this
      ensures rects == AlignAll(start, items[..k + 1], skip).items + items[k + 1..]
      ensures spaces == AlignAll(start, items[..k + 1], skip).spaces
      ensures AlignAll(start, items[..k + 1], skip).items == AlignAll(start, items[..k], skip).items + [aligned]
      ensures aligned.element == items[k].element
      ensures shiftTargetPoints == old(shiftTargetPoints) && shiftTargetPointKeys == old(shiftTargetPointKeys) && fitted == old(fitted)
    {
      ghost var done := AlignAll(start, items[..k], skip).items;
      AlignAllSnoc(start, items[..k], items[k], skip);
      assert items[..k + 1] == items[..k] + [items[k]];
      assert rects[k] == items[k];
      aligned := AlignColumn(rects[k]);
      ReplaceNext(done, items[k..], aligned);
      assert items[k..][1..] == items[k + 1..];
      rects := rects[k := aligned];
    }

    /** One iteration of `alignments`' loop: aligns the item at `k` unless it is the skipped one. */
    method VisitAt(k: nat, ghost start: seq<Rect>, ghost items: seq<Rect>, skip: Option<ElementId>)
      requires k < |items|
      requires rects == AlignAll(start, items[..k], skip).items + items[k..]
      requires spaces == AlignAll(start, items[..k], skip).spaces
      modifies this
      ensures rects == AlignAll(start, items[..k + 1], skip).items + items[k + 1..]
      ensures spaces == AlignAll(start, items[..k + 1], skip).spaces
      ensures shiftTargetPoints == old(shiftTargetPoints) && shiftTargetPointKeys == old(shiftTargetPointKeys) && fitted == old(fitted)
    {
      assert rects[k] == items[k];
      if skip.Some? && rects[k].element == skip {
        SkipAt(k, start, items, skip, rects);
      } else {
        var _ := AlignAt(k, start, items, skip);
      }
    }

    /**
     * The loop of `alignments`: aligns the items in list order, passing over
     * the one standing for `skip`.
     */
    method AlignEach(items: seq<Rect>, skip: Option<ElementId>)
      requires rects == items
      modifies this
      ensures rects == AlignAll(old(spaces), items, skip).items && spaces == AlignAll(old(spaces), items, skip).spaces
      ensures shiftTargetPoints == old(shiftTargetPoints) && shiftTargetPointKeys == old(shiftTargetPointKeys) && fitted == old(fitted)
    {
      ghost var start := spaces;
      assert items[..0] == [] && items[0..] == items;
      for k := 0 to |items|
        invariant rects == AlignAll(start, items[..k], skip).items + items[k..]
        invariant spaces == AlignAll(start, items[..k], skip).spaces
        invariant shiftTargetPoints == old(shiftTargetPoints) && shiftTargetPointKeys == old(shiftTargetPointKeys) && fitted == old(fitted)
      {
        VisitAt(k, start, items, skip);
      }
      assert items[..|items|] == items;
    }

    /**
     * Re-aligns every item in (y, x) order into an empty container; the item
     * standing for `ignore`'s element is placed first and not moved.
     */
    method Alignments(ignore: Option<Rect> := None)
      modifies this
      ensures var out := Settle(width, height, old(rects), ignore);
        rects == out.items && spaces == out.spaces && fitted == {}
      ensures old(Valid()) ==> Valid()
      ensures shiftTargetPoints == old(shiftTargetPoints) && shiftTargetPointKeys == old(shiftTargetPointKeys)
    {
      ghost var valid := Valid();
      Reset();
      if ignore.Some? {
        UpdateSpacesWithPlaced(ignore.value);
      }
      // `r === ignore`: the item stands for the ignored element
      var skip := if ignore.Some? then ignore.value.element else None;
      var items := SortItems();
      ghost var start := spaces;
      AlignEach(items, skip);
      SettleTidy(width, height, old(rects), ignore);
      if valid {
        SortKeepsTagged(old(rects));
        AlignAllMovesVertically(start, items, skip);
        TaggedSameElements(items, rects);
        EmptyFittedValid();
      }
    }

    /**
     * `addShiftTarget`: records (x, y) unless it lies right of `boundsSize`
     * (x = 0 always qualifies) or is listed already.
     */
    method AddShiftTarget(x: real, y: real, boundsSize: real)
      modifies this
      ensures var p := Point(x, y);
        if Admitted(p, boundsSize) && p !in old(shiftTargetPointKeys) then
          shiftTargetPointKeys == old(shiftTargetPointKeys) + [p] && shiftTargetPoints == old(shiftTargetPoints) + [p]
        else
          shiftTargetPointKeys == old(shiftTargetPointKeys) && shiftTargetPoints == old(shiftTargetPoints)
      ensures spaces == old(spaces) && rects == old(rects) && fitted == old(fitted)
    {
      if x != 0.0 && x > boundsSize {
        return;
      }
      var key := Point(x, y);
      var hasKey := key in shiftTargetPointKeys;
      if hasKey {
        return;
      }
      shiftTargetPointKeys := shiftTargetPointKeys + [key];
      shiftTargetPoints := shiftTargetPoints + [Point(x, y)];
    }

    /** The targets one aligned item adds: its two left corners, then the whole segments along its bottom. */
    method AddItemTargets(r: Rect, boundsSize: real)
      requires segmentLength != 0.0 && shiftTargetPointKeys == shiftTargetPoints
      modifies this
      ensures shiftTargetPoints == AddAll(old(shiftTargetPoints), ItemTargets(r, segmentLength), boundsSize)
      ensures shiftTargetPointKeys == shiftTargetPoints
      ensures spaces == old(spaces) && rects == old(rects) && fitted == old(fitted)
    {
      ghost var ts := ItemTargets(r, segmentLength);
      ghost var p0 := shiftTargetPoints;
      AddAllSnoc(p0, [], ts[0], boundsSize);
      AddShiftTarget(r.x, r.y, boundsSize);
      TakeSnoc(ts, 0);
      AddAllSnoc(p0, ts[..1], ts[1], boundsSize);
      AddShiftTarget(r.x, r.Bottom(), boundsSize);
      TakeSnoc(ts, 1);
      AddBottomTargets(r, boundsSize, p0);
    }

    /** The segment loop of `addItemTargets`, after both corners. */
    method AddBottomTargets(r: Rect, boundsSize: real, ghost p0: seq<Point>)
      requires segmentLength != 0.0 && shiftTargetPointKeys == shiftTargetPoints
      requires shiftTargetPoints == AddAll(p0, ItemTargets(r, segmentLength)[..2], boundsSize)
      modifies this
      ensures shiftTargetPoints == AddAll(p0, ItemTargets(r, segmentLength), boundsSize)
      ensures shiftTargetPointKeys == shiftTargetPoints
      ensures spaces == old(spaces) && rects == old(rects) && fitted == old(fitted)
    {
      ghost var ts := ItemTargets(r, segmentLength);
      var cornerY := r.Bottom();
      var segSpan := Round(r.width / segmentLength);
      var i := 1;
      while i < segSpan
        invariant 1 <= i && i + 1 <= |ts|
        invariant i + 1 < |ts| ==> i < segSpan
        invariant shiftTargetPoints == AddAll(p0, ts[..i + 1], boundsSize)
        invariant shiftTargetPointKeys == shiftTargetPoints
        invariant spaces == old(spaces) && rects == old(rects) && fitted == old(fitted)
      {
        var segX := r.x + segmentLength * (i as real);
        var segY := cornerY;
        assert ts[i + 1] == Point(segX, segY);
        AddAllSnoc(p0, ts[..i + 1], ts[i + 1], boundsSize);
        TakeSnoc(ts, i + 1);
        AddShiftTarget(segX, segY, boundsSize);
        i := i + 1;
      }
      assert ts[..i + 1] == ts;
    }

    /** The top-row loop of `updateShiftTargetPoints`, from an empty target list. */
    method AddTopTargets(segs: int, boundsSize: real)
      requires shiftTargetPoints == [] && shiftTargetPointKeys == []
      modifies this
      ensures shiftTargetPoints == AddAll([], TopRow(segs, segmentLength), boundsSize)
      ensures shiftTargetPointKeys == shiftTargetPoints
      ensures spaces == old(spaces) && rects == old(rects) && fitted == old(fitted)
    {
      var segment := segmentLength;
      ghost var top := TopRow(segs, segment);
      var i := 0;
      while i < segs
        invariant 0 <= i <= |top|
        invariant shiftTargetPoints == AddAll([], top[..i], boundsSize) && shiftTargetPointKeys == shiftTargetPoints
        invariant spaces == old(spaces) && rects == old(rects) && fitted == old(fitted)
      {
        assert top[i] == Point(i as real * segment, 0.0);
        AddAllSnoc([], top[..i], top[i], boundsSize);
        assert top[..i] + [top[i]] == top[..i + 1];
        AddShiftTarget(i as real * segment, 0.0, boundsSize);
        i := i + 1;
      }
      assert top[..i] == top;
    }

    /**
     * The item loop of `updateShiftTargetPoints`: aligns the items in list
     * order, passing over the one standing for `skip`, and adds the targets of
     * each item aligned.
     */
    method AlignAndTargetEach(items: seq<Rect>, skip: Option<ElementId>, boundsSize: real)
      requires segmentLength != 0.0 && rects == items && shiftTargetPointKeys == shiftTargetPoints
      modifies this
      ensures rects == AlignAll(old(spaces), items, skip).items && spaces == AlignAll(old(spaces), items, skip).spaces
      ensures shiftTargetPoints ==
        AddAll(old(shiftTargetPoints), TargetsOf(AlignAll(old(spaces), items, skip).items, skip, segmentLength), boundsSize)
      ensures shiftTargetPointKeys == shiftTargetPoints && fitted == old(fitted)
    {
      ghost var start := spaces;
      ghost var p0 := shiftTargetPoints;
      assert items[..0] == [] && items[0..] == items;
      for k := 0 to |items|
        invariant rects == AlignAll(start, items[..k], skip).items + items[k..]
        invariant spaces == AlignAll(start, items[..k], skip).spaces
        invariant shiftTargetPoints == AddAll(p0, TargetsOf(AlignAll(start, items[..k], skip).items, skip, segmentLength), boundsSize)
        invariant shiftTargetPointKeys == shiftTargetPoints && fitted == old(fitted)
      {
        if skip.Some? && items[k].element == skip {
          SkipAt(k, start, items, skip, rects);
          TargetsSkip(AlignAll(start, items[..k], skip).items, items[k], skip, segmentLength);
          continue;
        }
        ghost var done := AlignAll(start, items[..k], skip).items;
        var aligned := AlignAt(k, start, items, skip);
        TargetsTake(done, aligned, skip, segmentLength);
        AddAllConcat(p0, TargetsOf(done, skip, segmentLength), ItemTargets(aligned, segmentLength), boundsSize);
        AddItemTargets(aligned, boundsSize);
      }
      assert items[..|items|] == items;
    }

    /**
     * Rebuilds the snap targets for dragging `rect`: the top row, then, for
     * every other item once re-aligned in (y, x) order, its corners and bottom
     * segments; each point at most once, and none further right than the
     * dragged item can go. Unless `isForce`, `rect` is placed first and left out.
     */
    method UpdateShiftTargetPoints(rect: Rect, isForce: bool := false)
      requires Valid()
      modifies this
      ensures var out := Settle(width, height, old(rects), if isForce then None else Some(rect));
        rects == out.items && spaces == out.spaces &&
        shiftTargetPoints == AddAll(AddAll([], TopRow(Floor(width / segmentLength), segmentLength),
                                           BoundsSize(width, segmentLength, rect.width)),
                                    TargetsOf(out.items, if isForce then None else rect.element, segmentLength),
                                    BoundsSize(width, segmentLength, rect.width))
      ensures shiftTargetPointKeys == shiftTargetPoints && fitted == {}
      ensures Valid()
    {
      shiftTargetPoints := [];
      shiftTargetPointKeys := [];
      Reset();
      var segment := segmentLength;
      var segmentSpan := Ceil(rect.width / segment);
      var segs := Floor(width / segment);
      var boundsSize := ((segs - segmentSpan) as real) * segment;
      assert boundsSize == BoundsSize(width, segmentLength, rect.width);
      AddTopTargets(segs, boundsSize);
      ghost var p0 := shiftTargetPoints;
      assert p0 == AddAll([], TopRow(Floor(width / segmentLength), segmentLength), BoundsSize(width, segmentLength, rect.width));
      if !isForce {
        UpdateSpacesWithPlaced(rect);
      }
      // `r === rect && !isForce`: the item stands for the dragged element
      var skip := if isForce then None else rect.element;
      var items := SortItems();
      ghost var start := spaces;
      AlignAndTargetEach(items, skip, boundsSize);
      assert shiftTargetPoints == AddAll(p0, TargetsOf(AlignAll(start, items, skip).items, skip, segmentLength), boundsSize);
      assert AlignAll(start, items, skip) == Settle(width, height, old(rects), if isForce then None else Some(rect));
      AlignAllMovesVertically(start, items, skip);
      SortKeepsTagged(old(rects));
      TaggedSameElements(items, rects);
      SettleTidy(width, height, old(rects), if isForce then None else Some(rect));
      EmptyFittedValid();
    }

    /**
     * The nearest snap target to (x, y), the first of equally near ones, or
     * the origin when there is none, becomes `fromRect`'s top-left corner.
     */
    method Shift(fromRect: Rect, x: real, y: real) returns (moved: Rect)
      ensures moved == fromRect.Location(SnapTarget(shiftTargetPoints, x, y).x, SnapTarget(shiftTargetPoints, x, y).y)
    {
      var shiftPosition := Point(0.0, 0.0);
      var minDistance: Option<real> := None;
      for k := 0 to |shiftTargetPoints|
        invariant k == 0 ==> shiftPosition == Point(0.0, 0.0) && minDistance == None
        invariant k > 0 ==>
          shiftPosition == shiftTargetPoints[Nearest(shiftTargetPoints[..k], x, y)] &&
          minDistance == Some(SquaredDistance(shiftPosition, x, y))
      {
        assert shiftTargetPoints[..k + 1][..k] == shiftTargetPoints[..k];
        var target := shiftTargetPoints[k];
        var distance := SquaredDistance(target, x, y);
        if minDistance.None? || distance < minDistance.value {
          shiftPosition := target;
          minDistance := Some(distance);
        }
      }
      assert shiftTargetPoints[..|shiftTargetPoints|] == shiftTargetPoints;
      moved := fromRect.Location(shiftPosition.x, shiftPosition.y);
    }

    /**
     * `updateSpaces` of `push`: the free list of a fresh packer split around
     * every item except the one standing for `skip`.
     */
    method UpdateSpaces(skip: Option<ElementId>)
      modifies this
      ensures spaces == SpacesAround([Container(width, height)], rects, skip)
      ensures rects == old(rects) && shiftTargetPoints == old(shiftTargetPoints)
      ensures shiftTargetPointKeys == old(shiftTargetPointKeys) && fitted == old(fitted)
    {
      var p := new Packer(width, height);
      for k := 0 to |rects|
        invariant rects == old(rects) && shiftTargetPoints == old(shiftTargetPoints)
        invariant shiftTargetPointKeys == old(shiftTargetPointKeys) && fitted == old(fitted)
        invariant p.spaces == SpacesAround([Container(width, height)], rects[..k], skip)
      {
        var rect := rects[k];
        assert rects[..k + 1][..k] == rects[..k] && rects[..k + 1][k] == rect;
        if rect.element == skip {
          continue;
        }
        p.UpdateSpacesWithPlaced(rect);
      }
      assert rects[..|rects|] == rects;
      spaces := p.spaces;
    }

    /**
     * A drag step: `fromRect` snaps to the target nearest (x, y), the other
     * items re-align around it, the free list is rebuilt from the other items,
     * and `fromRect` settles in its column.
     */
    method Push(fromRect: Rect, x: real, y: real)
      requires Valid() && fromRect in rects
      modifies this
      ensures var target := SnapTarget(old(shiftTargetPoints), x, y);
        var m := fromRect.Location(target.x, target.y);
        var out := Settle(width, height, Put(old(rects), m), Some(m));
        var free := SpacesAround([Container(width, height)], out.items, m.element);
        rects == Put(out.items, AlignPosition(free, m)) && spaces == AlignedSpaces(free, m)
      ensures shiftTargetPoints == old(shiftTargetPoints) && shiftTargetPointKeys == old(shiftTargetPointKeys)
      ensures fitted == {} && Valid()
    {
      var moved := Shift(fromRect, x, y);
      TaggedSameElements(rects, Put(rects, moved));
      rects := Put(rects, moved);
      // The moved item is no longer where it was fitted, and aligning empties the set anyway.
      fitted := {};
      EmptyFittedValid();
      Alignments(Some(moved));
      assert Tagged(rects);
      UpdateSpaces(moved.element);
      ghost var c := Container(width, height);
      SingleTidy(c);
      SpacesAroundTidy([c], rects, moved.element);
      PlacingKeepsTidy(spaces, moved);
      var aligned := AlignColumn(moved);
      TaggedSameElements(rects, Put(rects, aligned));
      rects := Put(rects, aligned);
      EmptyFittedValid();
    }
  }
}
