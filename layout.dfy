/**
 * Placement rules of the packer (src/components/masonry/index.ts): first-fit
 * packing (`pack`), settling an item upward in its column (`alignColumn`),
 * and the passes over all items that `relayout` and `alignments` make.
 */
module Layout {
  import opened Wrappers
  import opened Geometry
  import opened RectOrder
  import opened FreeSpace

  /** The area the packer fills: its only free region after `reset`. */
  function Container(width: real, height: real): Rect {
    NewRect(0.0, 0.0, width, height)
  }

  // ---------------------------------------------------------------------
  // One item

  /** The first region, in list order, that `r` fits in (the loop of `pack`). */
  function FirstFit(spaces: seq<Rect>, r: Rect): (found: Option<nat>)
    ensures found.Some? ==>
      found.value < |spaces| && spaces[found.value].CanFit(r) &&
      forall k :: 0 <= k < found.value ==> !spaces[k].CanFit(r)
    ensures found.None? ==> forall k :: 0 <= k < |spaces| ==> !spaces[k].CanFit(r)
  {
    if spaces == [] then None
    else if spaces[0].CanFit(r) then Some(0)
    else match FirstFit(spaces[1..], r)
      case None => None
      case Some(k) => Some(k + 1)
  }

  /** Where `pack` puts `r`: the top-left corner of the first region it fits, or where it was. */
  function PackPosition(spaces: seq<Rect>, r: Rect): Rect {
    match FirstFit(spaces, r)
    case None => r
    case Some(i) => r.Location(spaces[i].x, spaces[i].y)
  }

  /** The free list after `pack(r)`. */
  function PackedSpaces(spaces: seq<Rect>, r: Rect): seq<Rect> {
    match FirstFit(spaces, r)
    case None => spaces
    case Some(_) => Respace(spaces, PackPosition(spaces, r))
  }

  /**
   * A packed item keeps its size and element and lies inside the region it was
   * put in; the free list left over no longer overlaps it. When nothing fits,
   * neither the item nor the free list changes.
   */
  lemma PackPlaces(spaces: seq<Rect>, r: Rect)
    ensures var p := PackPosition(spaces, r);
      p.width == r.width && p.height == r.height && p.element == r.element
    ensures FirstFit(spaces, r).Some? ==>
      spaces[FirstFit(spaces, r).value].Contains(PackPosition(spaces, r)) &&
      Avoids(PackedSpaces(spaces, r), PackPosition(spaces, r))
    ensures FirstFit(spaces, r).None? ==>
      PackPosition(spaces, r) == r && PackedSpaces(spaces, r) == spaces
  {
    match FirstFit(spaces, r)
    case None =>
    case Some(i) =>
      FitAtCornerIsContained(spaces[i], r);
      RespaceAvoids(spaces, PackPosition(spaces, r), r);
  }

  /**
   * `space` spans `r` horizontally and is tall enough for it, up to the
   * rounding tolerance 0.01 of `alignColumn`.
   */
  predicate ColumnFits(space: Rect, r: Rect) {
    space.x <= r.x && space.Right() >= r.Right() && space.height >= r.height - ColumnTolerance
  }

  /** The rounding allowance of `alignColumn` on the region's height. */
  const ColumnTolerance: real := 0.01

  /** The first region, in list order, whose column holds `r` (the loop of `alignColumn`). */
  function FirstColumn(spaces: seq<Rect>, r: Rect): (found: Option<nat>)
    ensures found.Some? ==>
      found.value < |spaces| && ColumnFits(spaces[found.value], r) &&
      forall k :: 0 <= k < found.value ==> !ColumnFits(spaces[k], r)
    ensures found.None? ==> forall k :: 0 <= k < |spaces| ==> !ColumnFits(spaces[k], r)
  {
    if spaces == [] then None
    else if ColumnFits(spaces[0], r) then Some(0)
    else match FirstColumn(spaces[1..], r)
      case None => None
      case Some(k) => Some(k + 1)
  }

  /** Where `alignColumn` puts `r`: at the top of the first region holding its column. */
  function AlignPosition(spaces: seq<Rect>, r: Rect): Rect {
    match FirstColumn(spaces, r)
    case None => r
    case Some(i) => r.(y := spaces[i].y)
  }

  /** The free list after `alignColumn(r)`. */
  function AlignedSpaces(spaces: seq<Rect>, r: Rect): seq<Rect> {
    match FirstColumn(spaces, r)
    case None => spaces
    case Some(_) => Respace(spaces, AlignPosition(spaces, r))
  }

  /** `r` with the rounding tolerance of `alignColumn` taken off its bottom. */
  function Trimmed(r: Rect): Rect {
    r.(height := r.height - ColumnTolerance)
  }

  /**
   * Aligning changes only the item's y. An aligned item, less the 0.01
   * tolerance, lies inside the region whose top it moved to, and the free list
   * left over no longer overlaps it. When no region qualifies nothing changes.
   */
  lemma AlignPlaces(spaces: seq<Rect>, r: Rect)
    ensures AlignPosition(spaces, r) == r.(y := AlignPosition(spaces, r).y)
    ensures FirstColumn(spaces, r).Some? ==>
      spaces[FirstColumn(spaces, r).value].Contains(Trimmed(AlignPosition(spaces, r))) &&
      Avoids(AlignedSpaces(spaces, r), AlignPosition(spaces, r))
    ensures FirstColumn(spaces, r).None? ==>
      AlignPosition(spaces, r) == r && AlignedSpaces(spaces, r) == spaces
  {
    match FirstColumn(spaces, r)
    case None =>
    case Some(i) =>
      RespaceAvoids(spaces, AlignPosition(spaces, r), r);
  }

  // ---------------------------------------------------------------------
  // A pass over all items

  /**
   * The outcome of a pass over a list of items: the items as they end up, the
   * free list left over, and for each item whether a region took it.
   */
  datatype Pass = Pass(items: seq<Rect>, spaces: seq<Rect>, settled: seq<bool>)

  /** `pack` applied to each item in turn (the loop of `relayout`). */
  function PackAll(spaces: seq<Rect>, items: seq<Rect>): (out: Pass)
    decreases |items|
    ensures |out.items| == |items| && |out.settled| == |items|
    ensures forall k :: 0 <= k < |items| ==>
      out.items[k].width == items[k].width && out.items[k].height == items[k].height &&
      out.items[k].element == items[k].element
  {
    if items == [] then Pass([], spaces, [])
    else
      PackPlaces(spaces, items[0]);
      var rest := PackAll(PackedSpaces(spaces, items[0]), items[1..]);
      Pass([PackPosition(spaces, items[0])] + rest.items, rest.spaces,
           [FirstFit(spaces, items[0]).Some?] + rest.settled)
  }

  /** No region of `spaces` overlaps any of `placed`. */
  ghost predicate AvoidsAll(spaces: seq<Rect>, placed: seq<Rect>) {
    forall k :: 0 <= k < |placed| ==> Avoids(spaces, placed[k])
  }

  /** `r` overlaps none of `placed`. */
  ghost predicate Misses(r: Rect, placed: seq<Rect>) {
    forall m :: 0 <= m < |placed| ==> !r.Overlaps(placed[m])
  }

  /** `r` with `tol` taken off its bottom. */
  function Shrunk(r: Rect, tol: real): Rect {
    r.(height := r.height - tol)
  }

  /**
   * The items a region took, each less `tol` off its bottom, lie inside the
   * frame and overlap neither the items `placed` before nor any item taken
   * before them.
   */
  ghost predicate Packing(items: seq<Rect>, settled: seq<bool>, placed: seq<Rect>, frame: seq<Rect>, tol: real) {
    && |settled| == |items|
    && (forall k :: 0 <= k < |items| && settled[k] ==>
          HeldBy(Shrunk(items[k], tol), frame) && Misses(Shrunk(items[k], tol), placed))
    && (forall i, j :: 0 <= i < j < |items| && settled[i] && settled[j] ==>
          !Shrunk(items[j], tol).Overlaps(items[i]))
  }

  lemma PackingCons(p: Rect, taken: bool, items: seq<Rect>, settled: seq<bool>,
                    placed: seq<Rect>, frame: seq<Rect>, tol: real)
    requires taken ==> HeldBy(Shrunk(p, tol), frame) && Misses(Shrunk(p, tol), placed)
    requires Packing(items, settled, if taken then placed + [p] else placed, frame, tol)
    ensures Packing([p] + items, [taken] + settled, placed, frame, tol)
  {
    var all := [p] + items;
    var flags := [taken] + settled;
    var before := if taken then placed + [p] else placed;
    forall k | 0 < k < |all| && flags[k]
      ensures HeldBy(Shrunk(all[k], tol), frame) && Misses(Shrunk(all[k], tol), placed)
    {
      assert all[k] == items[k - 1] && flags[k] == settled[k - 1];
      forall m | 0 <= m < |placed| ensures !Shrunk(all[k], tol).Overlaps(placed[m]) {
        assert before[m] == placed[m];
      }
    }
    forall i, j | 0 <= i < j < |all| && flags[i] && flags[j]
      ensures !Shrunk(all[j], tol).Overlaps(all[i])
    {
      assert all[j] == items[j - 1] && flags[j] == settled[j - 1];
      if i == 0 {
        assert before[|placed|] == p;
      } else {
        assert all[i] == items[i - 1] && flags[i] == settled[i - 1];
      }
    }
  }

  /**
   * An item that, less `tol`, lies in a region of a free list that misses the
   * items placed before and lies in the frame, lies in the frame and misses
   * those items; the free list split around it misses them and it.
   */
  lemma PlaceStep(spaces: seq<Rect>, p: Rect, s: nat, placed: seq<Rect>, frame: seq<Rect>, tol: real)
    requires AvoidsAll(spaces, placed) && InsideSome(spaces, frame)
    requires s < |spaces| && spaces[s].Contains(Shrunk(p, tol))
    ensures HeldBy(Shrunk(p, tol), frame) && Misses(Shrunk(p, tol), placed)
    ensures AvoidsAll(Respace(spaces, p), placed + [p]) && InsideSome(Respace(spaces, p), frame)
  {
    var next := Respace(spaces, p);
    RespaceAvoids(spaces, p, p);
    InsideSomeTransitive(next, spaces, frame);
    var m :| 0 <= m < |frame| && frame[m].Contains(spaces[s]);
    ContainsIsPreorder(frame[m], spaces[s], Shrunk(p, tol));
    forall n | 0 <= n < |placed| ensures !Shrunk(p, tol).Overlaps(placed[n]) {
      ContainedMisses(spaces[s], Shrunk(p, tol), placed[n]);
    }
    forall n | 0 <= n < |placed + [p]| ensures Avoids(next, (placed + [p])[n]) {
      if n < |placed| {
        RespaceAvoids(spaces, p, placed[n]);
      }
    }
  }

  /** First-fit packing over a free list that misses `placed` and lies in `frame` is a packing. */
  lemma {:induction false} PackAllIsPacking(spaces: seq<Rect>, items: seq<Rect>, placed: seq<Rect>, frame: seq<Rect>)
    requires AvoidsAll(spaces, placed) && InsideSome(spaces, frame)
    ensures Packing(PackAll(spaces, items).items, PackAll(spaces, items).settled, placed, frame, 0.0)
    decreases |items|
  {
    if items != [] {
      var r := items[0];
      var p := PackPosition(spaces, r);
      var next := PackedSpaces(spaces, r);
      var rest := PackAll(next, items[1..]);
      PackPlaces(spaces, r);
      match FirstFit(spaces, r)
      case None =>
        PackAllIsPacking(next, items[1..], placed, frame);
        PackingCons(p, false, rest.items, rest.settled, placed, frame, 0.0);
      case Some(f) =>
        assert Shrunk(p, 0.0) == p;
        PlaceStep(spaces, p, f, placed, frame, 0.0);
        PackAllIsPacking(next, items[1..], placed + [p], frame);
        PackingCons(p, true, rest.items, rest.settled, placed, frame, 0.0);
    }
  }

  /**
   * `relayout`'s pass from a fresh free list: every item a region took lies
   * inside the container, and no two taken items overlap.
   */
  lemma RelayoutIsPacking(width: real, height: real, items: seq<Rect>)
    ensures var out := PackAll([Container(width, height)], items);
      forall k :: 0 <= k < |items| && out.settled[k] ==> Container(width, height).Contains(out.items[k])
    ensures var out := PackAll([Container(width, height)], items);
      forall i, j :: 0 <= i < j < |items| && out.settled[i] && out.settled[j] ==>
        !out.items[i].Overlaps(out.items[j]) && !out.items[j].Overlaps(out.items[i])
  {
    var c := Container(width, height);
    var out := PackAll([c], items);
    assert InsideSome([c], [c]) by {
      ContainsIsPreorder(c, c, c);
    }
    PackAllIsPacking([c], items, [], [c]);
    forall k | 0 <= k < |items| && out.settled[k] ensures c.Contains(out.items[k]) {
      assert Shrunk(out.items[k], 0.0) == out.items[k];
    }
    forall i, j | 0 <= i < j < |items| && out.settled[i] && out.settled[j]
      ensures !out.items[i].Overlaps(out.items[j]) && !out.items[j].Overlaps(out.items[i])
    {
      assert Shrunk(out.items[j], 0.0) == out.items[j];
      OverlapsIsSymmetric(out.items[i], out.items[j]);
    }
  }

  /**
   * `alignColumn` applied to each item in turn, except the one standing for
   * `ignore` (the loop of `alignments`).
   */
  function AlignAll(spaces: seq<Rect>, items: seq<Rect>, ignore: Option<ElementId>): (out: Pass)
    decreases |items|
    ensures |out.items| == |items| && |out.settled| == |items|
  {
    if items == [] then Pass([], spaces, [])
    else if ignore.Some? && items[0].element == ignore then
      var rest := AlignAll(spaces, items[1..], ignore);
      Pass([items[0]] + rest.items, rest.spaces, [false] + rest.settled)
    else
      AlignPlaces(spaces, items[0]);
      var rest := AlignAll(AlignedSpaces(spaces, items[0]), items[1..], ignore);
      Pass([AlignPosition(spaces, items[0])] + rest.items, rest.spaces,
           [FirstColumn(spaces, items[0]).Some?] + rest.settled)
  }

  /**
   * Aligning only moves items up or down: each keeps its element, its column
   * and its size, and the ignored item is left where it is, unsettled.
   */
  lemma {:induction false} AlignAllMovesVertically(spaces: seq<Rect>, items: seq<Rect>, ignore: Option<ElementId>)
    ensures var out := AlignAll(spaces, items, ignore);
      forall k :: 0 <= k < |items| ==> out.items[k] == items[k].(y := out.items[k].y)
    ensures var out := AlignAll(spaces, items, ignore);
      ignore.Some? ==> forall k :: 0 <= k < |items| && items[k].element == ignore ==> out.items[k] == items[k] && !out.settled[k]
    decreases |items|
  {
    if items != [] {
      var next := if ignore.Some? && items[0].element == ignore then spaces else AlignedSpaces(spaces, items[0]);
      AlignAllMovesVertically(next, items[1..], ignore);
      if !(ignore.Some? && items[0].element == ignore) {
        AlignPlaces(spaces, items[0]);
      }
    }
  }

  /** Packing one more item after a run packs it into the free list the run left. */
  lemma {:induction false} PackAllSnoc(spaces: seq<Rect>, a: seq<Rect>, r: Rect)
    ensures var p := PackAll(spaces, a);
      PackAll(spaces, a + [r]).items == p.items + [PackPosition(p.spaces, r)] &&
      PackAll(spaces, a + [r]).spaces == PackedSpaces(p.spaces, r)
    decreases |a|
  {
    if a == [] {
      assert [] + [r] == [r] && [r][1..] == [];
    } else {
      assert (a + [r])[0] == a[0] && (a + [r])[1..] == a[1..] + [r];
      PackAllSnoc(PackedSpaces(spaces, a[0]), a[1..], r);
    }
  }

  /** Aligning one more item after a run, not the ignored one, aligns it over the free list the run left. */
  lemma {:induction false} AlignAllSnoc(spaces: seq<Rect>, a: seq<Rect>, r: Rect, ignore: Option<ElementId>)
    requires !(ignore.Some? && r.element == ignore)
    ensures AlignAll(spaces, a + [r], ignore).items ==
      AlignAll(spaces, a, ignore).items + [AlignPosition(AlignAll(spaces, a, ignore).spaces, r)]
    ensures AlignAll(spaces, a + [r], ignore).spaces == AlignedSpaces(AlignAll(spaces, a, ignore).spaces, r)
    decreases |a|
  {
    if a == [] {
      assert [] + [r] == [r] && [r][1..] == [];
    } else {
      assert (a + [r])[0] == a[0] && (a + [r])[1..] == a[1..] + [r];
      var next := if ignore.Some? && a[0].element == ignore then spaces else AlignedSpaces(spaces, a[0]);
      AlignAllSnoc(next, a[1..], r, ignore);
    }
  }

  /** Passing over the ignored item after a run changes neither the free list nor anything aligned. */
  lemma {:induction false} AlignAllSnocSkip(spaces: seq<Rect>, a: seq<Rect>, r: Rect, ignore: Option<ElementId>)
    requires ignore.Some? && r.element == ignore
    ensures AlignAll(spaces, a + [r], ignore).items == AlignAll(spaces, a, ignore).items + [r]
    ensures AlignAll(spaces, a + [r], ignore).spaces == AlignAll(spaces, a, ignore).spaces
    decreases |a|
  {
    if a == [] {
      assert [] + [r] == [r] && [r][1..] == [];
    } else {
      assert (a + [r])[0] == a[0] && (a + [r])[1..] == a[1..] + [r];
      var next := if ignore.Some? && a[0].element == ignore then spaces else AlignedSpaces(spaces, a[0]);
      AlignAllSnocSkip(next, a[1..], r, ignore);
    }
  }

  /** The step of the aligning loops that passes over the ignored item. */
  lemma SkipAt(k: nat, start: seq<Rect>, items: seq<Rect>, ignore: Option<ElementId>, rects: seq<Rect>)
    requires k < |items| && rects == AlignAll(start, items[..k], ignore).items + items[k..]
    requires ignore.Some? && items[k].element == ignore
    ensures rects == AlignAll(start, items[..k + 1], ignore).items + items[k + 1..]
    ensures AlignAll(start, items[..k + 1], ignore).items == AlignAll(start, items[..k], ignore).items + [items[k]]
    ensures AlignAll(start, items[..k + 1], ignore).spaces == AlignAll(start, items[..k], ignore).spaces
  {
    AlignAllSnocSkip(start, items[..k], items[k], ignore);
    assert items[..k + 1] == items[..k] + [items[k]];
    assert items[k..] == [items[k]] + items[k + 1..];
  }

  /** Aligning over a free list that misses `placed` and lies in `frame` is a packing up to the tolerance. */
  lemma {:induction false} AlignAllIsPacking(spaces: seq<Rect>, items: seq<Rect>, ignore: Option<ElementId>,
                                             placed: seq<Rect>, frame: seq<Rect>)
    requires AvoidsAll(spaces, placed) && InsideSome(spaces, frame)
    ensures Packing(AlignAll(spaces, items, ignore).items, AlignAll(spaces, items, ignore).settled,
                    placed, frame, ColumnTolerance)
    decreases |items|
  {
    if items != [] {
      var r := items[0];
      if ignore.Some? && r.element == ignore {
        var rest := AlignAll(spaces, items[1..], ignore);
        AlignAllIsPacking(spaces, items[1..], ignore, placed, frame);
        PackingCons(r, false, rest.items, rest.settled, placed, frame, ColumnTolerance);
      } else {
        var p := AlignPosition(spaces, r);
        var next := AlignedSpaces(spaces, r);
        var rest := AlignAll(next, items[1..], ignore);
        AlignPlaces(spaces, r);
        match FirstColumn(spaces, r)
        case None =>
          AlignAllIsPacking(next, items[1..], ignore, placed, frame);
          PackingCons(p, false, rest.items, rest.settled, placed, frame, ColumnTolerance);
        case Some(f) =>
          PlaceStep(spaces, p, f, placed, frame, ColumnTolerance);
          AlignAllIsPacking(next, items[1..], ignore, placed + [p], frame);
          PackingCons(p, true, rest.items, rest.settled, placed, frame, ColumnTolerance);
      }
    }
  }

  /**
   * `alignments(ignore)` on a fresh free list: the item to ignore is placed
   * first, then every other item, in (y, x) order, is aligned.
   */
  function Settle(width: real, height: real, items: seq<Rect>, ignore: Option<Rect>): Pass {
    var start := if ignore.Some? then Respace([Container(width, height)], ignore.value)
                 else [Container(width, height)];
    AlignAll(start, SortByYX(items), if ignore.Some? then ignore.value.element else None)
  }

  /** The items placed before the aligning pass of `alignments(ignore)`: the ignored one, if any. */
  function Placed(ignore: Option<Rect>): seq<Rect> {
    if ignore.Some? then [ignore.value] else []
  }

  /**
   * `alignments(ignore)` only moves items vertically, and leaves the item
   * standing for the ignored element where it was.
   */
  lemma SettleMovesVertically(width: real, height: real, items: seq<Rect>, ignore: Option<Rect>)
    ensures var out := Settle(width, height, items, ignore);
      |out.items| == |items| &&
      forall k :: 0 <= k < |items| ==> out.items[k] == SortByYX(items)[k].(y := out.items[k].y)
    ensures var out := Settle(width, height, items, ignore);
      ignore.Some? && ignore.value.element.Some? ==>
        forall k :: 0 <= k < |items| && SortByYX(items)[k].element == ignore.value.element ==>
          out.items[k] == SortByYX(items)[k]
  {
    var start := if ignore.Some? then Respace([Container(width, height)], ignore.value)
                 else [Container(width, height)];
    var id := if ignore.Some? then ignore.value.element else None;
    AlignAllMovesVertically(start, SortByYX(items), id);
  }

  /** The aligning pass of `alignments(ignore)` is a packing into the container up to the tolerance. */
  lemma SettlePacks(width: real, height: real, items: seq<Rect>, ignore: Option<Rect>)
    ensures var out := Settle(width, height, items, ignore);
      Packing(out.items, out.settled, Placed(ignore), [Container(width, height)], ColumnTolerance)
  {
    var c := Container(width, height);
    assert InsideSome([c], [c]) by {
      ContainsIsPreorder(c, c, c);
    }
    var start := if ignore.Some? then Respace([c], ignore.value) else [c];
    if ignore.Some? {
      RespaceAvoids([c], ignore.value, ignore.value);
      InsideSomeTransitive(start, [c], [c]);
    }
    assert AvoidsAll(start, Placed(ignore));
    var id := if ignore.Some? then ignore.value.element else None;
    AlignAllIsPacking(start, SortByYX(items), id, Placed(ignore), [c]);
  }

  /**
   * `alignments(ignore)` from a fresh free list yields a packing up to the
   * tolerance: every item a region took, less 0.01 off its bottom, lies inside
   * the container, misses the ignored item, and misses every item taken before
   * it; the ignored item does not move.
   */
  lemma SettleIsPacking(width: real, height: real, items: seq<Rect>, ignore: Option<Rect>)
    ensures var out := Settle(width, height, items, ignore);
      forall k :: 0 <= k < |items| && out.settled[k] ==>
        Container(width, height).Contains(Trimmed(out.items[k])) &&
        (ignore.Some? ==> !Trimmed(out.items[k]).Overlaps(ignore.value))
    ensures var out := Settle(width, height, items, ignore);
      forall i, j :: 0 <= i < j < |items| && out.settled[i] && out.settled[j] ==>
        !Trimmed(out.items[j]).Overlaps(out.items[i])
  {
    var c := Container(width, height);
    var out := Settle(width, height, items, ignore);
    SettlePacks(width, height, items, ignore);
    assert |out.items| == |items| && |out.settled| == |items|;
    forall k | 0 <= k < |items| && out.settled[k]
      ensures c.Contains(Trimmed(out.items[k])) && (ignore.Some? ==> !Trimmed(out.items[k]).Overlaps(ignore.value))
    {
      var t := Shrunk(out.items[k], ColumnTolerance);
      assert HeldBy(t, [c]) && Misses(t, Placed(ignore));
      var m :| 0 <= m < 1 && [c][m].Contains(t);
      if ignore.Some? {
        assert !t.Overlaps(Placed(ignore)[0]);
      }
    }
    forall i, j | 0 <= i < j < |items| && out.settled[i] && out.settled[j]
      ensures !Trimmed(out.items[j]).Overlaps(out.items[i])
    {
      assert !Shrunk(out.items[j], ColumnTolerance).Overlaps(out.items[i]);
    }
  }


  /**
   * The items after `r` was moved in place: the item standing for the same
   * element as `r` is `r` now, the others are as they were.
   */
  function Put(items: seq<Rect>, r: Rect): (out: seq<Rect>)
    ensures |out| == |items| && Elements(out) == Elements(items)
    ensures forall k :: 0 <= k < |items| ==> out[k].element == items[k].element
  {
    seq(|items|, k requires 0 <= k < |items| => if items[k].element == r.element then r else items[k])
  }

  /**
   * The free list of a fresh packer after `updateSpacesWithPlaced` on each
   * item but the one standing for `skip` (the `updateSpaces` step of `push`).
   */
  function SpacesAround(start: seq<Rect>, items: seq<Rect>, skip: Option<ElementId>): seq<Rect> {
    if items == [] then start
    else
      var before := SpacesAround(start, items[..|items| - 1], skip);
      var last := items[|items| - 1];
      if last.element == skip then before else Respace(before, last)
  }

  /** That free list misses every item it was split around and lies in the start list. */
  lemma {:induction false} SpacesAroundAvoids(start: seq<Rect>, items: seq<Rect>, skip: Option<ElementId>)
    ensures forall k :: 0 <= k < |items| && items[k].element != skip ==> Avoids(SpacesAround(start, items, skip), items[k])
    ensures InsideSome(SpacesAround(start, items, skip), start)
  {
    if items == [] {
      forall k | 0 <= k < |start| ensures HeldBy(start[k], start) {
        ContainsIsPreorder(start[k], start[k], start[k]);
      }
    } else {
      var init := items[..|items| - 1];
      var before := SpacesAround(start, init, skip);
      var last := items[|items| - 1];
      SpacesAroundAvoids(start, init, skip);
      if last.element != skip {
        var after := Respace(before, last);
        RespaceAvoids(before, last, last);
        InsideSomeTransitive(after, before, start);
        forall k | 0 <= k < |items| && items[k].element != skip ensures Avoids(after, items[k]) {
          if k < |items| - 1 {
            assert items[k] == init[k];
            RespaceAvoids(before, last, items[k]);
          }
        }
      } else {
        forall k | 0 <= k < |items| && items[k].element != skip ensures Avoids(before, items[k]) {
          assert items[k] == init[k];
        }
      }
    }
  }

  // ---------------------------------------------------------------------
  // What the packer keeps between calls

  /** A one-region free list is tidy. */
  lemma SingleTidy(c: Rect)
    ensures Tidy([c])
  {
  }

  /** `pack` and `alignColumn` keep a free list tidy. */
  lemma PlacingKeepsTidy(spaces: seq<Rect>, r: Rect)
    requires Tidy(spaces)
    ensures Tidy(PackedSpaces(spaces, r)) && Tidy(AlignedSpaces(spaces, r))
  {
    RespaceTidy(spaces, PackPosition(spaces, r));
    RespaceTidy(spaces, AlignPosition(spaces, r));
  }

  /** The pass of `relayout` keeps a free list tidy. */
  lemma {:induction false} PackAllTidy(spaces: seq<Rect>, items: seq<Rect>)
    requires Tidy(spaces)
    ensures Tidy(PackAll(spaces, items).spaces)
    decreases |items|
  {
    if items != [] {
      PlacingKeepsTidy(spaces, items[0]);
      PackAllTidy(PackedSpaces(spaces, items[0]), items[1..]);
    }
  }

  /** The pass of `alignments` keeps a free list tidy. */
  lemma {:induction false} AlignAllTidy(spaces: seq<Rect>, items: seq<Rect>, ignore: Option<ElementId>)
    requires Tidy(spaces)
    ensures Tidy(AlignAll(spaces, items, ignore).spaces)
    decreases |items|
  {
    if items != [] {
      if ignore.Some? && items[0].element == ignore {
        AlignAllTidy(spaces, items[1..], ignore);
      } else {
        PlacingKeepsTidy(spaces, items[0]);
        AlignAllTidy(AlignedSpaces(spaces, items[0]), items[1..], ignore);
      }
    }
  }

  /** `alignments(ignore)` leaves a tidy free list. */
  lemma SettleTidy(width: real, height: real, items: seq<Rect>, ignore: Option<Rect>)
    ensures Tidy(Settle(width, height, items, ignore).spaces)
  {
    var c := Container(width, height);
    SingleTidy(c);
    if ignore.Some? {
      RespaceTidy([c], ignore.value);
    }
    var start := if ignore.Some? then Respace([c], ignore.value) else [c];
    AlignAllTidy(start, SortByYX(items), if ignore.Some? then ignore.value.element else None);
  }

  /** The free list `push` rebuilds from a tidy start is tidy. */
  lemma {:induction false} SpacesAroundTidy(start: seq<Rect>, items: seq<Rect>, skip: Option<ElementId>)
    requires Tidy(start)
    ensures Tidy(SpacesAround(start, items, skip))
    decreases |items|
  {
    if items != [] {
      var init := items[..|items| - 1];
      SpacesAroundTidy(start, init, skip);
      RespaceTidy(SpacesAround(start, init, skip), items[|items| - 1]);
    }
  }

  /** No two of `fitted` overlap, and no region of `spaces` overlaps any of them. */
  ghost predicate Apart(spaces: seq<Rect>, fitted: set<Rect>) {
    && (forall a :: a in fitted ==> Avoids(spaces, a))
    && (forall a, b :: a in fitted && b in fitted && a != b ==> !a.Overlaps(b))
  }

  /**
   * Packing one more item keeps the packed items apart: when a region takes
   * it, it overlaps none of those packed before, and the new free list misses
   * it and them.
   */
  lemma PackKeepsApart(spaces: seq<Rect>, fitted: set<Rect>, r: Rect)
    requires Apart(spaces, fitted)
    ensures FirstFit(spaces, r).Some? ==> Apart(PackedSpaces(spaces, r), fitted + {PackPosition(spaces, r)})
    ensures FirstFit(spaces, r).None? ==> PackedSpaces(spaces, r) == spaces
  {
    PackPlaces(spaces, r);
    if FirstFit(spaces, r).Some? {
      var f := FirstFit(spaces, r).value;
      var p := PackPosition(spaces, r);
      var next := PackedSpaces(spaces, r);
      forall a | a in fitted ensures Avoids(next, a) && !p.Overlaps(a) && !a.Overlaps(p) {
        RespaceAvoids(spaces, p, a);
        ContainedMisses(spaces[f], p, a);
        OverlapsIsSymmetric(p, a);
      }
    }
  }

  /** The items a pass took. */
  ghost function Fitted(out: Pass): set<Rect> {
    set k | 0 <= k < |out.items| && k < |out.settled| && out.settled[k] :: out.items[k]
  }

  /** After first-fit packing, the free list misses the items placed before and every item taken. */
  lemma {:induction false} PackAllAvoids(spaces: seq<Rect>, items: seq<Rect>, placed: seq<Rect>)
    requires AvoidsAll(spaces, placed)
    ensures var out := PackAll(spaces, items);
      AvoidsAll(out.spaces, placed) &&
      forall k :: 0 <= k < |items| && out.settled[k] ==> Avoids(out.spaces, out.items[k])
    decreases |items|
  {
    if items != [] {
      var r := items[0];
      var p := PackPosition(spaces, r);
      var next := PackedSpaces(spaces, r);
      var out := PackAll(spaces, items);
      PackPlaces(spaces, r);
      var more := if FirstFit(spaces, r).Some? then placed + [p] else placed;
      if FirstFit(spaces, r).Some? {
        forall n | 0 <= n < |more| ensures Avoids(next, more[n]) {
          if n < |placed| {
            RespaceAvoids(spaces, p, placed[n]);
          }
        }
      }
      PackAllAvoids(next, items[1..], more);
      forall k | 0 <= k < |items| && out.settled[k] ensures Avoids(out.spaces, out.items[k]) {
        if k == 0 {
          assert more[|placed|] == p;
        } else {
          assert out.items[k] == PackAll(next, items[1..]).items[k - 1];
        }
      }
      forall n | 0 <= n < |placed| ensures Avoids(out.spaces, placed[n]) {
        assert more[n] == placed[n];
      }
    }
  }

  /**
   * After `relayout` the items a region took lie inside the container, none
   * overlaps another, and the free list left over misses them all.
   */
  lemma RelayoutApart(width: real, height: real, items: seq<Rect>)
    ensures var out := PackAll([Container(width, height)], items);
      Apart(out.spaces, Fitted(out)) && forall a :: a in Fitted(out) ==> Container(width, height).Contains(a)
  {
    var out := PackAll([Container(width, height)], items);
    RelayoutIsPacking(width, height, items);
    PackAllAvoids([Container(width, height)], items, []);
    forall a, b | a in Fitted(out) && b in Fitted(out) && a != b ensures !a.Overlaps(b) {
      var i :| 0 <= i < |out.items| && i < |out.settled| && out.settled[i] && out.items[i] == a;
      var j :| 0 <= j < |out.items| && j < |out.settled| && out.settled[j] && out.items[j] == b;
      assert i != j;
    }
  }

  /** The element ids of a list of items. */
  function Elements(items: seq<Rect>): seq<Option<ElementId>> {
    seq(|items|, k requires 0 <= k < |items| => items[k].element)
  }

  /** Every item stands for an element, and no element for two items. */
  ghost predicate Tagged(items: seq<Rect>) {
    (forall k :: 0 <= k < |items| ==> items[k].element.Some?) &&
    (forall i, j :: 0 <= i < j < |items| ==> items[i].element != items[j].element)
  }

  lemma TaggedDistinct(s: seq<Rect>, p: int, q: int)
    requires Tagged(s) && 0 <= p < |s| && 0 <= q < |s| && p != q
    ensures s[p].element != s[q].element
  {
    if p > q {
      assert s[q].element != s[p].element;
    }
  }

  /** Items with distinct elements are distinct items. */
  lemma TaggedNoDuplicates(s: seq<Rect>)
    requires Tagged(s)
    ensures NoDuplicates(s)
  {
    forall i, j | 0 <= i < j < |s| ensures s[i] != s[j] {
      assert s[i].element != s[j].element;
    }
  }

  lemma TaggedPermutation(s: seq<Rect>, t: seq<Rect>)
    requires Tagged(s) && multiset(t) == multiset(s)
    ensures Tagged(t)
  {
    forall k | 0 <= k < |t| ensures t[k].element.Some? {
      assert t[k] in multiset(s);
    }
    forall i, j | 0 <= i < j < |t| ensures t[i].element != t[j].element {
      if t[i] == t[j] {
        TwoPositionsCountTwice(t, i, j);
        TaggedNoDuplicates(s);
        NoDuplicatesCountsOnce(s, t[i]);
        assert false;
      } else {
        assert t[i] in multiset(s) && t[j] in multiset(s);
        var p :| 0 <= p < |s| && s[p] == t[i];
        var q :| 0 <= q < |s| && s[q] == t[j];
        TaggedDistinct(s, p, q);
      }
    }
  }

  /** A list of items whose elements match position by position is tagged when the other one is. */
  lemma TaggedSameElements(s: seq<Rect>, t: seq<Rect>)
    requires Tagged(s) && |t| == |s| && forall k :: 0 <= k < |s| ==> t[k].element == s[k].element
    ensures Tagged(t)
  {
    forall i, j | 0 <= i < j < |t| ensures t[i].element != t[j].element {
      assert t[i].element == s[i].element && t[j].element == s[j].element;
    }
  }

  /** Sorting the items keeps them tagged. */
  lemma SortKeepsTagged(items: seq<Rect>)
    requires Tagged(items)
    ensures Tagged(SortByYX(items))
  {
    SortByYXSortsAndPermutes(items);
    TaggedPermutation(items, SortByYX(items));
  }
}
