/**
 * The free-region list of the packer: splitting every region around a placed
 * rectangle (`updateSpacesWithPlaced`) and removing regions contained in
 * another (`mergeAndSortSpaces`), from src/components/masonry/index.ts.
 */
module FreeSpace {
  import opened Wrappers
  import opened Geometry
  import opened RectOrder

  /** No region of `spaces` overlaps `r`. */
  ghost predicate Avoids(spaces: seq<Rect>, r: Rect) {
    forall k :: 0 <= k < |spaces| ==> !spaces[k].Overlaps(r)
  }

  /** Some region of `spaces` holds the point (px, py). */
  ghost predicate CoversPoint(spaces: seq<Rect>, px: real, py: real) {
    exists k :: 0 <= k < |spaces| && spaces[k].ContainsPoint(px, py)
  }

  /** Every region of `inner` lies inside some region of `outer`. */
  ghost predicate InsideSome(inner: seq<Rect>, outer: seq<Rect>) {
    forall k :: 0 <= k < |inner| ==> HeldBy(inner[k], outer)
  }

  /** Some region of `outer` contains `r`. */
  ghost predicate HeldBy(r: Rect, outer: seq<Rect>) {
    exists m :: 0 <= m < |outer| && outer[m].Contains(r)
  }

  /** Every region of `input` lies inside some region that was kept. */
  ghost predicate Absorbs(kept: seq<Rect>, input: seq<Rect>) {
    forall o :: o in input ==> HeldBy(o, kept)
  }

  /** No region is contained in a region at another position. */
  ghost predicate Incomparable(s: seq<Rect>) {
    forall i, j :: 0 <= i < |s| && 0 <= j < |s| && i != j ==> !s[i].Contains(s[j])
  }

  /** The shape `mergeAndSortSpaces` leaves a free list in: no region inside another, in (y, x) order. */
  ghost predicate Tidy(s: seq<Rect>) {
    Incomparable(s) && SortedYX(s)
  }

  /** `s` is one of the pieces cut from some region of `spaces` around `placed`. */
  ghost predicate PieceOf(s: Rect, spaces: seq<Rect>, placed: Rect) {
    exists m :: 0 <= m < |spaces| && s in spaces[m].GetMaximalFreeRects(placed)
  }

  /**
   * `output` is what pruning and sorting makes of `input`: drawn from it, free of
   * contained regions, in (y, x) order, and losing none of its area.
   */
  ghost predicate Pruned(input: seq<Rect>, output: seq<Rect>) {
    && multiset(output) <= multiset(input)
    && Incomparable(output)
    && SortedYX(output)
    && Absorbs(output, input)
  }

  /**
   * The rest of the removal scan of `mergeAndSortSpaces` from region `i`,
   * compared with the region `j` places after it: when a later region contains
   * `rects[i]` that one is dropped and the scan restarts at the same index
   * (the labelled `continue`), when `rects[i]` contains it the later one is
   * dropped; position 0 is `rects[i]` itself.
   */
  function Sweep(rects: seq<Rect>, i: nat, j: nat): seq<Rect>
    decreases |rects| - i, |rects| - i - j
  {
    if i >= |rects| then rects
    else if i + j >= |rects| then Sweep(rects, i + 1, 0)
    else if j == 0 then Sweep(rects, i, 1)
    else if rects[i + j].Contains(rects[i]) then Sweep(rects[..i] + rects[i + 1..], i, 0)
    else if rects[i].Contains(rects[i + j]) then Sweep(rects[..i + j] + rects[i + j + 1..], i, j)
    else Sweep(rects, i, j + 1)
  }

  /** `mergeAndSortSpaces`: contained regions removed, the rest stably sorted by (y, x). */
  function MergeAndSort(spaces: seq<Rect>): seq<Rect> {
    SortByYX(Sweep(spaces, 0, 0))
  }

  /** `updateSpacesWithPlaced`: every region split around `placed`, then merged and sorted. */
  function Respace(before: seq<Rect>, placed: Rect): seq<Rect> {
    MergeAndSort(SplitAll(before, placed))
  }

  /** The pieces of every region, in list order (the loop of `updateSpacesWithPlaced`). */
  function SplitAll(spaces: seq<Rect>, placed: Rect): (pieces: seq<Rect>)
    ensures Avoids(pieces, placed)
    ensures InsideSome(pieces, spaces)
  {
    if spaces == [] then []
    else
      var init := spaces[..|spaces| - 1];
      var last := spaces[|spaces| - 1];
      var front := SplitAll(init, placed);
      var back := last.GetMaximalFreeRects(placed);
      assert forall k :: 0 <= k < |front| ==> exists m :: 0 <= m < |spaces| && spaces[m].Contains(front[k]) by {
        forall k | 0 <= k < |front| ensures exists m :: 0 <= m < |spaces| && spaces[m].Contains(front[k]) {
          var m :| 0 <= m < |init| && init[m].Contains(front[k]);
          assert spaces[m] == init[m];
        }
      }
      assert forall k :: 0 <= k < |back| ==> spaces[|spaces| - 1].Contains(back[k]);
      front + back
  }

  // ---------------------------------------------------------------------
  // Facts about the split of a whole list

  lemma {:induction false} SplitAllIsPieces(spaces: seq<Rect>, placed: Rect, z: Rect)
    requires z in SplitAll(spaces, placed)
    ensures PieceOf(z, spaces, placed)
  {
    var init := spaces[..|spaces| - 1];
    var last := spaces[|spaces| - 1];
    if z in SplitAll(init, placed) {
      SplitAllIsPieces(init, placed, z);
      var m :| 0 <= m < |init| && z in init[m].GetMaximalFreeRects(placed);
      assert spaces[m] == init[m];
    } else {
      assert z in last.GetMaximalFreeRects(placed);
    }
  }

  /** Splitting loses nothing outside the closed placed rectangle. */
  lemma {:induction false} SplitAllCovers(spaces: seq<Rect>, placed: Rect, px: real, py: real)
    requires CoversPoint(spaces, px, py) && !placed.ContainsPoint(px, py)
    ensures CoversPoint(SplitAll(spaces, placed), px, py)
  {
    var init := spaces[..|spaces| - 1];
    var last := spaces[|spaces| - 1];
    var front := SplitAll(init, placed);
    var back := last.GetMaximalFreeRects(placed);
    assert SplitAll(spaces, placed) == front + back;
    if last.ContainsPoint(px, py) {
      SplitCoversRest(last, placed, px, py);
    } else {
      var m :| 0 <= m < |spaces| && spaces[m].ContainsPoint(px, py);
      assert init[m] == spaces[m];
      SplitAllCovers(init, placed, px, py);
    }
    CoversAppend(front, back, px, py);
  }

  /** A point covered by either part of a list is covered by the whole list. */
  lemma CoversAppend(a: seq<Rect>, b: seq<Rect>, px: real, py: real)
    requires CoversPoint(a, px, py) || CoversPoint(b, px, py)
    ensures CoversPoint(a + b, px, py)
  {
    if CoversPoint(a, px, py) {
      var k :| 0 <= k < |a| && a[k].ContainsPoint(px, py);
      assert (a + b)[k] == a[k];
    } else {
      var k :| 0 <= k < |b| && b[k].ContainsPoint(px, py);
      assert (a + b)[|a| + k] == b[k];
    }
  }

  // ---------------------------------------------------------------------
  // Facts about a pruned list

  /** Every region contains itself, so a list free of contained regions holds no region twice. */
  lemma IncomparableNoDuplicates(s: seq<Rect>)
    requires Incomparable(s)
    ensures NoDuplicates(s)
  {
    forall i, j | 0 <= i < j < |s| ensures s[i] != s[j] {
      assert !s[i].Contains(s[j]) && s[i].Contains(s[i]);
    }
  }

  /** A permutation of a list free of contained regions is free of them too. */
  lemma IncomparablePermutation(s: seq<Rect>, t: seq<Rect>)
    requires Incomparable(s) && multiset(t) == multiset(s)
    ensures Incomparable(t)
  {
    forall i, j | 0 <= i < |t| && 0 <= j < |t| && i != j ensures !t[i].Contains(t[j]) {
      if t[i] == t[j] {
        if i < j { TwoPositionsCountTwice(t, i, j); } else { TwoPositionsCountTwice(t, j, i); }
        IncomparableNoDuplicates(s);
        NoDuplicatesCountsOnce(s, t[i]);
        assert false;
      } else {
        assert t[i] in multiset(s) && t[j] in multiset(s);
        var p :| 0 <= p < |s| && s[p] == t[i];
        var q :| 0 <= q < |s| && s[q] == t[j];
      }
    }
  }

  /** Pruning keeps every region inside the frame the input regions were inside. */
  lemma PrunedKeepsInside(input: seq<Rect>, output: seq<Rect>, outer: seq<Rect>)
    requires Pruned(input, output) && InsideSome(input, outer)
    ensures InsideSome(output, outer)
  {
    forall k | 0 <= k < |output| ensures exists m :: 0 <= m < |outer| && outer[m].Contains(output[k]) {
      assert output[k] in multiset(output);
      assert output[k] in multiset(input);
      assert output[k] in input;
      var p :| 0 <= p < |input| && input[p] == output[k];
      var m :| 0 <= m < |outer| && outer[m].Contains(input[p]);
      assert outer[m].Contains(output[k]);
    }
  }

  // ---------------------------------------------------------------------
  // Removing contained regions

  /** Every region before position `i` is incomparable with every other region. */
  ghost predicate SettledBefore(rects: seq<Rect>, i: int) {
    forall p, q :: 0 <= p < i && p < |rects| && 0 <= q < |rects| && p != q ==>
      !rects[p].Contains(rects[q]) && !rects[q].Contains(rects[p])
  }

  lemma RemoveKeepsAbsorbs(input: seq<Rect>, rects: seq<Rect>, k: int, c: int)
    requires 0 <= k < |rects| && 0 <= c < |rects| && c != k && rects[c].Contains(rects[k])
    requires Absorbs(rects, input)
    ensures Absorbs(rects[..k] + rects[k + 1..], input)
  {
    var rest := rects[..k] + rects[k + 1..];
    forall o | o in input ensures exists s :: s in rest && s.Contains(o) {
      var s :| s in rects && s.Contains(o);
      var p :| 0 <= p < |rects| && rects[p] == s;
      var w := if p == k then c else p;
      ContainsIsPreorder(rects[c], rects[k], o);
      assert rects[w].Contains(o);
      if w < k {
        assert rest[w] == rects[w];
      } else {
        assert rest[w - 1] == rects[w];
      }
    }
  }

  lemma RemoveKeepsSettled(rects: seq<Rect>, i: int, k: int)
    requires 0 <= i <= k < |rects| && SettledBefore(rects, i)
    ensures SettledBefore(rects[..k] + rects[k + 1..], i)
  {
    var rest := rects[..k] + rects[k + 1..];
    forall p, q | 0 <= p < i && 0 <= q < |rest| && p != q
      ensures !rest[p].Contains(rest[q]) && !rest[q].Contains(rest[p])
    {
      assert rest[p] == rects[p];
      var q' := if q < k then q else q + 1;
      assert rest[q] == rects[q'];
    }
  }

  lemma RemoveShrinks(rects: seq<Rect>, k: int, spaces: seq<Rect>)
    requires 0 <= k < |rects| && multiset(rects) <= multiset(spaces)
    ensures multiset(rects[..k] + rects[k + 1..]) <= multiset(spaces)
  {
    assert rects == rects[..k] + [rects[k]] + rects[k + 1..];
    assert multiset(rects[..k] + rects[k + 1..]) <= multiset(rects);
  }

  /** What holds of the list at the head of each pass of the outer scan. */
  ghost predicate ScanState(spaces: seq<Rect>, rects: seq<Rect>, i: int) {
    && 0 <= i <= |rects|
    && multiset(rects) <= multiset(spaces)
    && Absorbs(rects, spaces)
    && SettledBefore(rects, i)
  }

  /** What holds while `rects[i]` is compared with the regions after it. */
  ghost predicate CompareState(spaces: seq<Rect>, rects: seq<Rect>, i: int, j: int, rect: Rect) {
    && ScanState(spaces, rects, i)
    && 0 <= j && i + j <= |rects| && i < |rects| && rects[i] == rect
    && forall k :: i < k < i + j ==> !rects[k].Contains(rect) && !rect.Contains(rects[k])
  }

  lemma CompareStateIntro(spaces: seq<Rect>, rects: seq<Rect>, i: int, j: int, rect: Rect)
    requires ScanState(spaces, rects, i) && 0 <= j && i + j <= |rects| && i < |rects| && rects[i] == rect
    requires forall k :: i < k < i + j ==> !rects[k].Contains(rect) && !rect.Contains(rects[k])
    ensures CompareState(spaces, rects, i, j, rect)
  {
  }

  lemma ScanStarts(spaces: seq<Rect>)
    ensures ScanState(spaces, spaces, 0)
  {
    forall o | o in spaces ensures HeldBy(o, spaces) {
      var m :| 0 <= m < |spaces| && spaces[m] == o;
      ContainsIsPreorder(o, o, o);
    }
  }

  /** Dropping a region that another region contains keeps the scan's state. */
  lemma RemoveKeepsScan(spaces: seq<Rect>, rects: seq<Rect>, i: int, k: int, c: int, rest: seq<Rect>)
    requires ScanState(spaces, rects, i) && i <= k < |rects| && 0 <= c < |rects| && c != k
    requires rects[c].Contains(rects[k]) && rest == rects[..k] + rects[k + 1..]
    ensures ScanState(spaces, rest, i)
  {
    RemoveShrinks(rects, k, spaces);
    RemoveKeepsAbsorbs(spaces, rects, k, c);
    RemoveKeepsSettled(rects, i, k);
  }

  /** Removing the region under comparison, which a later one contains. */
  lemma DropCurrent(spaces: seq<Rect>, rects: seq<Rect>, i: int, j: int, rect: Rect)
    requires CompareState(spaces, rects, i, j, rect) && 0 < j && i + j < |rects|
    requires rects[i + j].Contains(rect)
    ensures ScanState(spaces, rects[..i] + rects[i + 1..], i)
  {
    RemoveKeepsScan(spaces, rects, i, i, i + j, rects[..i] + rects[i + 1..]);
  }

  /** Removing a later region that the region under comparison contains. */
  lemma DropLater(spaces: seq<Rect>, rects: seq<Rect>, i: int, j: int, rect: Rect)
    requires CompareState(spaces, rects, i, j, rect) && 0 < j && i + j < |rects|
    requires rect.Contains(rects[i + j])
    ensures CompareState(spaces, rects[..i + j] + rects[i + j + 1..], i, j, rect)
  {
    var rest := rects[..i + j] + rects[i + j + 1..];
    RemoveKeepsScan(spaces, rects, i, i + j, i, rest);
    assert |rest| == |rects| - 1 && rest[i] == rect;
    forall k | i < k < i + j ensures !rest[k].Contains(rect) && !rect.Contains(rest[k]) {
      assert rest[k] == rects[k];
    }
    CompareStateIntro(spaces, rest, i, j, rect);
  }

  /** Comparison done: `rects[i]` is settled too. */
  lemma CompareDone(spaces: seq<Rect>, rects: seq<Rect>, i: int, j: int, rect: Rect)
    requires CompareState(spaces, rects, i, j, rect) && i + j == |rects|
    ensures ScanState(spaces, rects, i + 1)
  {
    forall p, q | 0 <= p < i + 1 && 0 <= q < |rects| && p != q
      ensures !rects[p].Contains(rects[q]) && !rects[q].Contains(rects[p])
    {
      if p == i && q > i {
        assert i < q < i + j;
      }
    }
  }

  /** The state `Sweep(rects, i, j)` starts from, in a scan of `spaces`. */
  ghost predicate SweepState(spaces: seq<Rect>, rects: seq<Rect>, i: nat, j: nat) {
    if i < |rects| then CompareState(spaces, rects, i, j, rects[i]) else ScanState(spaces, rects, i)
  }

  /** Once every region is settled, no region contains another. */
  lemma ScanDone(spaces: seq<Rect>, rects: seq<Rect>)
    requires ScanState(spaces, rects, |rects|)
    ensures Incomparable(rects)
  {
    forall p, q | 0 <= p < |rects| && 0 <= q < |rects| && p != q ensures !rects[p].Contains(rects[q]) {
    }
  }

  /** The scan keeps only regions of its input, no two nested, and loses none of its area. */
  lemma {:induction false} SweepKeeps(spaces: seq<Rect>, rects: seq<Rect>, i: nat, j: nat)
    requires SweepState(spaces, rects, i, j)
    ensures multiset(Sweep(rects, i, j)) <= multiset(spaces)
    ensures Incomparable(Sweep(rects, i, j))
    ensures Absorbs(Sweep(rects, i, j), spaces)
    decreases |rects| - i, |rects| - i - j
  {
    if i >= |rects| {
      ScanDone(spaces, rects);
    } else if i + j >= |rects| {
      CompareDone(spaces, rects, i, j, rects[i]);
      SweepKeeps(spaces, rects, i + 1, 0);
    } else if j == 0 {
      SweepKeeps(spaces, rects, i, 1);
    } else if rects[i + j].Contains(rects[i]) {
      DropCurrent(spaces, rects, i, j, rects[i]);
      SweepKeeps(spaces, rects[..i] + rects[i + 1..], i, 0);
    } else if rects[i].Contains(rects[i + j]) {
      DropLater(spaces, rects, i, j, rects[i]);
      SweepKeeps(spaces, rects[..i + j] + rects[i + j + 1..], i, j);
    } else {
      SweepKeeps(spaces, rects, i, j + 1);
    }
  }

  /** Absorption only depends on which regions are present. */
  lemma AbsorbsPermutation(kept: seq<Rect>, sorted: seq<Rect>, input: seq<Rect>)
    requires Absorbs(kept, input) && multiset(sorted) == multiset(kept)
    ensures Absorbs(sorted, input)
  {
    forall o | o in input ensures HeldBy(o, sorted) {
      var m :| 0 <= m < |kept| && kept[m].Contains(o);
      assert kept[m] in multiset(sorted);
      var n :| 0 <= n < |sorted| && sorted[n] == kept[m];
    }
  }

  /**
   * After `mergeAndSortSpaces` every region was in the list before, none lies
   * inside another, the list is in (y, x) order, and every region of the
   * list before lies inside one that is left.
   */
  lemma MergeAndSortPrunes(spaces: seq<Rect>)
    ensures Pruned(spaces, MergeAndSort(spaces))
  {
    var kept := Sweep(spaces, 0, 0);
    ScanStarts(spaces);
    SweepKeeps(spaces, spaces, 0, 0);
    SortByYXSortsAndPermutes(kept);
    IncomparablePermutation(kept, SortByYX(kept));
    AbsorbsPermutation(kept, SortByYX(kept), spaces);
  }

  /**
   * The redundant-space removal of `mergeAndSortSpaces`: each region in turn is
   * compared with the regions after it; when one of those contains it, it is
   * removed and the scan goes on at the same index, and when it contains one of
   * them, that one is removed.
   */
  method RemoveContained(spaces: seq<Rect>) returns (kept: seq<Rect>)
    ensures kept == Sweep(spaces, 0, 0)
    ensures multiset(kept) <= multiset(spaces)
    ensures Incomparable(kept)
    ensures Absorbs(kept, spaces)
  {
    var rects := spaces;
    var i := 0;
    label RectLoop:
    while i < |rects|
      invariant 0 <= i <= |rects|
      invariant Sweep(rects, i, 0) == Sweep(spaces, 0, 0)
      decreases |rects| - i
    {
      var rect := rects[i];
      var j := 0;
      ghost var rects0 := rects;
      while i + j < |rects|
        invariant 0 <= j && i + j <= |rects| && i < |rects| && rects[i] == rect
        invariant Sweep(rects, i, j) == Sweep(spaces, 0, 0)
        invariant |rects| <= |rects0|
        decreases |rects| - (i + j)
      {
        var compareRect := rects[i + j];
        if j == 0 {
          // compareRect is rect itself
          j := j + 1;
        } else if compareRect.Contains(rect) {
          rects := rects[..i] + rects[i + 1..];
          continue RectLoop;
        } else if rect.Contains(compareRect) {
          rects := rects[..i + j] + rects[i + j + 1..];
        } else {
          j := j + 1;
        }
      }
      i := i + 1;
    }
    kept := rects;
    ScanStarts(spaces);
    SweepKeeps(spaces, spaces, 0, 0);
  }

  // ---------------------------------------------------------------------
  // Facts about a resplit

  lemma InsideSomeTransitive(a: seq<Rect>, b: seq<Rect>, c: seq<Rect>)
    requires InsideSome(a, b) && InsideSome(b, c)
    ensures InsideSome(a, c)
  {
    forall k | 0 <= k < |a| ensures HeldBy(a[k], c) {
      var m :| 0 <= m < |b| && b[m].Contains(a[k]);
      var n :| 0 <= n < |c| && c[n].Contains(b[m]);
      ContainsIsPreorder(c[n], b[m], a[k]);
    }
  }

  /**
   * After a resplit no region overlaps the placed rectangle, and every region
   * lies inside a region of the list before; so whatever the old regions
   * missed, the new ones miss too.
   */
  /** Whatever the free list was, `updateSpacesWithPlaced` leaves it tidy. */
  lemma RespaceTidy(before: seq<Rect>, placed: Rect)
    ensures Tidy(Respace(before, placed))
  {
    MergeAndSortPrunes(SplitAll(before, placed));
  }

  lemma RespaceAvoids(before: seq<Rect>, placed: Rect, other: Rect)
    ensures Avoids(Respace(before, placed), placed)
    ensures InsideSome(Respace(before, placed), before)
    ensures Avoids(before, other) ==> Avoids(Respace(before, placed), other)
  {
    var pieces := SplitAll(before, placed);
    var after := Respace(before, placed);
    MergeAndSortPrunes(pieces);
    forall k | 0 <= k < |after| ensures !after[k].Overlaps(placed) {
      assert after[k] in multiset(pieces);
    }
    PrunedKeepsInside(pieces, after, before);
    if Avoids(before, other) {
      forall k | 0 <= k < |after| ensures !after[k].Overlaps(other) {
        var m :| 0 <= m < |before| && before[m].Contains(after[k]);
        ContainedMisses(before[m], after[k], other);
      }
    }
  }

  /** Every region after a resplit is a piece of some region before it. */
  lemma RespaceIsPieces(before: seq<Rect>, placed: Rect)
    ensures forall k :: 0 <= k < |Respace(before, placed)| ==> PieceOf(Respace(before, placed)[k], before, placed)
  {
    var pieces := SplitAll(before, placed);
    var after := Respace(before, placed);
    MergeAndSortPrunes(pieces);
    forall k | 0 <= k < |after| ensures PieceOf(after[k], before, placed) {
      assert after[k] in multiset(pieces);
      SplitAllIsPieces(before, placed, after[k]);
    }
  }

  /** A resplit loses no free area outside the closed placed rectangle. */
  lemma RespaceCovers(before: seq<Rect>, placed: Rect, px: real, py: real)
    requires CoversPoint(before, px, py)
    ensures placed.ContainsPoint(px, py) || CoversPoint(Respace(before, placed), px, py)
  {
    if !placed.ContainsPoint(px, py) {
      var pieces := SplitAll(before, placed);
      var after := Respace(before, placed);
      MergeAndSortPrunes(pieces);
      SplitAllCovers(before, placed, px, py);
      var k :| 0 <= k < |pieces| && pieces[k].ContainsPoint(px, py);
      assert pieces[k] in pieces;
      var m :| 0 <= m < |after| && after[m].Contains(pieces[k]);
      ContainsCoversPoints(after[m], pieces[k], px, py);
    }
  }
}
