# Masonry packer and colour codes, in Dafny

This project models two parts of the TypeScript application `coloney`.

The first is the masonry bin packer of `src/components/masonry/index.ts`:
- the rectangle value `Rect`: containment, overlap, the guillotine split of a free region around a placed rectangle, capacity, merge, move and copy;
- the `Packer`: a list of free regions (`spaces`) and a list of placed items (`rects`);
- that list is split after every placement and pruned of regions contained in another. The rest is sorted by (y, x);
- first-fit packing (`pack`), settling items upward in their column (`alignColumn`), and the full passes `relayout` and `alignments`;
- the snap targets a drag uses (`updateShiftTargetsWithGrid`, `updateShiftTargetPoints`, `shift`) and the drag step `push`.

The second is the colour value of `src/lib/Color.ts`:
- its constructor and `fromColorCode`, which reads a `#rrggbb` code;
- `toHexString` and the CSS string `rgba`.

That needs models of the JavaScript number and text conversions they use: `parseInt(s, 16)` as section 19.2.5 of ECMA-262 defines it, `Number.prototype.toString` in base 16 and base 10, and `& 255`.

Files, one module each:
- `wrappers.dfy`: `Option` and `Result`.
- `geometry.dfy`: `Rect`.
- `rect_order.dfy`: the (y, x) comparator and the stable sort.
- `free_space.dfy`: the split of a whole free list and the pruning scan of `mergeAndSortSpaces`.
- `layout.dfy`: the placement rules and the passes over all items, as functions.
- `snapping.dfy`: the snap targets, nearest-target search, JavaScript rounding.
- `packer.dfy`: the class `Packer`. Its methods are proved against the functions above.
- `numerals.dfy`: `parseInt`, `toString`, `String` of a decimal.
- `color.dfy`: the colour.

How the model represents the source:
- Coordinates are exact `real`s. An item's `element` is an opaque natural-number id.
- Source identity (`===` on items, index.ts:312, 368, 420) is equality of that id. `Packer.Valid()` keeps every item's id distinct.
- `Packer.Valid()` also keeps the free list tidy: no region inside another, sorted by (y, x). And it keeps a ghost set `fitted` of the items a region took since the last reset: they overlap no other such item and no free region. `append` adds to that set, and `relayout` rebuilds it. `alignColumn` lets an item overlap the region below by up to its 0.01 tolerance, so `alignments` and `push` empty the set.
- Identity on free regions (index.ts:228) is position in the list. That holds while the list never holds one object twice, which is true of every list the packer builds itself: `reset` makes one region, and `getMaximalFreeRects` returns its own region or fresh ones.
- A rectangle the source moves in place is a new value. The `Packer` writes it back into `rects` at the item with the same id.
- `Array.prototype.sort` is a stable insertion sort.
- The `columnPack` closure of `updateShiftTargetPoints` does what `alignColumn` does, so both use one definition.
- The colour is a datatype value, because nothing changes a colour after construction. Components are integers. The alpha is an exact decimal `units / 10^scale`.

`push` does not rebuild the snap targets: its call to `updateShiftTargetPoints` is commented out (index.ts:413). So `shift` scans the targets built last, which after construction is the grid, and the model does the same.

## Model

| member | source | states |
|---|---|---|
| Geometry.Rect.Contains | src/components/masonry/index.ts:42-50 | definition; see Geometry.ContainsPointIsInclusive, Geometry.ContainsIsPreorder, Geometry.ContainsCoversPoints |
| Geometry.Rect.Overlaps | src/components/masonry/index.ts:55-60 | definition; see Geometry.OverlapsIsSymmetric, Geometry.SharedEdgeIsNoOverlap |
| Geometry.Rect.CanFit | src/components/masonry/index.ts:130-132 | definition; see Geometry.FitAtCornerIsContained, Geometry.CanFitIgnoresPosition |
| Geometry.Rect.GetMaximalFreeRects | src/components/masonry/index.ts:62-116 | at most four pieces; exactly `[this]` when the placed rectangle does not overlap; every piece lies inside the region and misses the placed rectangle; when it overlaps, every piece is a fresh region spanning the full width or height with a positive extent; pieces of a region of positive size have positive size |
| Geometry.SplitCoversRest | src/components/masonry/index.ts:62-116 | the split loses no free area: a point of the region outside the closed placed rectangle lies in one of the pieces |
| Geometry.ContainsPointIsInclusive | src/components/masonry/index.ts:42-50 | containment of a zero-size point is inclusion on all four edges |
| Geometry.ContainsIsPreorder | src/components/masonry/index.ts:42-50 | containment is reflexive and transitive |
| Geometry.ContainsCoversPoints | src/components/masonry/index.ts:42-50 | a contained rectangle's points are points of the container |
| Geometry.OverlapsIsSymmetric | src/components/masonry/index.ts:55-60 | overlap is symmetric |
| Geometry.SharedEdgeIsNoOverlap | src/components/masonry/index.ts:55-60 | rectangles that only share an edge do not overlap |
| Geometry.ContainedMisses | src/components/masonry/index.ts:42-60 | a rectangle inside one that misses a third misses it too |
| Geometry.FitAtCornerIsContained | src/components/masonry/index.ts:130-132 | a rectangle that fits, put at a region's top-left corner, lies inside the region |
| Geometry.CanFitIgnoresPosition | src/components/masonry/index.ts:130-132 | the capacity test does not depend on either position |
| Geometry.Rect.Translate | src/components/masonry/index.ts:118-122 | moves by exactly (dx, dy); size and element kept |
| Geometry.TranslateKeepsRelations | src/components/masonry/index.ts:118-122 | moving two rectangles alike keeps overlap and containment between them |
| Geometry.Rect.Location | src/components/masonry/index.ts:124-128 | the top-left corner becomes (x, y); size and element kept |
| Geometry.TranslateIsRelativeLocation | src/components/masonry/index.ts:118-128 | translating is locating at the shifted corner, and translating back restores the rectangle |
| Geometry.Rect.Merge | src/components/masonry/index.ts:134-141 | the merge encloses both rectangles and stands for no element |
| Geometry.MergeIsLeast | src/components/masonry/index.ts:134-141 | any rectangle enclosing both encloses the merge |
| Geometry.Rect.Clone | src/components/masonry/index.ts:143-145 | the copy covers the same area and stands for no element |
| RectOrder.SortByYXSortsAndPermutes | src/components/masonry/index.ts:332-335 | the sort orders by y, then x, and is a permutation |
| RectOrder.SortByYXOfSorted | src/components/masonry/index.ts:332-335 | stability: a list already in order is left exactly as it is |
| RectOrder.SortByYXKeepsNoDuplicates | src/components/masonry/index.ts:332-335 | sorting a list without repeats gives one without repeats |
| FreeSpace.Sweep | src/components/masonry/index.ts:217-250 | definition of the splice-and-restart scan; see FreeSpace.RemoveContained, FreeSpace.SweepKeeps |
| FreeSpace.MergeAndSort | src/components/masonry/index.ts:215-253 | definition; see FreeSpace.MergeAndSortPrunes |
| FreeSpace.Respace | src/components/masonry/index.ts:204-213 | definition; see FreeSpace.RespaceAvoids, FreeSpace.RespaceIsPieces, FreeSpace.RespaceCovers, FreeSpace.RespaceTidy |
| FreeSpace.SplitAll | src/components/masonry/index.ts:204-213 | the pieces of all regions miss the placed rectangle, and each lies inside some original region |
| FreeSpace.SplitAllIsPieces | src/components/masonry/index.ts:204-213 | every region of the split list is a piece of some original region |
| FreeSpace.SplitAllCovers | src/components/masonry/index.ts:204-213 | a covered point outside the placed rectangle stays covered after the split |
| FreeSpace.RemoveContained | src/components/masonry/index.ts:215-250 | the splice-and-restart scan drops regions only: what it keeps came from the input, no kept region contains another, and every input region lies inside a kept one |
| FreeSpace.SweepKeeps | src/components/masonry/index.ts:215-250 | the same three facts about the scan, from any state its loops reach |
| FreeSpace.IncomparablePermutation | src/components/masonry/index.ts:215-253 | reordering a list in which no region contains another keeps that property |
| FreeSpace.MergeAndSortPrunes | src/components/masonry/index.ts:215-253 | after `mergeAndSortSpaces` every survivor came from the input, none contains another, the list is sorted by (y, x), and every input region lies inside a survivor |
| FreeSpace.PrunedKeepsInside | src/components/masonry/index.ts:215-253 | pruning keeps every region inside whatever region held the input's |
| FreeSpace.RespaceAvoids | src/components/masonry/index.ts:204-213 | after `updateSpacesWithPlaced(r)` no region overlaps `r` or anything the old list already missed, and each region lies inside an old one |
| FreeSpace.RespaceIsPieces | src/components/masonry/index.ts:204-213 | every region after `updateSpacesWithPlaced(r)` is an old region disjoint from `r` or a piece of one |
| FreeSpace.RespaceCovers | src/components/masonry/index.ts:204-213 | a point of the old free area is in `r` or still free |
| FreeSpace.RespaceTidy | src/components/masonry/index.ts:204-253 | whatever the free list was, after `updateSpacesWithPlaced` no region contains another and the list is sorted by (y, x) |
| Layout.FirstFit | src/components/masonry/index.ts:192-201 | finds the first region in list order that the rectangle fits in, or none fits |
| Layout.PackPosition | src/components/masonry/index.ts:192-201 | definition; see Layout.PackPlaces |
| Layout.PackPlaces | src/components/masonry/index.ts:192-201 | a packed rectangle keeps its size and element, lies inside the first region that fits it, and the new free list misses it; when none fits, neither the rectangle nor the free list changes |
| Layout.FirstColumn | src/components/masonry/index.ts:344-358 | finds the first region spanning the item's column with enough height, up to 0.01, or none qualifies |
| Layout.AlignPosition | src/components/masonry/index.ts:344-358 | definition; see Layout.AlignPlaces |
| Layout.AlignPlaces | src/components/masonry/index.ts:344-358 | aligning changes only y; the aligned item, less 0.01, lies inside the chosen region and the new free list misses it; with no region nothing changes |
| Layout.PackAll | src/components/masonry/index.ts:337-342 | packing every item keeps the number, sizes and elements of the items |
| Layout.PackAllIsPacking | src/components/masonry/index.ts:337-342 | every item packed lies inside the frame and overlaps neither the items placed before the pass nor those packed earlier in it |
| Layout.RelayoutIsPacking | src/components/masonry/index.ts:337-342 | after `relayout` every item that found room lies inside the container, and no two such items overlap |
| Layout.AlignAllMovesVertically | src/components/masonry/index.ts:360-374 | the aligning pass moves items only vertically and leaves the skipped item where it was |
| Layout.AlignAllIsPacking | src/components/masonry/index.ts:360-374 | every item aligned, less 0.01, lies inside the frame and overlaps neither the placed items nor those aligned earlier |
| Layout.Settle | src/components/masonry/index.ts:360-374 | definition; see Layout.SettleMovesVertically, Layout.SettlePacks, Layout.SettleIsPacking, Layout.SettleTidy |
| Layout.SettleMovesVertically | src/components/masonry/index.ts:360-374 | `alignments(ignore)` moves items only vertically and never moves the item standing for `ignore` |
| Layout.SettlePacks | src/components/masonry/index.ts:360-374 | `alignments(ignore)` from a fresh free list is a packing around the ignored item, up to 0.01 |
| Layout.SettleIsPacking | src/components/masonry/index.ts:360-374 | after `alignments(ignore)`, every item that found a column, less 0.01, lies inside the container and misses the ignored item, and misses every item aligned before it |
| Layout.SpacesAround | src/components/masonry/index.ts:417-428 | definition; see Layout.SpacesAroundAvoids, Layout.SpacesAroundTidy |
| Layout.SpacesAroundAvoids | src/components/masonry/index.ts:417-428 | the free list rebuilt in `push` misses every item except the moved one, and lies inside the container |
| Layout.SortKeepsTagged | src/components/masonry/index.ts:332-335 | sorting keeps the items' elements distinct |
| Layout.TaggedPermutation | src/components/masonry/index.ts:332-335 | any reordering of items with distinct elements keeps them distinct |
| Layout.PlacingKeepsTidy | src/components/masonry/index.ts:204-253 | `pack` and `alignColumn`, which both end in `updateSpacesWithPlaced`, keep the free list free of contained regions and sorted by (y, x) |
| Layout.PackAllTidy | src/components/masonry/index.ts:337-342 | the pass of `relayout` keeps the free list tidy |
| Layout.AlignAllTidy | src/components/masonry/index.ts:360-374 | the pass of `alignments` keeps the free list tidy |
| Layout.SettleTidy | src/components/masonry/index.ts:360-374 | `alignments(ignore)` leaves a tidy free list |
| Layout.SpacesAroundTidy | src/components/masonry/index.ts:417-428 | the free list `push` rebuilds is tidy |
| Layout.PackKeepsApart | src/components/masonry/index.ts:186-201 | when a region takes one more item, it overlaps none of the items packed before, and the new free list misses it and them; when none takes it the free list stays |
| Layout.PackAllAvoids | src/components/masonry/index.ts:337-342 | after the packing pass the free list misses the items placed before it and every item a region took |
| Layout.RelayoutApart | src/components/masonry/index.ts:337-342 | after `relayout` the items a region took lie in the container, none overlaps another, and the free list misses them all |
| Snapping.FloorCeilRoundBounds | src/components/masonry/index.ts:297-300 | `Math.floor`, `Math.ceil` and `Math.round` lie within their usual distance of the argument |
| Snapping.RoundOfHalf | src/components/masonry/index.ts:323 | `Math.round` rounds halves up |
| Snapping.Nearest | src/components/masonry/index.ts:390-405 | the chosen target is no farther than any other, and strictly nearer than every target before it, so the first of equally near ones wins |
| Snapping.SnapTarget | src/components/masonry/index.ts:390-405 | the origin for no targets; otherwise a listed target at least as near as every other |
| Snapping.AddAll | src/components/masonry/index.ts:266-278 | definition; see Snapping.AddAllSpec, Snapping.AddAllConcat |
| Snapping.AddAllSpec | src/components/masonry/index.ts:266-278 | the target list keeps the points it had in front, lists each point once, never takes a point right of the bound unless x = 0, takes every admitted candidate and nothing else, and appends the new points in the order of their first occurrence among the candidates |
| Snapping.AddAllConcat | src/components/masonry/index.ts:266-278 | adding two runs of candidates is adding one after the other |
| Snapping.TopRow | src/components/masonry/index.ts:302-305 | the top row holds one point per whole segment, at x = i * segment, y = 0 |
| Snapping.ItemTargets | src/components/masonry/index.ts:316-328 | an item offers its top-left and bottom-left corners, then `Math.round(width / segment) - 1` points along its bottom, none when that rounds below 1, the k-th at k segments from its left edge |
| Snapping.RowCountCounts | src/components/masonry/index.ts:382 | the loop `j < height / segmentHeight` runs exactly `RowCount` times |
| Snapping.GridRow | src/components/masonry/index.ts:383-386 | row j holds the points (i * segment, j * segmentHeight), one per column |
| Snapping.GridPoints | src/components/masonry/index.ts:376-388 | definition; see Snapping.GridPointsHold, Snapping.GridPointsRowMajor |
| Snapping.GridPointsHold | src/components/masonry/index.ts:376-388 | the grid holds rows * cols points: every grid point and nothing else |
| Snapping.GridPointsRowMajor | src/components/masonry/index.ts:376-388 | the grid is row by row: the point of column i in row j is at position j * cols + i, which decides which of equally near grid points `shift` picks |
| Packing.Packer.constructor | src/components/masonry/index.ts:168-173 | the free list is the container, no items, and the targets are the segment grid; the invariant holds |
| Packing.Packer.Reset | src/components/masonry/index.ts:175-184 | the free list becomes the container; items and targets stay; no item counts as fitted, since the container overlaps them all; the invariant is kept |
| Packing.Packer.Append | src/components/masonry/index.ts:186-189 | the item is added at the end at its packed position and the free list is split around it; it joins the fitted items when a region took it; the invariant is kept, so the fitted items stay pairwise disjoint and missed by the free list |
| Packing.Packer.Pack | src/components/masonry/index.ts:192-201 | the item goes to the first region that fits it and the free list is rebuilt around it; otherwise nothing changes |
| Packing.Packer.UpdateSpacesWithPlaced | src/components/masonry/index.ts:204-213 | the free list becomes every region split around the item, then merged and sorted |
| Packing.Packer.MergeAndSortSpaces | src/components/masonry/index.ts:215-253 | the free list is pruned of contained regions and sorted by (y, x) |
| Packing.Packer.AddSpace | src/components/masonry/index.ts:256-260 | the region joins the free list, which is then merged and sorted |
| Packing.Packer.SortItems | src/components/masonry/index.ts:332-335 | the items are stably sorted by (y, x) in place and returned |
| Packing.Packer.PackEach | src/components/masonry/index.ts:339-341 | the loop of `relayout` packs the items in list order |
| Packing.Packer.Relayout | src/components/masonry/index.ts:337-342 | the items become the first-fit packing of the sorted items into an empty container, and the fitted items are those a region took; the invariant is kept |
| Packing.Packer.AlignColumn | src/components/masonry/index.ts:344-358 | the item moves to the top of the first region holding its column and the free list is rebuilt around it; otherwise nothing changes |
| Packing.Packer.AlignEach | src/components/masonry/index.ts:366-372 | the loop of `alignments` aligns the items in order, passing over the ignored one |
| Packing.Packer.Alignments | src/components/masonry/index.ts:360-374 | the ignored item is placed, then every other item is aligned in (y, x) order into an empty container; no item counts as fitted; the invariant is kept |
| Packing.Packer.UpdateShiftTargetsWithGrid | src/components/masonry/index.ts:376-388 | the targets become the grid of whole segments across and `segmentHeight` steps down |
| Packing.Packer.AddShiftTarget | src/components/masonry/index.ts:266-278 | a point is recorded once, and only within the bound or at x = 0 |
| Packing.Packer.AddTopTargets | src/components/masonry/index.ts:302-305 | the top-row loop adds the admitted top-row points |
| Packing.Packer.AddItemTargets | src/components/masonry/index.ts:316-328 | one item's corners and bottom segment points are added, each at most once |
| Packing.Packer.AddBottomTargets | src/components/masonry/index.ts:323-328 | the segment loop along an item's bottom edge |
| Packing.Packer.AlignAndTargetEach | src/components/masonry/index.ts:311-329 | the item loop aligns each item except the dragged one and adds its targets after it moved |
| Packing.Packer.UpdateShiftTargetPoints | src/components/masonry/index.ts:262-330 | the items become `alignments` around the dragged item, and the targets the deduplicated top row then every other item's targets; no item counts as fitted; the invariant is kept |
| Packing.Packer.Shift | src/components/masonry/index.ts:390-408 | the item moves to the nearest target, the first of equally near ones, or to the origin with no targets; its size is kept |
| Packing.Packer.UpdateSpaces | src/components/masonry/index.ts:417-428 | the free list becomes a fresh container split around every item except the moved one |
| Packing.Packer.Push | src/components/masonry/index.ts:410-437 | snap to the nearest target, re-align the others around it, rebuild the free list without it, then settle it in its column; no item counts as fitted; the invariant is kept |
| Numerals.NumberToString | src/lib/Color.ts:129 | definition; see Numerals.NatDigitsRoundTrip, Numerals.ParseIntHexOfNumber, Numerals.ReadNumberToString |
| Numerals.NatDigitsRoundTrip | src/lib/Color.ts:129 | the digits `toString` writes read back as the number, are digits of the radix, and start with `0` only for zero |
| Numerals.NatDigitsLength | src/lib/Color.ts:129 | one digit exactly below the radix, two from the radix up to its square |
| Numerals.NumberToStringChars | src/lib/Color.ts:129 | `toString` writes only digits and a leading minus sign |
| Numerals.TrimStart | src/lib/Color.ts:118-120 | what `parseInt` reads next is not white space |
| Numerals.TrimStartIsSuffix | src/lib/Color.ts:118-120 | skipping white space leaves the end of the text, and every character skipped is white space |
| Numerals.DigitPrefixIsLongest | src/lib/Color.ts:118-120 | `parseInt` reads the longest run of digits at the front |
| Numerals.ParseIntHex | src/lib/Color.ts:118-120 | definition; see Numerals.ParseIntHexOfPair, Numerals.ParseIntHexOfNumber |
| Numerals.ParseIntHexOfPair | src/lib/Color.ts:118-120 | two hexadecimal digits of either case read as their value |
| Numerals.ParseIntHexOfNumber | src/lib/Color.ts:118-130 | `parseInt(n.toString(16), 16)` is `n` for every integer |
| Numerals.Normalize | src/lib/Color.ts:47 | the alpha is written without trailing fraction zeros |
| Numerals.NormalizeKeepsValue | src/lib/Color.ts:47 | dropping those zeros keeps the value |
| Numerals.ShiftFraction | src/lib/Color.ts:47 | the whole part and the fraction digits together make up the number again |
| Numerals.ReadNumberToString | src/lib/Color.ts:47 | an integer written with `String` reads back as that integer |
| Numerals.ReadNumeral | src/lib/Color.ts:47 | a written decimal reads back as itself |
| Numerals.FormatDecimal | src/lib/Color.ts:47 | definition; see Numerals.FormatDecimalRoundTrip |
| Numerals.FormatDecimalRoundTrip | src/lib/Color.ts:47 | `String` of a decimal reads back as its canonical form, which has the same value |
| Colors.OrOne | src/lib/Color.ts:83 | `a || 1`: a zero alpha becomes 1 and any other alpha stays |
| Colors.OrOneIdempotent | src/lib/Color.ts:121 | defaulting in `fromColorCode` and again in the constructor is defaulting once |
| Colors.Create | src/lib/Color.ts:80-85 | r, g and b are kept as given, the alpha is defaulted, and `hex` is the colour's own hexadecimal code |
| Colors.ZeroAlphaIsOne | src/lib/Color.ts:114-123 | a zero alpha gives a colour with alpha 1, through the constructor and through `fromColorCode` of every 7-character code |
| Colors.Mask8 | src/lib/Color.ts:118-120 | `& 255` gives 0..255: 0 for `NaN`, and otherwise the value modulo 256 |
| Colors.FromColorCode | src/lib/Color.ts:114-123 | refused with the source's message exactly when the code is not 7 characters; otherwise a well-formed colour with components in 0..255 and the alpha defaulted |
| Colors.FromColorCodeReadsPairs | src/lib/Color.ts:118-121 | for hexadecimal digits, each component is the value of its pair of characters, and the alpha is defaulted |
| Colors.Color.ToHexString | src/lib/Color.ts:128-130 | definition; see Colors.HexStringLength, Colors.HexRoundTrip, Colors.CodeRoundTrip |
| Colors.HexStringLength | src/lib/Color.ts:128-130 | for components in 0..255 the code has 7 characters exactly when every component is at least 16 |
| Colors.HexRoundTrip | src/lib/Color.ts:114-130 | reading back a colour's code gives that colour exactly when every component is at least 16 |
| Colors.CodeRoundTrip | src/lib/Color.ts:114-130 | a code of hexadecimal digits is written back unchanged exactly when it starts with `#`, is lowercase, and no pair starts with `0` |
| Colors.Color.Rgba | src/lib/Color.ts:46-48 | definition; see Colors.RgbaFields, Colors.RgbaRoundTrip |
| Colors.RgbaFields | src/lib/Color.ts:46-48 | the CSS string is `rgba(` and the four numbers, comma-separated, then `)` |
| Colors.RgbaRoundTrip | src/lib/Color.ts:46-48 | the CSS string reads back as r, g, b and the alpha in canonical form, with the alpha's value |

## Left out

- Floating point: coordinates and the alpha are exact, and `NaN` and `Infinity` are not modelled. The 0.01 column tolerance is kept as the constant it is.
- Text lengths are counted in characters, not in UTF-16 code units.
- Aliasing: a rectangle object shared by several lists becomes a value plus an element id. Two different items standing for one element cannot be told apart.
- Packing.Packer.Append: requires an item for an element not yet listed. The source would add the same object twice; the model needs distinct elements.
- A zero segment length: the snap targets divide by it, so the methods that use it require it to be nonzero.
- The `Masonry` class (index.ts:477-667) and the debug drawers (index.ts:440-475, and the call at 407): DOM and timers.
- The global `_` counter and `console.log` (index.ts:148, 430, 436): diagnostics only.
- `Color.fromHsv` (Color.ts:87-112): floating-point colour-space arithmetic.
- `Math.sqrt` in `shift`: squared distances are compared, which orders targets the same way.
- Target keys: the source keys a target by the string `x + "," + y`. The model keys it by the point, which is the same while one coordinate never prints like another.
- Idempotence of `relayout` is not proved.
- RectOrder.SortByYXOfSorted: stability of the sort is stated only for input that is already sorted.
- Numerals.FormatDecimal: exponent notation, which `String` uses below 1e-6 and from 1e21, is not modelled. Every decimal is written in plain notation.
- Numerals.NumberToString: base-10 exponent notation is not modelled. `String` writes an integer of magnitude 10^21 or more as, say, `1e+21`, while the model writes every digit.
- Colors.Color.Rgba: r, g and b of magnitude 10^21 or more are written with every digit, not in the exponent notation `String` uses. Components read from a colour code are below 256.
- Packing.Packer.AddSpace: a region already in the free list is a second copy of one object in the source. The identity test `compareRect === rect` then skips the pair and keeps both copies, while the model drops one because the region contains itself. No code in the packer calls `addSpace`.
- Colors.Create: r, g and b are integers. The source takes any number, and `fromHsv` rounds its results before calling it.
- Colors.OrOne: a `NaN` alpha, also falsy in the source, is not representable.
- Packing.Packer.Alignments: the aligned items are not added to the fitted set, because an aligned item may overlap the region below it by up to 0.01. Layout.SettleIsPacking states the packing with that tolerance.
- Packing.Packer.Push: no lemma states that the moved item ends up clear of the others. Its contract gives the new state, and the lemmas about `alignments` and the rebuilt free list cover the parts.
