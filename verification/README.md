# WocViz layout, modelled in Dafny

WocViz draws a set of "blocks" (images with coloured marker dots) on a canvas.
It spreads the blocks over rows of random length, and it connects the dots of
each dot type with one curved line. This project models the layout core of the
`WocViz` class:

- `addObjects` creates one block per record and keeps the running maximum block
  width, rounded after every step (`maxWidthBlock`).
- `calculatePositionBlocks` works out how many of the widest blocks fit in a row
  (`maxPerRow`). It redraws the random row partition only when that capacity was
  unset or has changed. It then walks the rows and their columns, giving each
  block in turn a jittered point in its column (`calculatePoint`), and finally
  regenerates the lines.
- `generateLines` collects the dots of all blocks at their global points, groups
  them by `dotType`, and makes one line per group: its points, its stroke and
  colour, and one curve segment between neighbouring points.
- `onResize` takes the new viewport width and lays the blocks out again.

The project has four modules:

- `Maths` defines the rounding and random helpers.
- `Layout` holds the capacity, the row partition, the row-major slots and the
  point of a block in its slot.
- `Lines` holds the grouping of dots into lines.
- `Viz` holds the two classes. `Block` has a mutable position. `WocViz` has the
  fields `wr`, `blocks`, `maxWidthBlock`, `maxPerRow`, `rows` and `lines`, and
  its methods update these fields in place.

Randomness is passed in as data. Each call of `random` is given its draw as a
fraction `t` in [0, 1] of the requested range. `Draws` bundles the draws of one
layout pass: one per row size, and one triple per placed block. Every property
below therefore holds for every outcome of the random source.

The helpers `round`, `random`, `roundRandom` and `addCurveSegment` come from
`src/utils/Maths.js`, which is not part of this model. They are defined here as
follows:

- `round` goes to the nearest integer, with halves rounding upward, as
  `Math.round` does.
- `random(a, b)` is `a + t * (b - a)`, so it lies between `a` and `b` in either
  order.
- `random(x)` is `random(0, x)`.
- `roundRandom(a, b)` is `round(random(a, b))`.

`Block` (`src/components/block/Block.js`) is not part of this model either. A
block is taken to have a fixed `width` and `dots`, and a position `x`, `y`. A
dot's `getGlobalPoint()` is taken to be the block's position plus the dot's
offset within the block.

The capacity `round(wr / (maxWidthBlock * k))` divides by zero when no block is
at least half a unit wide. That happens with an empty block list, where the
result (Infinity or NaN) draws no row at all, just as an unset capacity would.
The model therefore stores 0 ("unset") for it (`Layout.Capacity`).

## Model

| member | source | states |
|---|---|---|
| Maths.Round | src/WocViz.js:115 | `round(x)` lies within half a unit of `x`. |
| Maths.RoundMaxAbsorb | src/WocViz.js:115 | Rounding the accumulator of a running maximum before the next step changes nothing: `round(max(round(m), w)) == round(max(m, w))`. |
| Maths.Random | src/WocViz.js:127-128 | The definition of `random(a, b)`: `a` plus the draw's fraction of the distance to `b`. `Maths.RandomBetween` bounds it. |
| Maths.RandomBetween | src/WocViz.js:127-128 | Whatever the draw, `random(a, b)` lies between `a` and `b`, in either order. |
| Maths.RoundRandom | src/WocViz.js:151 | `roundRandom(lo, hi)` lies in `[lo, hi]` whenever `lo <= hi`. |
| Layout.ColumnWidth | src/WocViz.js:136 | The divisor of the capacity: the widest block's width (mobile), or 1.5 times it (desktop). |
| Layout.MaxPerRowFor | src/WocViz.js:136 | The capacity is within half a unit of the viewport width divided by the column width, which is the widest block (mobile) or 1.5 times it (desktop). |
| Layout.Capacity | src/WocViz.js:136-138 | A row can hold a block (capacity at least 1) exactly when `maxWidthBlock` is at least 1 (some block is at least half a unit wide) and the viewport is at least half a column wide. In that case the capacity is within half a unit of the viewport width divided by the column width. This is the condition the layout methods require when there are blocks. |
| Layout.MaxPerRowExample | src/WocViz.js:136 | A 200-wide desktop viewport holds 3 blocks that are 40 wide. |
| Layout.DesktopColumnFits | src/WocViz.js:136 | On desktop, every row of at least two columns, up to the capacity, gives each column at least the widest block's width. |
| Layout.MobileColumnNarrower | src/WocViz.js:136 | On mobile this fails: 150 units give a capacity of 2, so columns are 75 wide for blocks that are 100 wide. |
| Layout.Widest | src/WocViz.js:109-116 | The definition of the unrounded fold: `Math.max` over the widths, starting from 0. `Layout.WidestIsMax` proves it is the maximum, and `Layout.WidestStep` ties it to the rounding loop. |
| Layout.WidestIsMax | src/WocViz.js:109-116 | The running `Math.max` that starts from 0 is at least every width, and it equals one of them unless it is 0. |
| Layout.WidestStep | src/WocViz.js:115 | One more step of the loop, which rounds after every width, keeps the accumulator equal to the rounded maximum of the widths seen so far. |
| Layout.Baseline | src/WocViz.js:158-172 | The definition of `rowY` for row `r`: 0 for the first row, plus one row step per row before it. `Layout.BaselineIsMultiple` and `Layout.BaselineGrows` prove its closed form and growth. |
| Layout.BaselineIsMultiple | src/WocViz.js:158-172 | Row `r` has its baseline `rowY` at `r` row steps (90 on mobile, 180 otherwise). |
| Layout.FirstRowOnly | src/WocViz.js:166 | The baseline `rowY` is 0 exactly for the first row, so the top offset `rowY === 0 ? 20 : 0` is 20 for the first row only. |
| Layout.BaselineGrows | src/WocViz.js:172 | A later row's baseline is at least one full step below an earlier row's. |
| Layout.DrawRows | src/WocViz.js:147-155 | The `while` loop draws row sizes `roundRandom(1, maxPerRow)`, each between 1 and the capacity. Together they cover the blocks, and drawing stops at the first row that completes the cover. There are no rows exactly when there are no blocks. |
| Layout.IsRowPartition | src/WocViz.js:148-154 | The result of the partition loop for `n` blocks and capacity `m`: row `k` is `roundRandom(1, m)` of draw `k`, the rows cover the `n` blocks, and the rows before the last do not. `Layout.DrawRows` establishes it, and `Layout.PartitionUnique` shows that only one row list satisfies it. |
| Layout.PartitionUnique | src/WocViz.js:148-154 | Given the draws, only one row list has those properties, so the loop's result is determined. |
| Layout.RowCountBound | src/WocViz.js:150-154 | There are never more rows than blocks. |
| Layout.Slots | src/WocViz.js:160-161 | The nested loop visits `Sum(rows)` slots. Each slot names a row, a column below that row's size, and the row's size. |
| Layout.SlotAt | src/WocViz.js:160-170 | Column `i` of row `r` is visited at step `|slots of rows before r| + i`, so every (row, column) pair has exactly its place in the order. |
| Layout.RowSlotsAt | src/WocViz.js:160-170 | Row `r` occupies the `rows[r]` slots that follow those of the earlier rows, column by column. |
| Layout.SlotsInOrder | src/WocViz.js:160-170 | The slots are visited in strictly increasing row-major order. |
| Layout.CalculatePoint | src/WocViz.js:122-130 | The definition of `calculatePoint`. `x` is the column's left edge `area * i` plus `random(area - width)`. `y` is `random(rowY + random(20 or 5, -10 or -4), offsetY + rowY)`. `Layout.CalculatePointBounds` proves its bounds. |
| Layout.CalculatePointBounds | src/WocViz.js:122-130 | `calculatePoint` puts `x` between the column's left edge and that edge plus the room the block leaves, and `y` between the baseline lowered by the jitter and the baseline plus the top offset. |
| Layout.SlotPoint | src/WocViz.js:165-167 | The call `calculatePoint(block.width, rowY, offset, row, i)` for the block in column `i` of row `r`: the baseline is `Baseline(r)`, and the top offset is 20 exactly when `r == 0` (by `Layout.FirstRowOnly`), else 0. `Layout.SlotPointInBand` bounds it. |
| Layout.SlotPointInBand | src/WocViz.js:164-167 | A block placed in row `r` has `y` between its baseline plus the jitter's lower bound (-10, or -4 on mobile) and its baseline plus 20. |
| Layout.RowsStackDownward | src/WocViz.js:164-172 | Every block of a later row has a strictly larger `y` than every block of an earlier row. Blocks taller than a row step may still overlap on screen. |
| Layout.SameRowNoOverlap | src/WocViz.js:125-127 | Within one row, blocks no wider than their column never overlap: each block ends before the block in any later column begins. |
| Lines.Filter | src/WocViz.js:193 | A group is no longer than the dot list. It is nonempty exactly when its type occurs. |
| Lines.FilterMembers | src/WocViz.js:193 | A dot is in the group of `t` exactly when it is a dot of the list whose type is `t`. |
| Lines.FilterAppend | src/WocViz.js:188-193 | Grouping the concatenated dots of several blocks is the concatenation of their groups: earlier blocks' dots come first. |
| Lines.Positions | src/WocViz.js:193 | The indices of the dots of type `t`: there is one per dot of its group, and each is an index of the dot list. |
| Lines.GroupAtPositions | src/WocViz.js:193 | The group of `t` is the dot list read at the positions of `t`. |
| Lines.PositionsIncrease | src/WocViz.js:193 | The positions of `t` increase strictly, so a group keeps the relative order of its dots. |
| Lines.PositionsComplete | src/WocViz.js:193 | Every dot of type `t` has its index among the positions of `t`, so a group loses no dot. |
| Lines.GroupKeepsOrder | src/WocViz.js:193 | A group is the dot list read at strictly increasing indices, and those indices are all the dots of its type. |
| Lines.FilterSnoc | src/WocViz.js:193 | A new dot is appended to the end of its own type's group and leaves every other group unchanged. |
| Lines.GroupedStep | src/WocViz.js:193 | One step of `groupBy`, appending a dot to its type's group or opening that group, keeps the map equal to the grouping of the dots seen so far. |
| Lines.GroupBy | src/WocViz.js:193 | The map has one key per occurring dot type. Each key holds that type's dots, in order, and is never empty. |
| Lines.DrawLine | src/WocViz.js:200-213 | One line has one point per dot (the dot's global point, in order), the last dot's colour, stroke 0.5, and a curve segment for each index below the last point. |
| Lines.LineOf | src/WocViz.js:200-214 | The definition of one group's line: the group's points in order, stroke 0.5, the last dot's colour, and segment indices `0 .. points.length - 2`. `Lines.DrawLine` computes it with the source's loops. |
| Lines.LinesOf | src/WocViz.js:193-218 | The definition of the lines `generateLines` draws: for each occurring dot type, the line of its group. `Lines.BuildLines` computes it, and `Lines.LineColorIsLastOfType` and the two examples state its properties. |
| Lines.DrawGroups | src/WocViz.js:196-218 | The loop over the groups gives each group's key the line of that group, and it adds no other key. |
| Lines.BuildLines | src/WocViz.js:193-218 | There is exactly one line per dot type, and it is the line of that type's group. |
| Lines.LineColorIsLastOfType | src/WocViz.js:201-205 | A line takes the colour of the last dot of its type, and it has one segment fewer than its type has dots. |
| Lines.TwoDotsOneType | src/WocViz.js:193-213 | Two dots of one type make a single line through both points, with one segment. |
| Lines.TwoTypesTwoLines | src/WocViz.js:193-213 | Two dots of different types make two single-point lines without segments. |
| Viz.Flatten | src/WocViz.js:188-191 | The definition of the concatenated dots: each block's dots in the block's order, at the block's position plus their offset, block after block. `Viz.FlattenAppend` and `Viz.WocViz.CollectDots` state its properties. |
| Viz.FlattenAppend | src/WocViz.js:188-191 | Collecting the dots of two runs of blocks gives the first run's dots, then the second's. |
| Viz.Block.constructor | src/WocViz.js:112 | A new block takes its record's width and dots. |
| Viz.WocViz.constructor | src/WocViz.js:33-70 | The visualisation starts with its viewport width and mobile flag, no blocks, no capacity, no rows and no lines. |
| Viz.WocViz.CreateBlocks | src/WocViz.js:107-116 | Creates one fresh block per record, in order, with the record's width and dots. `maxWidthBlock` ends as the rounded widest width, so no block is half a unit or more wider than it. |
| Viz.WocViz.AddObjects | src/WocViz.js:106-119 | Creates the blocks with the rounded maximum width, then completes a layout pass (`LaidOut`). On the first call, while the capacity is still unset, the rows cover every block, so every block stands at its slot's point. Any block no slot reaches stays at its initial (0, 0). |
| Viz.WocViz.UpdateRows | src/WocViz.js:135-155 | The capacity is stored. The rows are the draws' partition of the blocks when the old capacity was unset or different, and otherwise they are kept exactly. |
| Viz.WocViz.PlaceRow | src/WocViz.js:160-171 | Places the blocks of one row into its slots, in order, up to the end of the row or of the blocks (the `break`). Every block already placed stays put, and every later block is untouched. |
| Viz.WocViz.PlaceBlocks | src/WocViz.js:157-173 | Every block that a slot reaches stands at its slot's point, and the blocks beyond the last slot keep their positions. |
| Viz.WocViz.CollectDots | src/WocViz.js:188-191 | The collected dots are the dots of all blocks at their global points: block order first, then each block's own order. |
| Viz.WocViz.GenerateLines | src/WocViz.js:181-221 | The lines are replaced by the lines of the dots at the blocks' current positions. |
| Viz.WocViz.CalculatePositionBlocks | src/WocViz.js:132-179 | Leaves the blocks, width and `maxWidthBlock` alone. It ends in `LaidOut`: the capacity is stored, the rows are redrawn exactly when it was unset or changed, every reached block is at its slot's point, and the lines are those of the new points. Blocks beyond the last slot keep their positions. |
| Viz.WocViz.OnResize | src/WocViz.js:260-276 | Takes the new width and completes a layout pass for it, keeping the blocks. Blocks beyond the last slot keep their positions. |
| Viz.EveryBlockPlaced | src/WocViz.js:132-173 | After a first layout pass, or a resize whose old rows already covered the blocks, the rows cover every block, and block `k` stands at the point of the `k`-th slot. |

## Left out

- Rendering is not modelled: the PIXI scene graph, `Graphics`, `Container`, `addChild`, destroying the old line container, `endFill`, `setMinHeight(scene.height + 75)`, `resizeRenderer` and the render loop (`update`). A line is recorded as its points, stroke, colour and the indices of the curve segments it asks for.
- `addCurveSegment` is not modelled beyond the index of each call, because its curve and noise computation lives in `src/utils/Maths.js`, which is not part of this model.
- The GUI parameters are not modelled, because `generateLines` as written reads none of them. Stats, fastclick, font and asset loading are left out as well.
- The constructor's and `onResize`'s division of the pixel width by `window.devicePixelRatio` is left out. The model takes `wr` directly, as a nonnegative real.
- `onResize`'s fallback to `window.innerWidth`/`innerHeight` for missing or zero arguments is left out, and so is the height, which the layout never reads.
- The mobile flag is a constant of the object, fixed at construction.
- `onResize` before the assets have loaded is left out. The block list is then undefined, and `calculatePositionBlocks` would throw on reading its length.
- The order of lodash's `groupBy` keys is left out. Groups are a map keyed by dot type, so only the set of lines is modelled, not the order in which they are added to the scene.
- The offset's `x: 5` is left out, because `calculatePoint` never reads it.
- Viz.WocViz.AddObjects: requires that a nonempty block list give a capacity of at least 1. With every width below 0.5, the source divides by zero, and the resulting Infinity or NaN is handed to `roundRandom`, which is not part of this model. With a capacity of 0, the partition loop can draw rows of 0 columns without progressing.
- Viz.WocViz.CalculatePositionBlocks: has the same requirement (capacity at least 1 whenever there are blocks), for the same reasons.
- Viz.WocViz.UpdateRows: has the same requirement (capacity at least 1 whenever there are blocks), for the same reasons.
- Viz.WocViz.OnResize: has the same requirement for the new width (capacity at least 1 whenever there are blocks), for the same reasons.
- Layout.DrawRows: requires a capacity of at least 1 when there are blocks. With `maxPerRow` 0, `roundRandom(1, 0)` may round to 0, and the loop then ends only if some later draw rounds to 1.
- Numbers are exact reals and integers. Floating-point rounding of the divisions and products is not modelled.
