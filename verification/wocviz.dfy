/**
 * The `WocViz` object: the blocks it creates, the remembered blocks-per-row
 * capacity and row partition, the positions its layout pass writes into the
 * blocks, and the lines it regenerates after every layout pass.
 */
module Viz {
  import opened Maths
  import opened Layout
  import opened Lines

  /** What a block record supplies to the layout: its width and its dots. */
  datatype BlockData = BlockData(width: real, dots: seq<Dot>)

  /** The random draws of one layout pass: one per row size, one triple per placed block. */
  datatype Draws = Draws(rowSize: nat -> Unit, place: nat -> PointDraws)

  /** A block: fixed width and dots, a position the layout pass moves. */
  class Block {
    const width: real
    const dots: seq<Dot>
    var x: real
    var y: real

    constructor (data: BlockData)
      ensures width == data.width && dots == data.dots
      ensures x == 0.0 && y == 0.0
    {
      width := data.width;
      dots := data.dots;
      x, y := 0.0, 0.0;
    }

    /** The block's position in the scene. */
    function Position(): Point
      reads this
    {
      Point(x, y)
    }
  }

  function Widths(data: seq<BlockData>): seq<real>
  {
    seq(|data|, i requires 0 <= i < |data| => data[i].width)
  }

  /** The dots of all blocks at their global points: block order, then each block's dot order. */
  function Flatten(bs: seq<Block>): seq<PlacedDot>
    reads bs
  {
    if bs == [] then []
    else
      var last := bs[|bs| - 1];
      Flatten(bs[..|bs| - 1]) + PlaceDots(last.dots, last.Position())
  }

  /** The dots of earlier blocks come before the dots of later blocks. */
  lemma {:induction false} FlattenAppend(a: seq<Block>, b: seq<Block>)
    ensures Flatten(a + b) == Flatten(a) + Flatten(b)
  {
    if b != [] {
      var front := b[..|b| - 1];
      assert (a + b)[..|a + b| - 1] == a + front;
      FlattenAppend(a, front);
    } else {
      assert a + b == a;
    }
  }

  /** Where slot `k` of `rows` puts block `k` of `bs` (a block's width never changes). */
  function Target(wr: real, bs: seq<Block>, rows: seq<nat>, mobile: bool, place: nat -> PointDraws,
                  k: nat): Point
    requires k < |bs| && k < |Slots(rows)|
  {
    SlotPoint(wr, bs[k].width, Slots(rows)[k], mobile, place(k))
  }

  /** No block appears twice. */
  predicate Distinct(bs: seq<Block>)
  {
    forall i, j :: 0 <= i < j < |bs| ==> bs[i] != bs[j]
  }

  lemma DistinctAppend(bs: seq<Block>, b: Block)
    requires Distinct(bs) && b !in bs
    ensures Distinct(bs + [b])
  {
  }

  class WocViz {
    const mobile: bool
    /** Viewport width in device-independent pixels. */
    var wr: real
    var blocks: seq<Block>
    var maxWidthBlock: int
    /** The remembered capacity; 0 stands for "never set", which the source tests as falsy. */
    var maxPerRow: nat
    var rows: seq<nat>
    var lines: map<DotType, Line>

    ghost predicate Valid()
      reads this`wr, this`blocks, this`rows
    {
      wr >= 0.0 &&
      Distinct(blocks)
    }

    constructor (wr: real, mobile: bool)
      requires wr >= 0.0
      ensures Valid() && this.wr == wr && this.mobile == mobile
      ensures blocks == [] && maxWidthBlock == 0 && maxPerRow == 0 && rows == [] && lines == map[]
    {
      this.wr := wr;
      this.mobile := mobile;
      blocks := [];
      maxWidthBlock := 0;
      maxPerRow := 0;
      rows := [];
      lines := map[];
    }

    /** Block `k` stands where slot `k` of the rows puts it, for every block a slot reaches. */
    ghost predicate Placed(place: nat -> PointDraws)
      reads this`wr, this`blocks, this`rows, blocks
    {
      forall k :: 0 <= k < |blocks| && k < |Slots(rows)| ==>
        blocks[k].Position() == Target(wr, blocks, rows, mobile, place, k)
    }

    /**
     * What a layout pass leaves behind, given the capacity and rows it started
     * from: the new capacity is remembered, the rows are redrawn exactly when
     * the capacity was unset or changed, the blocks stand in their slots and
     * the lines are those of the dots at their new points.
     */
    ghost predicate LaidOut(prevMaxPerRow: nat, prevRows: seq<nat>, draws: Draws)
      reads this`wr, this`blocks, this`rows, this`maxWidthBlock, this`maxPerRow, this`lines, blocks
      requires wr >= 0.0
    {
      maxPerRow == Capacity(wr, maxWidthBlock, mobile) &&
      (if prevMaxPerRow == 0 || prevMaxPerRow != maxPerRow
       then IsRowPartition(rows, |blocks|, maxPerRow, draws.rowSize)
       else rows == prevRows) &&
      Placed(draws.place) &&
      lines == LinesOf(Flatten(blocks))
    }

    /** `addObjects`: create the blocks, keep the rounded running maximum width, lay out. */
    method AddObjects(data: seq<BlockData>, draws: Draws)
      requires Valid()
      requires |data| == 0 || Capacity(wr, Round(Widest(Widths(data))), mobile) >= 1
      modifies this
      ensures Valid() && wr == old(wr)
      ensures |blocks| == |data|
      ensures forall k :: 0 <= k < |data| ==>
        fresh(blocks[k]) && blocks[k].width == data[k].width && blocks[k].dots == data[k].dots
      ensures maxWidthBlock == Round(Widest(Widths(data)))
      ensures LaidOut(old(maxPerRow), old(rows), draws)
      ensures old(maxPerRow) == 0 ==> |blocks| <= |Slots(rows)|
      ensures forall k :: |Slots(rows)| <= k < |blocks| ==> blocks[k].Position() == Point(0.0, 0.0)
    {
      CreateBlocks(data);
      CalculatePositionBlocks(draws);
    }

    /**
     * The loop of `addObjects`: one new block per record, in order, and the
     * running maximum of their widths, rounded after every step. Rounding early
     * loses nothing: the result is the rounded widest width, so no block is
     * wider than `maxWidthBlock` by half a unit or more.
     */
    method CreateBlocks(data: seq<BlockData>)
      requires Valid()
      modifies this`blocks, this`maxWidthBlock
      ensures Valid()
      ensures |blocks| == |data|
      ensures forall k :: 0 <= k < |data| ==>
        fresh(blocks[k]) && blocks[k].width == data[k].width && blocks[k].dots == data[k].dots &&
        blocks[k].x == 0.0 && blocks[k].y == 0.0
      ensures maxWidthBlock == Round(Widest(Widths(data)))
      ensures forall k :: 0 <= k < |blocks| ==> blocks[k].width < maxWidthBlock as real + 0.5
    {
      ghost var ws := Widths(data);
      blocks := [];
      maxWidthBlock := 0;
      for k := 0 to |data|
        invariant Valid()
        invariant |blocks| == k
        invariant forall j :: 0 <= j < k ==> fresh(blocks[j])
        invariant forall j :: 0 <= j < k ==> blocks[j].width == data[j].width && blocks[j].dots == data[j].dots
        invariant forall j :: 0 <= j < k ==> blocks[j].x == 0.0 && blocks[j].y == 0.0
        invariant maxWidthBlock == Round(Widest(ws[..k]))
      {
        var block := new Block(data[k]);
        DistinctAppend(blocks, block);
        blocks := blocks + [block];
        WidestStep(ws, k);
        maxWidthBlock := Round(MaxReal(maxWidthBlock as real, block.width));
      }
      assert ws[..|data|] == ws;
      WidestIsMax(ws);
      assert forall k :: 0 <= k < |blocks| ==> blocks[k].width == ws[k] <= Widest(ws);
    }

    /** The placement loop of `calculatePositionBlocks`: rows in order, one block per column. */
    method PlaceBlocks(place: nat -> PointDraws)
      requires Distinct(blocks)
      modifies blocks
      ensures Placed(place)
      ensures forall k :: |Slots(rows)| <= k < |blocks| ==>
        blocks[k].Position() == old(blocks[k].Position())
    {
      var index := 0;
      var rowY := 0;
      var r := 0;
      while r < |rows|
        invariant 0 <= r <= |rows|
        invariant index == Min(|blocks|, |Slots(rows[..r])|)
        invariant rowY == Baseline(r, mobile)
        invariant index <= |Slots(rows)|
        invariant forall k :: 0 <= k < index ==>
          blocks[k].Position() == Target(wr, blocks, rows, mobile, place, k)
        invariant forall k :: index <= k < |blocks| ==>
          blocks[k].Position() == old(blocks[k].Position())
      {
        RowSlotsAt(rows, r);
        index := PlaceRow(r, rows[r], rowY, index, |Slots(rows[..r])|, place);
        rowY := rowY + RowStep(mobile);
        r := r + 1;
      }
      assert rows[..|rows|] == rows;
    }

    /**
     * The inner loop for row number `r` of `row` columns and baseline `rowY`,
     * whose slots start at slot `first`: its columns in order, one block each,
     * starting at block `start`, until the blocks run out.
     */
    method PlaceRow(r: nat, row: nat, rowY: int, start: nat, ghost first: nat, place: nat -> PointDraws)
      returns (index: nat)
      requires Distinct(blocks) && rowY == Baseline(r, mobile)
      requires RowStartsAt(rows, r, first) && row == rows[r]
      requires start == Min(|blocks|, first)
      requires forall k :: 0 <= k < start ==>
        blocks[k].Position() == Target(wr, blocks, rows, mobile, place, k)
      modifies blocks
      ensures start <= index == Min(|blocks|, first + row)
      ensures forall k :: 0 <= k < index ==>
        blocks[k].Position() == Target(wr, blocks, rows, mobile, place, k)
      ensures forall k :: index <= k < |blocks| ==>
        blocks[k].Position() == old(blocks[k].Position())
    {
      var n := |blocks|;
      index := start;
      var i := 0;
      while i < row
        invariant 0 <= i <= row
        invariant index == Min(n, first + i)
        invariant forall k :: 0 <= k < index ==>
          blocks[k].Position() == Target(wr, blocks, rows, mobile, place, k)
        invariant forall k :: index <= k < n ==>
          blocks[k].Position() == old(blocks[k].Position())
      {
        if index >= n {
          break;
        }
        var block := blocks[index];
        var offsetY := if rowY == 0 then 20 else 0;
        var point := CalculatePoint(wr, block.width, rowY, offsetY, row, i, mobile, place(index));
        assert Slots(rows)[index] == Slot(r, i, row);
        assert point == Target(wr, blocks, rows, mobile, place, index);
        assert forall k :: 0 <= k < n && k != index ==> blocks[k] != block;
        label before:
        block.x := point.x;
        block.y := point.y;
        assert block.Position() == point;
        assert forall k :: 0 <= k < n && k != index ==> blocks[k].Position() == old@before(blocks[k].Position());
        index := index + 1;
        i := i + 1;
      }
    }

    /** The dot-collecting loop of `generateLines`. */
    method CollectDots() returns (dots: seq<PlacedDot>)
      ensures dots == Flatten(blocks)
    {
      dots := [];
      for k := 0 to |blocks|
        invariant dots == Flatten(blocks[..k])
      {
        var block := blocks[k];
        assert blocks[..k + 1][..k] == blocks[..k];
        dots := dots + PlaceDots(block.dots, block.Position());
      }
      assert blocks[..|blocks|] == blocks;
    }

    /** `generateLines`: replace the lines by those of the dots at their current points. */
    method GenerateLines()
      modifies this`lines
      ensures lines == LinesOf(Flatten(blocks))
    {
      var dots := CollectDots();
      lines := BuildLines(dots);
    }

    /**
     * `calculatePositionBlocks`: recompute the capacity, redraw the rows only
     * when it is unset or changed, place every block the rows reach, and
     * regenerate the lines.
     */
    method CalculatePositionBlocks(draws: Draws)
      requires Valid()
      requires |blocks| == 0 || Capacity(wr, maxWidthBlock, mobile) >= 1
      modifies this, blocks
      ensures Valid()
      ensures blocks == old(blocks) && wr == old(wr) && maxWidthBlock == old(maxWidthBlock)
      ensures LaidOut(old(maxPerRow), old(rows), draws)
      ensures forall k :: |Slots(rows)| <= k < |blocks| ==>
        blocks[k].Position() == old(blocks[k].Position())
    {
      UpdateRows(draws.rowSize);
      ghost var bs, rs, m := blocks, rows, maxPerRow;
      PlaceBlocks(draws.place);
      assert blocks == bs && rows == rs && maxPerRow == m;
      GenerateLines();
    }

    /**
     * The first half of `calculatePositionBlocks`: remember the capacity for
     * the current width, and redraw the rows only when there was none or it
     * changed.
     */
    method UpdateRows(draw: nat -> Unit)
      requires Valid()
      requires |blocks| == 0 || Capacity(wr, maxWidthBlock, mobile) >= 1
      modifies this`maxPerRow, this`rows
      ensures Valid()
      ensures maxPerRow == Capacity(wr, maxWidthBlock, mobile)
      ensures if old(maxPerRow) == 0 || old(maxPerRow) != maxPerRow
        then IsRowPartition(rows, |blocks|, maxPerRow, draw)
        else rows == old(rows)
    {
      var tempMaxPerRow := Capacity(wr, maxWidthBlock, mobile);
      var hasChanged := false;
      if maxPerRow == 0 {
        maxPerRow := tempMaxPerRow;
        hasChanged := true;
      } else if maxPerRow != tempMaxPerRow {
        hasChanged := true;
        maxPerRow := tempMaxPerRow;
      }
      if hasChanged {
        rows := DrawRows(|blocks|, maxPerRow, draw);
      }
    }

    /** `onResize`: take the new viewport width and lay out again. */
    method OnResize(newWr: real, draws: Draws)
      requires Valid() && newWr >= 0.0
      requires |blocks| == 0 || Capacity(newWr, maxWidthBlock, mobile) >= 1
      modifies this, blocks
      ensures Valid() && wr == newWr
      ensures blocks == old(blocks) && maxWidthBlock == old(maxWidthBlock)
      ensures LaidOut(old(maxPerRow), old(rows), draws)
      ensures forall k :: |Slots(rows)| <= k < |blocks| ==>
        blocks[k].Position() == old(blocks[k].Position())
    {
      wr := newWr;
      CalculatePositionBlocks(draws);
    }
  }

  /**
   * A layout pass that starts with no remembered capacity (the first one, run
   * by `addObjects`) or from rows that already cover the blocks (a resize)
   * ends with rows that cover the blocks, so it positions every block: the
   * k-th block in the k-th slot the nested loop visits.
   */
  lemma EveryBlockPlaced(v: WocViz, prevMaxPerRow: nat, prevRows: seq<nat>, draws: Draws, k: nat)
    requires v.wr >= 0.0
    requires v.LaidOut(prevMaxPerRow, prevRows, draws)
    requires prevMaxPerRow == 0 || Sum(prevRows) >= |v.blocks|
    requires k < |v.blocks|
    ensures Sum(v.rows) >= |v.blocks| && k < |Slots(v.rows)|
    ensures v.blocks[k].Position() ==
      SlotPoint(v.wr, v.blocks[k].width, Slots(v.rows)[k], v.mobile, draws.place(k))
  {
  }
}
