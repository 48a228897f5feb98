/**
 * The layout arithmetic of `WocViz`: the blocks-per-row capacity, the random
 * row partition, the row-major slot each block is placed in, and the point a
 * block gets inside its column of a row.
 */
module Layout {
  import opened Maths

  datatype Point = Point(x: real, y: real)

  /** One random draw for each `random` call of `calculatePoint`. */
  datatype PointDraws = PointDraws(x: Unit, jitter: Unit, y: Unit)

  /** Distance between consecutive row baselines. */
  function RowStep(mobile: bool): nat { if mobile then 90 else 180 }

  /** The baseline `rowY` of row number `r`: the running sum of the row steps. */
  function Baseline(r: nat, mobile: bool): nat
  {
    if r == 0 then 0 else Baseline(r - 1, mobile) + RowStep(mobile)
  }

  /** Row `r` has its baseline `r` steps down. */
  lemma {:induction false} BaselineIsMultiple(r: nat, mobile: bool)
    ensures Baseline(r, mobile) == r * RowStep(mobile)
  {
    if r > 0 {
      BaselineIsMultiple(r - 1, mobile);
      assert (r - 1) * RowStep(mobile) + RowStep(mobile) == r * RowStep(mobile);
    }
  }

  /** Only the first row has its baseline at 0, so only it gets the top offset of 20. */
  lemma FirstRowOnly(r: nat, mobile: bool)
    ensures Baseline(r, mobile) == 0 <==> r == 0
  {
    if r > 0 {
      assert Baseline(r, mobile) >= RowStep(mobile);
    }
  }

  /** A later row's baseline is at least one step below an earlier row's. */
  lemma {:induction false} BaselineGrows(r1: nat, r2: nat, mobile: bool)
    requires r1 < r2
    ensures Baseline(r1, mobile) + RowStep(mobile) <= Baseline(r2, mobile)
  {
    if r1 + 1 < r2 {
      BaselineGrows(r1, r2 - 1, mobile);
    }
  }

  /** Bounds handed to the inner `random` that jitters a row's baseline. */
  function JitterHigh(mobile: bool): int { if mobile then 5 else 20 }
  function JitterLow(mobile: bool): int { if mobile then -4 else -10 }

  /** The room a row gives each of its widest blocks: its width (mobile) or one and a half times it. */
  function ColumnWidth(maxWidthBlock: int, mobile: bool): real
  {
    maxWidthBlock as real * (if mobile then 1.0 else 1.5)
  }

  /**
   * `round(wr / (maxWidthBlock * (mobile ? 1 : 1.5)))`: how many of the widest
   * blocks fit in a row, to the nearest integer.
   */
  function MaxPerRowFor(wr: real, maxWidthBlock: int, mobile: bool): (r: nat)
    requires wr >= 0.0 && maxWidthBlock >= 1
    ensures r as real - 0.5 <= wr / ColumnWidth(maxWidthBlock, mobile) < r as real + 0.5
  {
    Round(wr / ColumnWidth(maxWidthBlock, mobile))
  }

  /**
   * The capacity `calculatePositionBlocks` remembers. Without a block at least
   * half a unit wide, `maxWidthBlock` is 0 and the division yields no finite
   * number; that happens only when no block is to be placed, where such a
   * capacity draws no row, exactly like an unset one, so it is 0 here.
   * A row holds at least one block exactly when there is a widest block and
   * the viewport spans at least half of its column.
   */
  function Capacity(wr: real, maxWidthBlock: int, mobile: bool): (r: nat)
    requires wr >= 0.0
    ensures r >= 1 <==> maxWidthBlock >= 1 && 2.0 * wr >= ColumnWidth(maxWidthBlock, mobile)
    ensures r >= 1 ==> r as real - 0.5 <= wr / ColumnWidth(maxWidthBlock, mobile) < r as real + 0.5
  {
    if maxWidthBlock >= 1 then
      var column := ColumnWidth(maxWidthBlock, mobile);
      HalfOrMore(wr, column);
      MaxPerRowFor(wr, maxWidthBlock, mobile)
    else 0
  }

  /** A positive `column` fits at most twice in `wr` exactly when the quotient is at least one half. */
  lemma HalfOrMore(wr: real, column: real)
    requires column > 0.0
    ensures wr / column >= 0.5 <==> 2.0 * wr >= column
  {
    var q := wr / column;
    assert q * column == wr;
    if q >= 0.5 {
      MulMonotone(0.5, q, column);
    } else {
      MulMonotone(q, 0.5, column);
    }
  }

  /** The running `Math.max` over block widths, starting from 0, before any rounding. */
  function Widest(ws: seq<real>): (r: real)
    ensures r >= 0.0
  {
    if ws == [] then 0.0 else MaxReal(Widest(ws[..|ws| - 1]), ws[|ws| - 1])
  }

  /** The running maximum is at least every width, and one of them unless all are below 0. */
  lemma {:induction false} WidestIsMax(ws: seq<real>)
    ensures forall k :: 0 <= k < |ws| ==> ws[k] <= Widest(ws)
    ensures Widest(ws) == 0.0 || exists k :: 0 <= k < |ws| && ws[k] == Widest(ws)
  {
    if ws != [] {
      var front := ws[..|ws| - 1];
      WidestIsMax(front);
      assert forall k :: 0 <= k < |front| ==> ws[k] == front[k];
    }
  }

  /**
   * The loop of `addObjects` rounds its accumulator after every width; one
   * more step of it stays equal to the rounded maximum of one more width.
   */
  lemma WidestStep(ws: seq<real>, k: nat)
    requires k < |ws|
    ensures Round(Widest(ws[..k + 1])) == Round(MaxReal(Round(Widest(ws[..k])) as real, ws[k]))
  {
    assert ws[..k + 1][..k] == ws[..k];
    RoundMaxAbsorb(Widest(ws[..k]), ws[k]);
  }

  /** Three 40-wide blocks in a 200-wide viewport, not mobile: three per row. */
  lemma MaxPerRowExample()
    ensures MaxPerRowFor(200.0, 40, false) == 3
  {
    assert 200.0 / (40.0 * 1.5) == 10.0 / 3.0;
  }

  /**
   * Outside mobile the capacity leaves every column of a row of two or more
   * at least as wide as the widest block: the extra half width per block
   * absorbs the rounding of the capacity upward.
   */
  lemma DesktopColumnFits(wr: real, maxWidthBlock: int, row: nat)
    requires wr >= 0.0 && maxWidthBlock >= 1
    requires 2 <= row <= MaxPerRowFor(wr, maxWidthBlock, false)
    ensures maxWidthBlock as real <= wr / row as real
  {
    var m := MaxPerRowFor(wr, maxWidthBlock, false);
    var w := maxWidthBlock as real;
    var column := ColumnWidth(maxWidthBlock, false);
    assert column == w * 1.5;
    MulMonotone(m as real - 0.5, wr / column, column);
    assert (wr / column) * column == wr;
    MulNonNegative(m as real - 1.5, w);
    assert m as real * w <= (m as real - 0.5) * (w * 1.5);
    MulNonNegative((m - row) as real, w);
    assert w * row as real <= wr;
    MulDivide(w, wr, row as real);
  }

  /**
   * On mobile a column is one widest block wide before rounding, so rounding
   * the capacity up leaves narrower columns: 150 units hold two columns of 75
   * for blocks 100 wide.
   */
  lemma MobileColumnNarrower()
    ensures MaxPerRowFor(150.0, 100, true) == 2
    ensures 150.0 / 2.0 < 100.0
  {
    assert 150.0 / (100.0 * 1.0) == 1.5;
  }

  function Sum(s: seq<nat>): nat
  {
    if s == [] then 0 else Sum(s[..|s| - 1]) + s[|s| - 1]
  }

  lemma SumAppend(s: seq<nat>, x: nat)
    ensures Sum(s + [x]) == Sum(s) + x
  {
    assert (s + [x])[..|s|] == s;
  }

  /** A prefix never sums to more than the whole. */
  lemma {:induction false} SumPrefix(s: seq<nat>, i: nat)
    requires i <= |s|
    ensures Sum(s[..i]) <= Sum(s)
  {
    if i < |s| {
      assert s[..|s| - 1][..i] == s[..i];
      SumPrefix(s[..|s| - 1], i);
    } else {
      assert s[..i] == s;
    }
  }

  /** With every entry at least one, the sum is at least the length. */
  lemma {:induction false} SumAtLeastLength(s: seq<nat>)
    requires forall k :: 0 <= k < |s| ==> s[k] >= 1
    ensures Sum(s) >= |s|
  {
    if s != [] {
      SumAtLeastLength(s[..|s| - 1]);
    }
  }

  /**
   * The row partition the `while` loop of `calculatePositionBlocks` draws for
   * `n` blocks and capacity `m`: the row sizes are the first draws of
   * `roundRandom(1, m)`, together they cover the blocks, and drawing stopped
   * as soon as they did.
   */
  predicate IsRowPartition(rows: seq<nat>, n: nat, m: nat, draw: nat -> Unit)
  {
    (forall k :: 0 <= k < |rows| ==> rows[k] == RoundRandom(1, m, draw(k))) &&
    Sum(rows) >= n &&
    (|rows| > 0 ==> Sum(rows[..|rows| - 1]) < n)
  }

  /** The partition loop: draw row sizes until they cover the `n` blocks. */
  method DrawRows(n: nat, m: nat, draw: nat -> Unit) returns (rows: seq<nat>)
    requires m >= 1 || n == 0
    ensures forall k :: 0 <= k < |rows| ==> rows[k] == RoundRandom(1, m, draw(k))
    ensures forall k :: 0 <= k < |rows| ==> 1 <= rows[k] <= m
    ensures Sum(rows) >= n
    ensures |rows| > 0 ==> Sum(rows[..|rows| - 1]) < n
    ensures rows == [] <==> n == 0
  {
    rows := [];
    var added := 0;
    while added < n
      invariant added == Sum(rows)
      invariant forall k :: 0 <= k < |rows| ==> rows[k] == RoundRandom(1, m, draw(k))
      invariant forall k :: 0 <= k < |rows| ==> 1 <= rows[k] <= m
      invariant |rows| > 0 ==> Sum(rows[..|rows| - 1]) < n
      invariant rows == [] <==> added == 0
      decreases n - added
    {
      var cols := RoundRandom(1, m, draw(|rows|));
      SumAppend(rows, cols);
      assert (rows + [cols])[..|rows|] == rows;
      rows := rows + [cols];
      added := added + cols;
    }
  }

  /** The draws determine the partition: no other row list has its properties. */
  lemma PartitionUnique(r1: seq<nat>, r2: seq<nat>, n: nat, m: nat, draw: nat -> Unit)
    requires IsRowPartition(r1, n, m, draw) && IsRowPartition(r2, n, m, draw)
    ensures r1 == r2
  {
    if |r1| < |r2| {
      PrefixOfLonger(r1, r2, n, m, draw);
    } else if |r2| < |r1| {
      PrefixOfLonger(r2, r1, n, m, draw);
    }
  }

  /** A shorter partition from the same draws is a prefix of the longer one. */
  lemma PrefixOfLonger(short: seq<nat>, long: seq<nat>, n: nat, m: nat, draw: nat -> Unit)
    requires IsRowPartition(short, n, m, draw) && IsRowPartition(long, n, m, draw)
    requires |short| < |long|
    ensures Sum(short) <= Sum(long[..|long| - 1])
  {
    assert long[..|long| - 1][..|short|] == short;
    SumPrefix(long[..|long| - 1], |short|);
  }

  /** There are never more rows than blocks. */
  lemma RowCountBound(rows: seq<nat>, n: nat, m: nat, draw: nat -> Unit)
    requires IsRowPartition(rows, n, m, draw) && m >= 1
    ensures |rows| <= n
  {
    if rows != [] {
      var front := rows[..|rows| - 1];
      forall k | 0 <= k < |front| ensures front[k] >= 1 {
        assert front[k] == rows[k];
      }
      SumAtLeastLength(front);
    }
  }

  /** Column `col` of row number `row`, a row holding `size` blocks. */
  datatype Slot = Slot(row: nat, col: nat, size: nat)

  function RowSlots(row: nat, size: nat): seq<Slot>
  {
    seq(size, i requires 0 <= i < size => Slot(row, i, size))
  }

  /**
   * The slots of the nested placement loop in the order it visits them: row by
   * row, and column by column inside a row.
   */
  function Slots(rows: seq<nat>): (s: seq<Slot>)
    ensures |s| == Sum(rows)
    ensures forall k :: 0 <= k < |s| ==>
      s[k].row < |rows| && s[k].col < s[k].size && s[k].size == rows[s[k].row]
  {
    if rows == [] then []
    else Slots(rows[..|rows| - 1]) + RowSlots(|rows| - 1, rows[|rows| - 1])
  }

  /** The slots of the first rows come first. */
  lemma {:induction false} SlotsPrefix(rows: seq<nat>, r: nat)
    requires r <= |rows|
    ensures Slots(rows[..r]) <= Slots(rows)
  {
    if r == |rows| {
      assert rows[..r] == rows;
    } else {
      assert rows[..|rows| - 1][..r] == rows[..r];
      SlotsPrefix(rows[..|rows| - 1], r);
    }
  }

  /**
   * Column `i` of row `r` is visited once the rows before `r` are done and `i`
   * columns of row `r` have been: every (row, column) pair has its place.
   */
  lemma SlotAt(rows: seq<nat>, r: nat, i: nat)
    requires r < |rows| && i < rows[r]
    ensures |Slots(rows[..r])| + i < |Slots(rows)|
    ensures Slots(rows)[|Slots(rows[..r])| + i] == Slot(r, i, rows[r])
  {
    SlotsPrefix(rows, r + 1);
    assert rows[..r + 1][..r] == rows[..r];
  }

  /** Row `r` of `rows` occupies the slots from number `first` on, column by column. */
  predicate RowStartsAt(rows: seq<nat>, r: nat, first: nat)
  {
    r < |rows| && first + rows[r] <= |Slots(rows)| &&
    forall i :: 0 <= i < rows[r] ==> Slots(rows)[first + i] == Slot(r, i, rows[r])
  }

  /** The slots of row `r` follow those of the rows before it. */
  lemma RowSlotsAt(rows: seq<nat>, r: nat)
    requires r < |rows|
    ensures |Slots(rows[..r + 1])| == |Slots(rows[..r])| + rows[r]
    ensures RowStartsAt(rows, r, |Slots(rows[..r])|)
  {
    SlotsPrefix(rows, r + 1);
    assert rows[..r + 1][..r] == rows[..r];
    forall i | 0 <= i < rows[r]
      ensures Slots(rows)[|Slots(rows[..r])| + i] == Slot(r, i, rows[r])
    {
      SlotAt(rows, r, i);
    }
  }

  /** The slots are visited in strictly increasing row-major order. */
  lemma {:induction false} SlotsInOrder(rows: seq<nat>, k1: nat, k2: nat)
    requires k1 < k2 < |Slots(rows)|
    ensures var s1, s2 := Slots(rows)[k1], Slots(rows)[k2];
      s1.row < s2.row || (s1.row == s2.row && s1.col < s2.col)
  {
    var front := rows[..|rows| - 1];
    var n := |Slots(front)|;
    if k2 < n {
      SlotsInOrder(front, k1, k2);
    }
  }

  /**
   * `calculatePoint`: the point of a block `width` wide in column `i` of a row
   * of `row` equal columns spanning `wr`, with row baseline `rowY` and top
   * offset `offsetY`.
   */
  function CalculatePoint(wr: real, width: real, rowY: int, offsetY: int, row: nat, i: nat,
                          mobile: bool, d: PointDraws): Point
    requires row >= 1
  {
    var area := wr / row as real;
    var jitter := Random(JitterHigh(mobile) as real, JitterLow(mobile) as real, d.jitter);
    Point(area * i as real + Random(0.0, area - width, d.x),
          Random(rowY as real + jitter, offsetY as real + rowY as real, d.y))
  }

  /**
   * A point lies in its column, `x` between the column's left edge and that
   * edge plus the room the block leaves; `y` between the baseline lowered by
   * the jitter and the baseline plus the top offset.
   */
  lemma CalculatePointBounds(wr: real, width: real, rowY: int, offsetY: int, row: nat, i: nat,
                             mobile: bool, d: PointDraws)
    requires row >= 1
    ensures var p := CalculatePoint(wr, width, rowY, offsetY, row, i, mobile, d);
      var area := wr / row as real;
      Between(p.x, area * i as real, area * i as real + (area - width)) &&
      (rowY + Min(JitterLow(mobile), offsetY)) as real <= p.y <= (rowY + Max(JitterHigh(mobile), offsetY)) as real
  {
    var area := wr / row as real;
    RandomBetween(0.0, area - width, d.x);
    RandomBetween(JitterHigh(mobile) as real, JitterLow(mobile) as real, d.jitter);
    var jitter := Random(JitterHigh(mobile) as real, JitterLow(mobile) as real, d.jitter);
    RandomBetween(rowY as real + jitter, offsetY as real + rowY as real, d.y);
  }

  /** The point a block gets in slot `s`: baseline and top offset by row number. */
  function SlotPoint(wr: real, width: real, s: Slot, mobile: bool, d: PointDraws): Point
    requires s.col < s.size
  {
    var rowY := Baseline(s.row, mobile);
    CalculatePoint(wr, width, rowY, if rowY == 0 then 20 else 0, s.size, s.col, mobile, d)
  }

  /**
   * A block of a row lies within its row's band: from the baseline lowered by
   * the jitter to the baseline plus the first row's offset of 20.
   */
  lemma SlotPointInBand(wr: real, width: real, s: Slot, mobile: bool, d: PointDraws)
    requires s.col < s.size
    ensures var rowY := Baseline(s.row, mobile) as real;
      var p := SlotPoint(wr, width, s, mobile, d);
      rowY + JitterLow(mobile) as real <= p.y <= rowY + 20.0
  {
    var rowY := Baseline(s.row, mobile);
    CalculatePointBounds(wr, width, rowY, if rowY == 0 then 20 else 0, s.size, s.col, mobile, d);
  }

  /** Every block of a later row sits lower than every block of an earlier row. */
  lemma RowsStackDownward(wr: real, w1: real, w2: real, s1: Slot, s2: Slot, mobile: bool,
                          d1: PointDraws, d2: PointDraws)
    requires s1.col < s1.size && s2.col < s2.size && s1.row < s2.row
    ensures SlotPoint(wr, w1, s1, mobile, d1).y < SlotPoint(wr, w2, s2, mobile, d2).y
  {
    SlotPointInBand(wr, w1, s1, mobile, d1);
    SlotPointInBand(wr, w2, s2, mobile, d2);
    BaselineGrows(s1.row, s2.row, mobile);
  }

  /**
   * Within a row, blocks no wider than their column never overlap: a block
   * ends before the block of any later column begins.
   */
  lemma SameRowNoOverlap(wr: real, w1: real, w2: real, s1: Slot, s2: Slot, mobile: bool,
                         d1: PointDraws, d2: PointDraws)
    requires wr >= 0.0
    requires s1.row == s2.row && s1.size == s2.size && s1.col < s2.col < s2.size
    requires w1 <= wr / s1.size as real && w2 <= wr / s2.size as real
    ensures SlotPoint(wr, w1, s1, mobile, d1).x + w1 <= SlotPoint(wr, w2, s2, mobile, d2).x
  {
    var area := wr / s1.size as real;
    assert area >= 0.0;
    var rowY := Baseline(s1.row, mobile);
    var offsetY := if rowY == 0 then 20 else 0;
    var left1, left2 := area * s1.col as real, area * s2.col as real;
    CalculatePointBounds(wr, w1, rowY, offsetY, s1.size, s1.col, mobile, d1);
    assert SlotPoint(wr, w1, s1, mobile, d1).x <= left1 + (area - w1);
    CalculatePointBounds(wr, w2, rowY, offsetY, s2.size, s2.col, mobile, d2);
    assert left2 <= SlotPoint(wr, w2, s2, mobile, d2).x;
    MulNonNegative(area, (s2.col - s1.col - 1) as real);
    assert left1 + area <= left2;
  }
}
