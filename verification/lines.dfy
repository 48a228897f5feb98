/**
 * The grouping half of `generateLines`: the dots of all blocks, grouped by
 * their `dotType`, each group becoming one line through its dots' points.
 * Drawing the curves themselves is left to the renderer; a line records the
 * points it starts from, its stroke and colour, and the index of every curve
 * segment it asks for.
 */
module Lines {
  import opened Layout

  type DotType = string
  type Color = int

  /** A marker of a block: its category, its colour and its offset in the block. */
  datatype Dot = Dot(dotType: DotType, color: Color, local: Point)

  /** A dot together with its global point at the time the lines are drawn. */
  datatype PlacedDot = PlacedDot(dot: Dot, at: Point)

  /** `lineStyle(0.5, color)`, `moveTo(points[0])`, one `addCurveSegment(i)` per index. */
  datatype Line = Line(points: seq<Point>, stroke: real, color: Color, curves: seq<nat>)

  const StrokeWidth: real := 0.5

  /** `getGlobalPoint`: the block's position moved by the dot's offset. */
  function GlobalPoint(origin: Point, d: Dot): Point
  {
    Point(origin.x + d.local.x, origin.y + d.local.y)
  }

  /** The dots of one block at `origin`, in the block's own order. */
  function PlaceDots(dots: seq<Dot>, origin: Point): seq<PlacedDot>
  {
    seq(|dots|, i requires 0 <= i < |dots| => PlacedDot(dots[i], GlobalPoint(origin, dots[i])))
  }

  /** The dot types occurring in `ds`. */
  function Types(ds: seq<PlacedDot>): set<DotType>
  {
    if ds == [] then {} else Types(ds[..|ds| - 1]) + {ds[|ds| - 1].dot.dotType}
  }

  /** The dots of type `t`, in their order in `ds`. */
  function Filter(ds: seq<PlacedDot>, t: DotType): (g: seq<PlacedDot>)
    ensures |g| <= |ds|
    ensures |g| > 0 <==> t in Types(ds)
  {
    if ds == [] then []
    else
      var last := ds[|ds| - 1];
      Filter(ds[..|ds| - 1], t) + (if last.dot.dotType == t then [last] else [])
  }

  /** A dot is in the group of `t` exactly when it is a dot of `ds` of type `t`. */
  lemma {:induction false} FilterMembers(ds: seq<PlacedDot>, t: DotType, d: PlacedDot)
    ensures d in Filter(ds, t) <==> d in ds && d.dot.dotType == t
  {
    if ds != [] {
      var front := ds[..|ds| - 1];
      assert ds == front + [ds[|ds| - 1]];
      FilterMembers(front, t, d);
    }
  }

  /** Without a dot of type `t` there is no group of `t`. */
  lemma {:induction false} FilterNone(ds: seq<PlacedDot>, t: DotType)
    requires forall k :: 0 <= k < |ds| ==> ds[k].dot.dotType != t
    ensures Filter(ds, t) == []
  {
    if ds != [] {
      var front := ds[..|ds| - 1];
      assert forall k :: 0 <= k < |front| ==> front[k] == ds[k];
      FilterNone(front, t);
    }
  }

  lemma {:induction false} TypesAppend(a: seq<PlacedDot>, b: seq<PlacedDot>)
    ensures Types(a + b) == Types(a) + Types(b)
  {
    if b != [] {
      var front := b[..|b| - 1];
      assert (a + b)[..|a + b| - 1] == a + front;
      TypesAppend(a, front);
    } else {
      assert a + b == a;
    }
  }

  /** Grouping distributes over concatenation: earlier dots stay earlier. */
  lemma {:induction false} FilterAppend(a: seq<PlacedDot>, b: seq<PlacedDot>, t: DotType)
    ensures Filter(a + b, t) == Filter(a, t) + Filter(b, t)
  {
    if b != [] {
      var front := b[..|b| - 1];
      assert (a + b)[..|a + b| - 1] == a + front;
      FilterAppend(a, front, t);
    } else {
      assert a + b == a;
    }
  }

  /** The indices in `ds` of the dots of type `t`, in increasing order. */
  function Positions(ds: seq<PlacedDot>, t: DotType): (ps: seq<nat>)
    ensures |ps| == |Filter(ds, t)|
    ensures forall j :: 0 <= j < |ps| ==> ps[j] < |ds|
  {
    if ds == [] then []
    else
      var n := |ds| - 1;
      Positions(ds[..n], t) + (if ds[n].dot.dotType == t then [n] else [])
  }

  /** The group of `t` is `ds` read at the positions of `t`. */
  lemma {:induction false} GroupAtPositions(ds: seq<PlacedDot>, t: DotType)
    ensures forall j :: 0 <= j < |Positions(ds, t)| ==> Filter(ds, t)[j] == ds[Positions(ds, t)[j]]
  {
    if ds != [] {
      var n := |ds| - 1;
      var front := ds[..n];
      GroupAtPositions(front, t);
      var ps, pf := Positions(ds, t), Positions(front, t);
      forall j | 0 <= j < |ps| ensures Filter(ds, t)[j] == ds[ps[j]] {
        if j < |pf| {
          assert ps[j] == pf[j] && Filter(ds, t)[j] == Filter(front, t)[j];
          assert ds[pf[j]] == front[pf[j]];
        }
      }
    }
  }

  /** The positions of `t` increase strictly. */
  lemma {:induction false} PositionsIncrease(ds: seq<PlacedDot>, t: DotType)
    ensures forall j1, j2 :: 0 <= j1 < j2 < |Positions(ds, t)| ==> Positions(ds, t)[j1] < Positions(ds, t)[j2]
  {
    if ds != [] {
      var n := |ds| - 1;
      var front := ds[..n];
      PositionsIncrease(front, t);
      var ps, pf := Positions(ds, t), Positions(front, t);
      forall j1, j2 | 0 <= j1 < j2 < |ps| ensures ps[j1] < ps[j2] {
        assert ps[j1] == pf[j1];
        if j2 < |pf| {
          assert ps[j2] == pf[j2];
        }
      }
    }
  }

  /** Every dot of type `t` has its index among the positions of `t`. */
  lemma {:induction false} PositionsComplete(ds: seq<PlacedDot>, t: DotType)
    ensures forall k :: 0 <= k < |ds| && ds[k].dot.dotType == t ==> k in Positions(ds, t)
  {
    if ds != [] {
      var n := |ds| - 1;
      var front := ds[..n];
      PositionsComplete(front, t);
      var ps, pf := Positions(ds, t), Positions(front, t);
      forall k | 0 <= k < |ds| && ds[k].dot.dotType == t ensures k in ps {
        if k < n {
          assert front[k] == ds[k];
          assert k in pf;
          assert pf <= ps;
        }
      }
    }
  }

  /**
   * The group of `t` is `ds` read at increasing indices, and those indices
   * are all the indices of dots of type `t`: grouping keeps the relative order
   * of the dots and loses none of them.
   */
  lemma GroupKeepsOrder(ds: seq<PlacedDot>, t: DotType)
    ensures var ps := Positions(ds, t);
      (forall j :: 0 <= j < |ps| ==> Filter(ds, t)[j] == ds[ps[j]]) &&
      (forall j1, j2 :: 0 <= j1 < j2 < |ps| ==> ps[j1] < ps[j2]) &&
      (forall k :: 0 <= k < |ds| && ds[k].dot.dotType == t ==> k in ps)
  {
    GroupAtPositions(ds, t);
    PositionsIncrease(ds, t);
    PositionsComplete(ds, t);
  }

  /** `groups` is the grouping of `ds`: one nonempty group per occurring type, holding that type's dots. */
  ghost predicate Grouped(groups: map<DotType, seq<PlacedDot>>, ds: seq<PlacedDot>)
  {
    groups.Keys == Types(ds) &&
    forall t :: t in groups ==> groups[t] == Filter(ds, t) && |groups[t]| > 0
  }

  /** `groupBy(dots, dot => dot.dotType)`, one pass over the dots. */
  method GroupBy(ds: seq<PlacedDot>) returns (groups: map<DotType, seq<PlacedDot>>)
    ensures groups.Keys == Types(ds)
    ensures forall t :: t in groups ==> groups[t] == Filter(ds, t) && |groups[t]| > 0
  {
    groups := map[];
    for k := 0 to |ds|
      invariant Grouped(groups, ds[..k])
    {
      var d := ds[k];
      var t := d.dot.dotType;
      assert ds[..k + 1] == ds[..k] + [d];
      GroupedStep(groups, ds[..k], d);
      if t in groups {
        groups := groups[t := groups[t] + [d]];
      } else {
        groups := groups[t := [d]];
      }
    }
    assert ds[..|ds|] == ds;
  }

  /** One step of `groupBy`: a dot is appended to its type's group, opening the group if needed. */
  lemma GroupedStep(groups: map<DotType, seq<PlacedDot>>, ds: seq<PlacedDot>, d: PlacedDot)
    requires Grouped(groups, ds)
    ensures var t := d.dot.dotType;
      Grouped(if t in groups then groups[t := groups[t] + [d]] else groups[t := [d]], ds + [d])
  {
    var t := d.dot.dotType;
    var next := if t in groups then groups[t := groups[t] + [d]] else groups[t := [d]];
    TypesSnoc(ds, d);
    forall u | u in next ensures next[u] == Filter(ds + [d], u) && |next[u]| > 0 {
      FilterSnoc(ds, d, u);
    }
  }

  lemma TypesSnoc(ds: seq<PlacedDot>, d: PlacedDot)
    ensures Types(ds + [d]) == Types(ds) + {d.dot.dotType}
  {
    assert (ds + [d])[..|ds|] == ds;
  }

  /** One more dot joins the group of its own type only, at its end. */
  lemma FilterSnoc(ds: seq<PlacedDot>, d: PlacedDot, t: DotType)
    ensures Filter(ds + [d], t) == Filter(ds, t) + (if d.dot.dotType == t then [d] else [])
  {
    assert (ds + [d])[..|ds|] == ds;
  }

  /** The line of one group: its points in order, the last dot's colour, a segment between neighbours. */
  function LineOf(group: seq<PlacedDot>): Line
    requires |group| > 0
  {
    Line(seq(|group|, i requires 0 <= i < |group| => group[i].at), StrokeWidth,
         group[|group| - 1].dot.color, seq(|group| - 1, i requires 0 <= i < |group| - 1 => i))
  }

  /** The body of the loop over one group of `generateLines`. */
  method DrawLine(group: seq<PlacedDot>) returns (line: Line)
    requires |group| > 0
    ensures |line.points| == |group|
    ensures forall i :: 0 <= i < |group| ==> line.points[i] == group[i].at
    ensures line.color == group[|group| - 1].dot.color
    ensures line.stroke == StrokeWidth
    ensures |line.curves| == |line.points| - 1
    ensures forall i :: 0 <= i < |line.curves| ==> line.curves[i] == i
    ensures line == LineOf(group)
  {
    var points: seq<Point> := [];
    var color: Color := 0;
    for j := 0 to |group|
      invariant |points| == j
      invariant forall i :: 0 <= i < j ==> points[i] == group[i].at
      invariant j > 0 ==> color == group[j - 1].dot.color
    {
      color := group[j].dot.color;
      points := points + [group[j].at];
    }
    var curves: seq<nat> := [];
    for i := 0 to |points| - 1
      invariant |curves| == i
      invariant forall c :: 0 <= c < i ==> curves[c] == c
    {
      curves := curves + [i];
    }
    line := Line(points, StrokeWidth, color, curves);
  }

  /** The lines `generateLines` draws for `ds`, one per dot type. */
  function LinesOf(ds: seq<PlacedDot>): map<DotType, Line>
  {
    map t | t in Types(ds) :: LineOf(Filter(ds, t))
  }

  /** `generateLines` as a whole, once the dots are collected: group them, then draw each group. */
  method BuildLines(ds: seq<PlacedDot>) returns (lines: map<DotType, Line>)
    ensures lines.Keys == Types(ds)
    ensures lines == LinesOf(ds)
  {
    var groups := GroupBy(ds);
    lines := DrawGroups(groups);
    assert forall t :: t in lines ==> lines[t] == LinesOf(ds)[t];
  }

  /** The loop over the groups of `generateLines`: one line per group, under the group's key. */
  method DrawGroups(groups: map<DotType, seq<PlacedDot>>) returns (lines: map<DotType, Line>)
    requires forall t :: t in groups ==> |groups[t]| > 0
    ensures lines.Keys == groups.Keys
    ensures forall t :: t in lines ==> lines[t] == LineOf(groups[t])
  {
    lines := map[];
    var todo := groups.Keys;
    while todo != {}
      invariant todo <= groups.Keys
      invariant lines.Keys == groups.Keys - todo
      invariant forall t :: t in lines ==> lines[t] == LineOf(groups[t])
      decreases todo
    {
      var t :| t in todo;
      var line := DrawLine(groups[t]);
      lines := lines[t := line];
      todo := todo - {t};
    }
  }

  /**
   * The colour of a line is the colour of the last dot of its type, and it has
   * one segment fewer than that type has dots.
   */
  lemma LineColorIsLastOfType(ds: seq<PlacedDot>, t: DotType, j: nat)
    requires j < |ds| && ds[j].dot.dotType == t
    requires forall k :: j < k < |ds| ==> ds[k].dot.dotType != t
    ensures t in LinesOf(ds)
    ensures LinesOf(ds)[t].color == ds[j].dot.color
    ensures |LinesOf(ds)[t].curves| == |Filter(ds, t)| - 1
  {
    var before, after := ds[..j + 1], ds[j + 1..];
    assert ds == before + after;
    assert before == ds[..j] + [ds[j]];
    FilterSnoc(ds[..j], ds[j], t);
    TypesSnoc(ds[..j], ds[j]);
    FilterAppend(before, after, t);
    assert forall k :: 0 <= k < |after| ==> after[k] == ds[j + 1 + k];
    FilterNone(after, t);
    TypesAppend(before, after);
    var g := Filter(ds, t);
    assert g == Filter(ds[..j], t) + [ds[j]];
    assert LinesOf(ds)[t] == LineOf(g);
  }

  /** One block with two dots of one type: one line through both, one segment. */
  lemma TwoDotsOneType(a: PlacedDot, b: PlacedDot)
    requires a.dot.dotType == b.dot.dotType
    ensures var lines := LinesOf([a, b]);
      lines.Keys == {a.dot.dotType} &&
      lines[a.dot.dotType] == Line([a.at, b.at], StrokeWidth, b.dot.color, [0])
  {
    var t := a.dot.dotType;
    assert [a, b][..1] == [a];
    assert [a][..0] == [];
    assert Filter([a, b], t) == [a, b];
    assert Types([a, b]) == {t};
  }

  /** Two dots of different types: two lines, each of one point, none with a segment. */
  lemma TwoTypesTwoLines(a: PlacedDot, b: PlacedDot)
    requires a.dot.dotType != b.dot.dotType
    ensures var lines := LinesOf([a, b]);
      lines.Keys == {a.dot.dotType, b.dot.dotType} &&
      lines[a.dot.dotType] == Line([a.at], StrokeWidth, a.dot.color, []) &&
      lines[b.dot.dotType] == Line([b.at], StrokeWidth, b.dot.color, [])
  {
    assert [a, b][..1] == [a];
    assert [a][..0] == [];
    assert Filter([a, b], a.dot.dotType) == [a];
    assert Filter([a, b], b.dot.dotType) == [b];
    assert Types([a, b]) == {a.dot.dotType, b.dot.dotType};
  }
}
