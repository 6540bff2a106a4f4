/**
 * The pure pieces of simulate_wind: the semi-axis draw, the shift of the
 * focus, the ellipse test and the direction the wind blows along an edge.
 */
module Wind {
  import opened Draws
  import opened GridIndex

  /** random_bound: the largest semi-axis drawn, in units of five cells. */
  const RandomBound: int := 4

  /** The semi-axes drawn in round i of the redraw loop. */
  function AxesAt(axes: seq<(nat, nat)>, i: nat): (ab: (int, int))
    requires i < |axes|
    ensures 1 <= ab.0 <= RandomBound && 1 <= ab.1 <= RandomBound
  {
    (RandInt(1, RandomBound, axes[i].0), RandInt(1, RandomBound, axes[i].1))
  }

  /** Some round of the draws gives two different semi-axes; otherwise the
      redraw loop would not end. */
  ghost predicate HasUnequalRound(axes: seq<(nat, nat)>)
  {
    exists i :: 0 <= i < |axes| && AxesAt(axes, i).0 != AxesAt(axes, i).1
  }

  /** The first round, from round i on, whose two draws differ. */
  ghost function FirstUnequalFrom(axes: seq<(nat, nat)>, i: nat): (r: nat)
    requires i <= |axes| && exists j :: i <= j < |axes| && AxesAt(axes, j).0 != AxesAt(axes, j).1
    ensures i <= r < |axes| && AxesAt(axes, r).0 != AxesAt(axes, r).1
    ensures forall j :: i <= j < r ==> AxesAt(axes, j).0 == AxesAt(axes, j).1
    decreases |axes| - i
  {
    if AxesAt(axes, i).0 != AxesAt(axes, i).1 then i else FirstUnequalFrom(axes, i + 1)
  }

  /** The semi-axes the redraw loop settles on: those of the first round
      whose two draws differ. */
  ghost function SemiAxes(axes: seq<(nat, nat)>): (ab: (int, int))
    requires HasUnequalRound(axes)
    ensures ab.0 != ab.1 && 1 <= ab.0 <= RandomBound && 1 <= ab.1 <= RandomBound
  {
    AxesAt(axes, FirstUnequalFrom(axes, 0))
  }

  /** The redraw loop: a and b are drawn until they differ. The result is
      the first round whose two draws differ. */
  method DrawSemiAxes(axes: seq<(nat, nat)>) returns (a: int, b: int, round: nat)
    requires HasUnequalRound(axes)
    ensures round < |axes| && (a, b) == AxesAt(axes, round)
    ensures a != b && 1 <= a <= RandomBound && 1 <= b <= RandomBound
    ensures forall i :: 0 <= i < round ==> AxesAt(axes, i).0 == AxesAt(axes, i).1
    ensures (a, b) == SemiAxes(axes)
  {
    ghost var w :| 0 <= w < |axes| && AxesAt(axes, w).0 != AxesAt(axes, w).1;
    a, b := 0, 0;
    var i := 0;
    while a == b
      invariant 0 <= i <= |axes|
      invariant a == b ==> i <= w && forall j :: 0 <= j < i ==> AxesAt(axes, j).0 == AxesAt(axes, j).1
      invariant a != b ==> 1 <= i && (a, b) == AxesAt(axes, i - 1) &&
                           forall j :: 0 <= j < i - 1 ==> AxesAt(axes, j).0 == AxesAt(axes, j).1
      decreases |axes| - i
    {
      a := RandInt(1, RandomBound, axes[i].0);
      b := RandInt(1, RandomBound, axes[i].1);
      i := i + 1;
    }
    round := i - 1;
    assert round == FirstUnequalFrom(axes, 0);
  }

  function IntMax(x: int, y: int): int { if x >= y then x else y }

  function IntAbs(x: int): nat { if x < 0 then -x else x }

  /** The signed shift c of the focus from the centre: a magnitude drawn in
      1..max(a, b) - 1 with a random sign, or 0 when that range is empty. */
  function FocusShift(a: int, b: int, magnitude: nat, sign: nat): (c: int)
    ensures IntMax(a, b) - 1 > 0 ==> 1 <= IntAbs(c) <= IntMax(a, b) - 1
    ensures IntMax(a, b) - 1 <= 0 ==> c == 0
  {
    var cMax := IntMax(a, b) - 1;
    if cMax > 0 then
      var s := Choice([-1, 1], sign);
      assert s == -1 || s == 1;
      RandInt(1, cMax, magnitude) * s
    else 0
  }

  /** The id offset of the focus: c whole columns of a grid of side
      gridSide for a horizontal ellipse (a > b), c rows otherwise. */
  function FocusOffset(a: int, b: int, c: int, gridSide: nat): int
  {
    if a > b then gridSide * c else c
  }

  /** In the column-by-column numbering, moving an id by c columns keeps its
      row and moves its column by c. */
  lemma ColumnOffsetMovesColumn(id: int, c: int, g: int)
    requires g > 0
    ensures NodeIdToGrid(id + FocusOffset(1, 0, c, g), g) ==
            (NodeIdToGrid(id, g).0, NodeIdToGrid(id, g).1 + c)
  {
    var rc := NodeIdToGrid(id, g);
    assert id - 1 == rc.1 * g + rc.0;
    assert id + g * c - 1 == (rc.1 + c) * g + rc.0;
    DivisionUnique(id + g * c - 1, g, rc.1 + c, rc.0);
  }

  /** Moving an id by c rows keeps its column when the row stays on the grid. */
  lemma RowOffsetMovesRow(id: int, c: int, g: int)
    requires g > 0
    requires 0 <= NodeIdToGrid(id, g).0 + c < g
    ensures NodeIdToGrid(id + FocusOffset(0, 1, c, g), g) ==
            (NodeIdToGrid(id, g).0 + c, NodeIdToGrid(id, g).1)
  {
    var rc := NodeIdToGrid(id, g);
    assert id - 1 == rc.1 * g + rc.0;
    DivisionUnique(id + c - 1, g, rc.1, rc.0 + c);
  }

  /** Whether p lies in the axis-parallel ellipse with the given centre and
      semi-axes sa (along x) and sb (along y). */
  predicate InEllipse(p: (real, real), centre: (real, real), sa: real, sb: real)
    requires sa > 0.0 && sb > 0.0
  {
    (p.0 - centre.0) * (p.0 - centre.0) / (sa * sa) + (p.1 - centre.1) * (p.1 - centre.1) / (sb * sb) <= 1.0
  }

  /** The centre is in its own ellipse, so the chosen centre node is always
      in the wind zone. */
  lemma CentreInEllipse(centre: (real, real), sa: real, sb: real)
    requires sa > 0.0 && sb > 0.0
    ensures InEllipse(centre, centre, sa, sb)
  {
    assert (centre.0 - centre.0) * (centre.0 - centre.0) == 0.0;
    assert (centre.1 - centre.1) * (centre.1 - centre.1) == 0.0;
  }

  /** The wind direction given to an edge with endpoints at p1 and p2 when
      the focus is at pf: along a horizontal ellipse it blows east (0) when
      both endpoints lie east of the focus and west (180) otherwise; along a
      vertical one north (90) when both lie north of it and south (270)
      otherwise. */
  function WindAngle(horizontal: bool, p1: (real, real), p2: (real, real), pf: (real, real)): (angle: real)
    ensures horizontal ==> (angle == 0.0 <==> p1.0 > pf.0 && p2.0 > pf.0) && (angle == 0.0 || angle == 180.0)
    ensures !horizontal ==> (angle == 90.0 <==> p1.1 > pf.1 && p2.1 > pf.1) && (angle == 90.0 || angle == 270.0)
  {
    if horizontal then (if p1.0 > pf.0 && p2.0 > pf.0 then 0.0 else 180.0)
    else (if p1.1 > pf.1 && p2.1 > pf.1 then 90.0 else 270.0)
  }
}
