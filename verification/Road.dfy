/**
  The road of the lane planner: a grid of speeds with one row per lane
  (lane 0 is the leftmost, fastest lane) and one column per step along the
  highway. A speed of 0 marks an obstacle. This module holds the cell
  predicates and the neighbour generator of final-exam/programming.py.
 */
module Road {

  /** A position is (lane, column), both zero-based. */
  type Pos = (int, int)

  /** A road, lanes by columns, row-major. */
  type Grid = seq<seq<int>>

  /** What every caller of the planner supplies: at least one lane, every lane
      as long as the first one, and no negative speed. */
  predicate WellFormed(road: Grid) {
    && |road| > 0
    && (forall i :: 0 <= i < |road| ==> |road[i]| == |road[0]|)
    && (forall i, j :: 0 <= i < |road| && 0 <= j < |road[i]| ==> road[i][j] >= 0)
  }

  /** The column test uses the length of the first lane, as the source does. */
  predicate InBounds(road: Grid, p: Pos)
    requires WellFormed(road)
  {
    0 <= p.1 < |road[0]| && 0 <= p.0 < |road|
  }

  function Speed(road: Grid, p: Pos): int
    requires WellFormed(road) && InBounds(road, p)
  {
    road[p.0][p.1]
  }

  /** A cell a car may occupy: inside the grid and not an obstacle. */
  predicate OnRoad(road: Grid, p: Pos)
    requires WellFormed(road)
  {
    InBounds(road, p) && Speed(road, p) != 0
  }

  /** The closed grid has the road's shape. */
  predicate Fits(road: Grid, closed: array2<bool>)
    requires WellFormed(road)
  {
    closed.Length0 == |road| && closed.Length1 == |road[0]|
  }

  /** `blocked`: an obstacle, or a cell already closed. Only asked of cells
      inside the grid, which `valid` guarantees by testing the bounds first. */
  predicate Blocked(road: Grid, closed: array2<bool>, p: Pos)
    requires WellFormed(road) && Fits(road, closed) && InBounds(road, p)
    reads closed
  {
    road[p.0][p.1] == 0 || closed[p.0, p.1]
  }

  /** `valid`: inside the grid and not blocked. */
  predicate Valid(road: Grid, closed: array2<bool>, p: Pos)
    requires WellFormed(road) && Fits(road, closed)
    reads closed
  {
    var xInBounds := 0 <= p.1 < |road[0]|;
    var yInBounds := 0 <= p.0 < |road|;
    xInBounds && yInBounds && !Blocked(road, closed, p)
  }

  /** Valid cells are exactly the open cells that are not closed. */
  lemma ValidMeansOpenAndNotClosed(road: Grid, closed: array2<bool>, p: Pos)
    requires WellFormed(road) && Fits(road, closed)
    ensures Valid(road, closed, p) <==> OnRoad(road, p) && !closed[p.0, p.1]
  {
  }

  /** One candidate move of `neighbors`: kept when its target is valid. */
  function Move(road: Grid, closed: array2<bool>, stepCost: real, target: Pos): seq<(real, Pos)>
    requires WellFormed(road) && Fits(road, closed)
    reads closed
  {
    if Valid(road, closed, target) then [(stepCost, target)] else []
  }

  /** `neighbors`: the valid cells of the next column in lanes y-1, y and y+1,
      in that order, each paired with the lane-change cost it incurs. */
  function Neighbors(road: Grid, closed: array2<bool>, laneChangeCost: real, p: Pos): (r: seq<(real, Pos)>)
    requires WellFormed(road) && Fits(road, closed)
    reads closed
    ensures |r| <= 3
    ensures forall i :: 0 <= i < |r| ==>
              && r[i].1.1 == p.1 + 1
              && p.0 - 1 <= r[i].1.0 <= p.0 + 1
              && Valid(road, closed, r[i].1)
              && r[i].0 == (if r[i].1.0 == p.0 then 0.0 else laneChangeCost)
    ensures forall i, j :: 0 <= i < j < |r| ==> r[i].1.0 < r[j].1.0
  {
    var (y, x) := p;
    Move(road, closed, laneChangeCost, (y - 1, x + 1))
    + Move(road, closed, 0.0, (y, x + 1))
    + Move(road, closed, laneChangeCost, (y + 1, x + 1))
  }

  /** No valid cell of the next column within one lane is left out. */
  lemma NeighborsComplete(road: Grid, closed: array2<bool>, laneChangeCost: real, p: Pos, w: Pos)
    requires WellFormed(road) && Fits(road, closed)
    requires w.1 == p.1 + 1 && p.0 - 1 <= w.0 <= p.0 + 1 && Valid(road, closed, w)
    ensures exists i :: 0 <= i < |Neighbors(road, closed, laneChangeCost, p)| &&
                        Neighbors(road, closed, laneChangeCost, p)[i].1 == w
  {
    var (y, x) := p;
    var up := Move(road, closed, laneChangeCost, (y - 1, x + 1));
    var straight := Move(road, closed, 0.0, (y, x + 1));
    var down := Move(road, closed, laneChangeCost, (y + 1, x + 1));
    var r := Neighbors(road, closed, laneChangeCost, p);
    assert r == up + straight + down;
    if w.0 == y - 1 {
      assert up == [(laneChangeCost, w)];
      assert r[0].1 == w;
    } else if w.0 == y {
      assert straight == [(0.0, w)];
      assert r[|up|].1 == w;
    } else {
      assert down == [(laneChangeCost, w)];
      assert r[|up| + |straight|].1 == w;
    }
  }

  /** The obstacle-free part of `build_road`: every column of lane i has
      speed laneSpeeds[i]. */
  function BuildRoad(length: nat, laneSpeeds: seq<int>): (road: Grid)
    ensures |road| == |laneSpeeds|
    ensures forall i :: 0 <= i < |road| ==> |road[i]| == length
    ensures forall i, j :: 0 <= i < |road| && 0 <= j < length ==> road[i][j] == laneSpeeds[i]
  {
    seq(|laneSpeeds|, i requires 0 <= i < |laneSpeeds| => seq(length, _ => laneSpeeds[i]))
  }

  /** A road built from positive lane speeds is well formed and has no obstacle. */
  lemma BuildRoadOpen(length: nat, laneSpeeds: seq<int>)
    requires |laneSpeeds| > 0 && forall i :: 0 <= i < |laneSpeeds| ==> laneSpeeds[i] > 0
    ensures WellFormed(BuildRoad(length, laneSpeeds))
    ensures forall p: Pos :: InBounds(BuildRoad(length, laneSpeeds), p) ==> OnRoad(BuildRoad(length, laneSpeeds), p)
  {
  }

  /** The neighbour test of the source: from the corner of an all-1 grid of
      five lanes and four columns only the same lane and the lane below are
      offered; the move up leaves the grid. */
  lemma NeighborsFromCorner(closed: array2<bool>, laneChangeCost: real)
    requires closed.Length0 == 5 && closed.Length1 == 4
    requires forall y, x :: 0 <= y < 5 && 0 <= x < 4 ==> !closed[y, x]
    ensures var road := BuildRoad(4, [1, 1, 1, 1, 1]);
            WellFormed(road) &&
            Neighbors(road, closed, laneChangeCost, (0, 0)) == [(0.0, (0, 1)), (laneChangeCost, (1, 1))] &&
            Neighbors(road, closed, laneChangeCost, (0, 1)) == [(0.0, (0, 2)), (laneChangeCost, (1, 2))]
  {
    var road := BuildRoad(4, [1, 1, 1, 1, 1]);
    BuildRoadOpen(4, [1, 1, 1, 1, 1]);
    assert Valid(road, closed, (0, 1)) && Valid(road, closed, (1, 1));
    assert Valid(road, closed, (0, 2)) && Valid(road, closed, (1, 2));
  }
}
