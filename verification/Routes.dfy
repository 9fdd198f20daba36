/**
  What the lane planner computes: the cost of driving from one cell to
  another, column by column, where each move goes one column ahead and at
  most one lane sideways. The cost of leaving a cell is the inverse of its
  speed, plus the lane-change cost when the lane changes. `Cheapest` gives
  the least such cost by dynamic programming over the columns. The routes
  below, as explicit lists of cells, show that it is the least cost of any
  route and that some route attains it.
 */
module Routes {
  import opened Road

  datatype Option<T> = None | Some(value: T)

  /** A move the car may make: from an open cell to an open cell of the
      next column, in the same lane or one lane either side. */
  predicate Edge(road: Grid, u: Pos, w: Pos)
    requires WellFormed(road)
  {
    OnRoad(road, u) && OnRoad(road, w) && w.1 == u.1 + 1 && u.0 - 1 <= w.0 <= u.0 + 1
  }

  /** The price of the move from u to w: the lane-change cost when the lane
      changes, plus the time spent crossing u, the inverse of its speed. */
  function StepCost(road: Grid, laneChangeCost: real, u: Pos, w: Pos): real
    requires WellFormed(road) && OnRoad(road, u)
  {
    (if w.0 == u.0 then 0.0 else laneChangeCost) + 1.0 / (Speed(road, u) as real)
  }

  /** A move has a positive price when lane changes are not rewarded. */
  lemma StepCostPositive(road: Grid, laneChangeCost: real, u: Pos, w: Pos)
    requires WellFormed(road) && OnRoad(road, u) && laneChangeCost >= 0.0
    ensures StepCost(road, laneChangeCost, u, w) > 0.0
  {
    assert Speed(road, u) > 0;
  }

  /** The cost of arriving at v through its predecessor u, if u can be reached. */
  function Through(road: Grid, laneChangeCost: real, reachU: Option<real>, u: Pos, v: Pos): Option<real>
    requires WellFormed(road)
  {
    if reachU.Some? && OnRoad(road, u) then Some(reachU.value + StepCost(road, laneChangeCost, u, v)) else None
  }

  /** Arriving through a cell reached at a cost that is not negative costs
      no less, when lane changes are not rewarded. */
  lemma ThroughNotNegative(road: Grid, laneChangeCost: real, reachU: Option<real>, u: Pos, v: Pos)
    requires WellFormed(road)
    ensures laneChangeCost >= 0.0 && (reachU.Some? ==> reachU.value >= 0.0) &&
            Through(road, laneChangeCost, reachU, u, v).Some? ==>
            Through(road, laneChangeCost, reachU, u, v).value >= 0.0
  {
    if laneChangeCost >= 0.0 && reachU.Some? && OnRoad(road, u) {
      StepCostPositive(road, laneChangeCost, u, v);
    }
  }

  /** The smaller of two optional costs; None when neither is known. */
  function Least(a: Option<real>, b: Option<real>): (r: Option<real>)
    ensures r.Some? <==> a.Some? || b.Some?
    ensures a.Some? ==> r.value <= a.value
    ensures b.Some? ==> r.value <= b.value
    ensures r == a || r == b
  {
    if a.None? then b
    else if b.None? then a
    else if a.value <= b.value then a
    else b
  }

  /** The least of three optional costs is known and no dearer than any
      known one of them. */
  lemma LeastOfThree(a: Option<real>, b: Option<real>, c: Option<real>, t: Option<real>)
    requires t.Some? && (t == a || t == b || t == c)
    ensures Least(Least(a, b), c).Some? && Least(Least(a, b), c).value <= t.value
  {
  }

  /** The least cost of driving from init to v; None when v cannot be
      reached. A cell of a later column is reached through one of the three
      cells of the column before it that are one lane away at most. */
  function Cheapest(road: Grid, laneChangeCost: real, init: Pos, v: Pos): (r: Option<real>)
    requires WellFormed(road)
    ensures r.Some? ==> OnRoad(road, v) && init.1 <= v.1
    ensures r.Some? && laneChangeCost >= 0.0 ==> r.value >= 0.0
    decreases v.1 - init.1
  {
    if !OnRoad(road, v) || v.1 < init.1 then None
    else if v.1 == init.1 then (if v == init then Some(0.0) else None)
    else
      var fromLeft, fromAhead, fromRight := (v.0 - 1, v.1 - 1), (v.0, v.1 - 1), (v.0 + 1, v.1 - 1);
      var a := Through(road, laneChangeCost, Cheapest(road, laneChangeCost, init, fromLeft), fromLeft, v);
      var b := Through(road, laneChangeCost, Cheapest(road, laneChangeCost, init, fromAhead), fromAhead, v);
      var c := Through(road, laneChangeCost, Cheapest(road, laneChangeCost, init, fromRight), fromRight, v);
      ThroughNotNegative(road, laneChangeCost, Cheapest(road, laneChangeCost, init, fromLeft), fromLeft, v);
      ThroughNotNegative(road, laneChangeCost, Cheapest(road, laneChangeCost, init, fromAhead), fromAhead, v);
      ThroughNotNegative(road, laneChangeCost, Cheapest(road, laneChangeCost, init, fromRight), fromRight, v);
      Least(Least(a, b), c)
  }

  lemma CheapestUnfold(road: Grid, laneChangeCost: real, init: Pos, v: Pos)
    requires WellFormed(road) && OnRoad(road, v) && init.1 < v.1
    ensures Cheapest(road, laneChangeCost, init, v) ==
            Least(Least(Through(road, laneChangeCost, Cheapest(road, laneChangeCost, init, (v.0 - 1, v.1 - 1)), (v.0 - 1, v.1 - 1), v),
                        Through(road, laneChangeCost, Cheapest(road, laneChangeCost, init, (v.0, v.1 - 1)), (v.0, v.1 - 1), v)),
                  Through(road, laneChangeCost, Cheapest(road, laneChangeCost, init, (v.0 + 1, v.1 - 1)), (v.0 + 1, v.1 - 1), v))
  {
  }

  /** Relaxing a move never undercuts the least cost: v is reachable through
      u, at no more than the least cost of u plus the price of the move. */
  lemma CheapestStep(road: Grid, laneChangeCost: real, init: Pos, u: Pos, v: Pos)
    requires WellFormed(road) && Edge(road, u, v)
    requires Cheapest(road, laneChangeCost, init, u).Some?
    ensures Cheapest(road, laneChangeCost, init, v).Some?
    ensures Cheapest(road, laneChangeCost, init, v).value <=
            Cheapest(road, laneChangeCost, init, u).value + StepCost(road, laneChangeCost, u, v)
  {
    var fromLeft, fromAhead, fromRight := (v.0 - 1, v.1 - 1), (v.0, v.1 - 1), (v.0 + 1, v.1 - 1);
    var a := Through(road, laneChangeCost, Cheapest(road, laneChangeCost, init, fromLeft), fromLeft, v);
    var b := Through(road, laneChangeCost, Cheapest(road, laneChangeCost, init, fromAhead), fromAhead, v);
    var c := Through(road, laneChangeCost, Cheapest(road, laneChangeCost, init, fromRight), fromRight, v);
    var t := Through(road, laneChangeCost, Cheapest(road, laneChangeCost, init, u), u, v);
    assert t.Some? && t.value == Cheapest(road, laneChangeCost, init, u).value + StepCost(road, laneChangeCost, u, v);
    assert t == a || t == b || t == c;
    CheapestUnfold(road, laneChangeCost, init, v);
    LeastOfThree(a, b, c, t);
  }

  /** The least cost of a cell other than the start is attained through
      some predecessor: the least cost of that predecessor plus the move. */
  lemma CheapestPred(road: Grid, laneChangeCost: real, init: Pos, v: Pos) returns (u: Pos)
    requires WellFormed(road)
    requires Cheapest(road, laneChangeCost, init, v).Some? && v != init
    ensures Edge(road, u, v) && Cheapest(road, laneChangeCost, init, u).Some?
    ensures Cheapest(road, laneChangeCost, init, v).value ==
            Cheapest(road, laneChangeCost, init, u).value + StepCost(road, laneChangeCost, u, v)
  {
    var fromLeft, fromAhead, fromRight := (v.0 - 1, v.1 - 1), (v.0, v.1 - 1), (v.0 + 1, v.1 - 1);
    var a := Through(road, laneChangeCost, Cheapest(road, laneChangeCost, init, fromLeft), fromLeft, v);
    var b := Through(road, laneChangeCost, Cheapest(road, laneChangeCost, init, fromAhead), fromAhead, v);
    var c := Through(road, laneChangeCost, Cheapest(road, laneChangeCost, init, fromRight), fromRight, v);
    var best := Cheapest(road, laneChangeCost, init, v);
    assert best == Least(Least(a, b), c);
    if best == a {
      u := fromLeft;
    } else if best == b {
      u := fromAhead;
    } else {
      u := fromRight;
    }
  }

  /** A list of cells the car can drive through in order: every cell open,
      every step a move. */
  predicate Drivable(road: Grid, p: seq<Pos>)
    requires WellFormed(road)
  {
    && |p| >= 1
    && OnRoad(road, p[0])
    && forall i :: 0 <= i < |p| - 1 ==> Edge(road, p[i], p[i + 1])
  }

  /** Dropping the last cell of a drivable list leaves a drivable list. */
  lemma DrivablePrefix(road: Grid, p: seq<Pos>)
    requires WellFormed(road) && Drivable(road, p) && |p| > 1
    ensures Drivable(road, p[..|p| - 1])
  {
    var q := p[..|p| - 1];
    forall i | 0 <= i < |q| - 1 ensures Edge(road, q[i], q[i + 1]) {
      assert q[i] == p[i] && q[i + 1] == p[i + 1];
    }
  }

  /** A route from init to v. */
  predicate IsRoute(road: Grid, init: Pos, v: Pos, p: seq<Pos>)
    requires WellFormed(road)
  {
    Drivable(road, p) && p[0] == init && p[|p| - 1] == v
  }

  /** The cost of a route: the sum of the prices of its moves. */
  function RouteCost(road: Grid, laneChangeCost: real, p: seq<Pos>): real
    requires WellFormed(road) && Drivable(road, p)
  {
    if |p| == 1 then 0.0
    else
      DrivablePrefix(road, p);
      RouteCost(road, laneChangeCost, p[..|p| - 1]) + StepCost(road, laneChangeCost, p[|p| - 2], p[|p| - 1])
  }

  /** No route is cheaper than `Cheapest`, and every cell on a route is reachable. */
  lemma {:induction false} CheapestIsLowest(road: Grid, laneChangeCost: real, init: Pos, v: Pos, p: seq<Pos>)
    requires WellFormed(road) && IsRoute(road, init, v, p)
    ensures Cheapest(road, laneChangeCost, init, v).Some?
    ensures Cheapest(road, laneChangeCost, init, v).value <= RouteCost(road, laneChangeCost, p)
    decreases |p|
  {
    if |p| > 1 {
      var q := p[..|p| - 1];
      var u := p[|p| - 2];
      DrivablePrefix(road, p);
      assert Edge(road, u, v);
      CheapestIsLowest(road, laneChangeCost, init, u, q);
      CheapestStep(road, laneChangeCost, init, u, v);
    }
  }

  /** A route to u followed by a move to v is a route to v, costing the
      move more. */
  lemma ExtendRoute(road: Grid, laneChangeCost: real, init: Pos, u: Pos, v: Pos, q: seq<Pos>)
    requires WellFormed(road) && IsRoute(road, init, u, q) && Edge(road, u, v)
    ensures IsRoute(road, init, v, q + [v])
    ensures RouteCost(road, laneChangeCost, q + [v]) ==
            RouteCost(road, laneChangeCost, q) + StepCost(road, laneChangeCost, u, v)
  {
    var p := q + [v];
    assert p[..|p| - 1] == q;
    forall i | 0 <= i < |p| - 1 ensures Edge(road, p[i], p[i + 1]) {
      if i < |q| - 1 {
        assert p[i] == q[i] && p[i + 1] == q[i + 1];
      }
    }
  }

  /** Some route attains `Cheapest`. */
  lemma {:induction false} RouteToCheapest(road: Grid, laneChangeCost: real, init: Pos, v: Pos) returns (p: seq<Pos>)
    requires WellFormed(road) && Cheapest(road, laneChangeCost, init, v).Some?
    ensures IsRoute(road, init, v, p)
    ensures RouteCost(road, laneChangeCost, p) == Cheapest(road, laneChangeCost, init, v).value
    decreases v.1 - init.1
  {
    if v == init {
      p := [v];
    } else {
      var u := CheapestPred(road, laneChangeCost, init, v);
      var q := RouteToCheapest(road, laneChangeCost, init, u);
      p := q + [v];
      ExtendRoute(road, laneChangeCost, init, u, v, q);
    }
  }

  /** The road of the first test of the suite: eight columns, lane speeds
      100, 10 and 1, no obstacle. */
  function FastLeftRoad(): (road: Grid)
    ensures WellFormed(road)
    ensures forall p: Pos :: InBounds(road, p) ==> OnRoad(road, p)
  {
    BuildRoadOpen(8, [100, 10, 1]);
    BuildRoad(8, [100, 10, 1])
  }

  /** The least costs of the three cells of column c of that road, for the
      drive from the slow lane's first cell with a lane-change cost of 0.001. */
  function FastLeftColumn(road: Grid, c: int): (Option<real>, Option<real>, Option<real>)
    requires road == FastLeftRoad()
  {
    (Cheapest(road, 0.001, (2, 0), (0, c)),
     Cheapest(road, 0.001, (2, 0), (1, c)),
     Cheapest(road, 0.001, (2, 0), (2, c)))
  }

  function Plus(o: Option<real>, d: real): Option<real> {
    if o.Some? then Some(o.value + d) else None
  }

  /** Through an open cell, the cost of arriving is the cost of that cell
      plus the price of the move. */
  lemma ThroughOpen(road: Grid, laneChangeCost: real, reachU: Option<real>, u: Pos, v: Pos)
    requires WellFormed(road) && OnRoad(road, u)
    ensures Through(road, laneChangeCost, reachU, u, v) == Plus(reachU, StepCost(road, laneChangeCost, u, v))
  {
  }

  /** The least costs of a column of that road from those of the column
      before it, with the prices of the moves written out: 0.01 to leave the
      fast lane, 0.1 the middle lane and 1.0 the slow lane, plus 0.001 for a
      lane change. */
  function FastLeftNext(p: (Option<real>, Option<real>, Option<real>)): (Option<real>, Option<real>, Option<real>)
  {
    var (p0, p1, p2) := p;
    (Least(Plus(p0, 0.01), Plus(p1, 0.101)),
     Least(Least(Plus(p0, 0.011), Plus(p1, 0.1)), Plus(p2, 1.001)),
     Least(Plus(p1, 0.101), Plus(p2, 1.0)))
  }

  /** The fast lane of a column of that road is reached from the fast or the
      middle lane of the column before it. */
  lemma FastLeftLane0(road: Grid, c: int)
    requires road == FastLeftRoad() && 1 <= c < 8
    ensures Cheapest(road, 0.001, (2, 0), (0, c)) ==
            Least(Plus(Cheapest(road, 0.001, (2, 0), (0, c - 1)), 0.01),
                  Plus(Cheapest(road, 0.001, (2, 0), (1, c - 1)), 0.101))
  {
    var lcc, u0, u1 := 0.001, (0, c - 1), (1, c - 1);
    assert Speed(road, u0) == 100 && Speed(road, u1) == 10 && !OnRoad(road, (-1, c - 1));
    assert StepCost(road, lcc, u0, (0, c)) == 0.01 && StepCost(road, lcc, u1, (0, c)) == 0.101;
    CheapestUnfold(road, lcc, (2, 0), (0, c));
    ThroughOpen(road, lcc, Cheapest(road, lcc, (2, 0), u0), u0, (0, c));
    ThroughOpen(road, lcc, Cheapest(road, lcc, (2, 0), u1), u1, (0, c));
  }

  /** The middle lane of a column of that road is reached from any lane of
      the column before it. */
  lemma FastLeftLane1(road: Grid, c: int)
    requires road == FastLeftRoad() && 1 <= c < 8
    ensures Cheapest(road, 0.001, (2, 0), (1, c)) ==
            Least(Least(Plus(Cheapest(road, 0.001, (2, 0), (0, c - 1)), 0.011),
                        Plus(Cheapest(road, 0.001, (2, 0), (1, c - 1)), 0.1)),
                  Plus(Cheapest(road, 0.001, (2, 0), (2, c - 1)), 1.001))
  {
    var lcc, u0, u1, u2 := 0.001, (0, c - 1), (1, c - 1), (2, c - 1);
    assert Speed(road, u0) == 100 && Speed(road, u1) == 10 && Speed(road, u2) == 1;
    assert StepCost(road, lcc, u0, (1, c)) == 0.011 && StepCost(road, lcc, u1, (1, c)) == 0.1;
    assert StepCost(road, lcc, u2, (1, c)) == 1.001;
    CheapestUnfold(road, lcc, (2, 0), (1, c));
    ThroughOpen(road, lcc, Cheapest(road, lcc, (2, 0), u0), u0, (1, c));
    ThroughOpen(road, lcc, Cheapest(road, lcc, (2, 0), u1), u1, (1, c));
    ThroughOpen(road, lcc, Cheapest(road, lcc, (2, 0), u2), u2, (1, c));
  }

  /** The slow lane of a column of that road is reached from the middle or
      the slow lane of the column before it. */
  lemma FastLeftLane2(road: Grid, c: int)
    requires road == FastLeftRoad() && 1 <= c < 8
    ensures Cheapest(road, 0.001, (2, 0), (2, c)) ==
            Least(Plus(Cheapest(road, 0.001, (2, 0), (1, c - 1)), 0.101),
                  Plus(Cheapest(road, 0.001, (2, 0), (2, c - 1)), 1.0))
  {
    var lcc, u1, u2 := 0.001, (1, c - 1), (2, c - 1);
    assert Speed(road, u1) == 10 && Speed(road, u2) == 1 && !OnRoad(road, (3, c - 1));
    assert StepCost(road, lcc, u1, (2, c)) == 0.101 && StepCost(road, lcc, u2, (2, c)) == 1.0;
    CheapestUnfold(road, lcc, (2, 0), (2, c));
    ThroughOpen(road, lcc, Cheapest(road, lcc, (2, 0), u1), u1, (2, c));
    ThroughOpen(road, lcc, Cheapest(road, lcc, (2, 0), u2), u2, (2, c));
  }

  /** `Cheapest` follows `FastLeftNext` from one column of that road to the next. */
  lemma FastLeftColumnStep(road: Grid, c: int)
    requires road == FastLeftRoad() && 1 <= c < 8
    ensures FastLeftColumn(road, c) == FastLeftNext(FastLeftColumn(road, c - 1))
  {
    FastLeftLane0(road, c);
    FastLeftLane1(road, c);
    FastLeftLane2(road, c);
  }

  /** The least costs of the columns of that road, column by column. */
  function FastLeftTable(): seq<(Option<real>, Option<real>, Option<real>)> {
    [(None, None, Some(0.0)),
     (None, Some(1.001), Some(1.0)),
     (Some(1.102), Some(1.101), Some(1.102)),
     (Some(1.112), Some(1.113), Some(1.202)),
     (Some(1.122), Some(1.123), Some(1.214)),
     (Some(1.132), Some(1.133), Some(1.224)),
     (Some(1.142), Some(1.143), Some(1.234)),
     (Some(1.152), Some(1.153), Some(1.244))]
  }

  /** Each column of the table follows from the one before it. */
  lemma FastLeftTableSteps()
    ensures forall c :: 1 <= c < 8 ==> FastLeftTable()[c] == FastLeftNext(FastLeftTable()[c - 1])
  {
    var t := FastLeftTable();
    assert FastLeftNext(t[0]) == t[1] && FastLeftNext(t[1]) == t[2];
    assert FastLeftNext(t[2]) == t[3] && FastLeftNext(t[3]) == t[4];
    assert FastLeftNext(t[4]) == t[5] && FastLeftNext(t[5]) == t[6];
    assert FastLeftNext(t[6]) == t[7];
  }

  /** `Cheapest` agrees with the table on every column of that road. */
  lemma {:induction false} FastLeftColumns(road: Grid, c: nat)
    requires road == FastLeftRoad() && c < 8
    ensures FastLeftColumn(road, c) == FastLeftTable()[c]
  {
    if c == 0 {
      assert FastLeftColumn(road, 0) == (None, None, Some(0.0));
    } else {
      FastLeftColumns(road, c - 1);
      FastLeftColumnStep(road, c);
      FastLeftTableSteps();
    }
  }

  /** The first expected cost of the test suite: the least cost of driving
      that road from the slow lane's first cell to its last is 1.244 (up to
      the fast lane, along it, and back down to the slow lane). */
  lemma FastLeftLaneExample(road: Grid)
    requires road == FastLeftRoad()
    ensures Cheapest(road, 0.001, (2, 0), (2, 7)) == Some(1.244)
  {
    FastLeftColumns(road, 7);
  }
}
