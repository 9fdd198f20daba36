/**
  The search of the lane planner, `plan` and `recursive_plan` of
  final-exam/programming.py: a uniform-cost search that sorts its frontier,
  pops the cheapest entry, closes its cell, returns its cost when the cell is
  the goal, and otherwise offers the open neighbours of the cell to the
  frontier and searches the rest of it. Its result is the least route cost
  of Routes, or 0.0 when the goal cannot be reached.
 */
module Planner {
  import opened Road
  import opened Frontier
  import opened Routes

  /** The closed grid marks exactly the cells of K. */
  ghost predicate Marks(closed: array2<bool>, K: set<Pos>)
    reads closed
  {
    && (forall p :: p in K ==> 0 <= p.0 < closed.Length0 && 0 <= p.1 < closed.Length1)
    && (forall y, x :: 0 <= y < closed.Length0 && 0 <= x < closed.Length1 ==> (closed[y, x] <==> (y, x) in K))
  }

  /** The entry `[cost + step_cost + road_cost, new_position]` that
      `recursive_plan` offers for the neighbour `bro` of the popped entry e. */
  function Offer(road: Grid, e: Entry, bro: (real, Pos)): Entry
    requires WellFormed(road) && OnRoad(road, e.1)
  {
    (e.0 + bro.0 + 1.0 / (Speed(road, e.1) as real), bro.1)
  }

  /** All the offers made when e is popped, in the order of `neighbors`. */
  function Offers(road: Grid, laneChangeCost: real, closed: array2<bool>, e: Entry): seq<Entry>
    requires WellFormed(road) && Fits(road, closed) && OnRoad(road, e.1)
    reads closed
  {
    var bros := Neighbors(road, closed, laneChangeCost, e.1);
    seq(|bros|, k requires 0 <= k < |bros| => Offer(road, e, bros[k]))
  }

  /** With positive speeds and a lane-change cost that is not negative, no
      offer is as cheap as the popped entry it comes from. */
  lemma OffersNotCheaper(road: Grid, laneChangeCost: real, closed: array2<bool>, e: Entry)
    requires WellFormed(road) && Fits(road, closed) && OnRoad(road, e.1) && laneChangeCost >= 0.0
    ensures forall x :: x in Offers(road, laneChangeCost, closed, e) ==> x.0 > e.0
  {
    var bros := Neighbors(road, closed, laneChangeCost, e.1);
    var es := Offers(road, laneChangeCost, closed, e);
    assert Speed(road, e.1) > 0;
    forall x | x in es ensures x.0 > e.0 {
      var k :| 0 <= k < |es| && es[k] == x;
      assert x == Offer(road, e, bros[k]);
    }
  }

  /** es expands the popped entry e while the cells of K are closed: at most
      three offers, each for a cell one move from e's cell and not closed,
      priced at e's cost plus the move; and every such cell is offered. */
  ghost predicate Expands(road: Grid, laneChangeCost: real, K: set<Pos>, e: Entry, es: seq<Entry>)
    requires WellFormed(road) && OnRoad(road, e.1)
  {
    && |es| <= 3
    && (forall k :: 0 <= k < |es| ==>
          && Edge(road, e.1, es[k].1)
          && es[k].1 !in K
          && es[k].0 == e.0 + StepCost(road, laneChangeCost, e.1, es[k].1))
    && (forall w :: Edge(road, e.1, w) && w !in K ==> exists k :: 0 <= k < |es| && es[k].1 == w)
  }

  /** The offers of `recursive_plan` are exactly the moves out of the popped
      cell into cells that are not closed, each priced as Routes prices it. */
  lemma OffersExpand(road: Grid, laneChangeCost: real, closed: array2<bool>, K: set<Pos>, e: Entry)
    requires WellFormed(road) && Fits(road, closed) && Marks(closed, K) && OnRoad(road, e.1)
    ensures Expands(road, laneChangeCost, K, e, Offers(road, laneChangeCost, closed, e))
  {
    var bros := Neighbors(road, closed, laneChangeCost, e.1);
    var es := Offers(road, laneChangeCost, closed, e);
    forall k | 0 <= k < |es|
      ensures Edge(road, e.1, es[k].1) && es[k].1 !in K
      ensures es[k].0 == e.0 + StepCost(road, laneChangeCost, e.1, es[k].1)
    {
      assert es[k] == Offer(road, e, bros[k]);
    }
    forall w | Edge(road, e.1, w) && w !in K
      ensures exists k :: 0 <= k < |es| && es[k].1 == w
    {
      NeighborsComplete(road, closed, laneChangeCost, e.1, w);
      var i :| 0 <= i < |bros| && bros[i].1 == w;
      assert es[i].1 == w;
    }
  }

  /** An entry whose cell is reachable at no more than the entry's cost. */
  predicate Priced(road: Grid, laneChangeCost: real, init: Pos, x: Entry)
    requires WellFormed(road)
  {
    Cheapest(road, laneChangeCost, init, x.1).Some? && Cheapest(road, laneChangeCost, init, x.1).value <= x.0
  }

  /** Every move out of a closed cell into a cell that is not closed is
      covered by an entry of F no dearer than the least cost of the closed
      cell plus the move. */
  ghost predicate CoversMoves(road: Grid, laneChangeCost: real, init: Pos, F: seq<Entry>, K: set<Pos>)
    requires WellFormed(road)
  {
    forall u, w :: u in K && w !in K && Edge(road, u, w) && Cheapest(road, laneChangeCost, init, u).Some? ==>
      Covered(F, w, Cheapest(road, laneChangeCost, init, u).value + StepCost(road, laneChangeCost, u, w))
  }

  /** What holds each time `recursive_plan` is entered with frontier F while
      the cells of K are closed:
      - every entry's cost is the cost of some route to its cell or more;
      - every closed cell is reachable;
      - the moves out of closed cells are covered (CoversMoves);
      - before the start is closed, the frontier is the initial one;
      - the goal is not closed, or the search would have stopped. */
  ghost predicate SearchInv(road: Grid, laneChangeCost: real, init: Pos, goal: Pos, F: seq<Entry>, K: set<Pos>)
    requires WellFormed(road)
  {
    && (forall x :: x in F ==> Priced(road, laneChangeCost, init, x))
    && (forall u :: u in K ==> Cheapest(road, laneChangeCost, init, u).Some?)
    && CoversMoves(road, laneChangeCost, init, F, K)
    && (init !in K ==> F == [(0.0, init)])
    && goal !in K
  }

  /** For every reachable cell that is not closed, some frontier entry (for
      any cell) costs no more than that cell's least cost: follow a cheapest
      route back to the last closed cell, whose move out is covered. */
  lemma {:induction false} FrontierCovers(road: Grid, laneChangeCost: real, init: Pos, goal: Pos,
                                          F: seq<Entry>, K: set<Pos>, v: Pos)
    requires WellFormed(road) && laneChangeCost >= 0.0
    requires SearchInv(road, laneChangeCost, init, goal, F, K)
    requires v !in K && Cheapest(road, laneChangeCost, init, v).Some?
    ensures exists x :: x in F && x.0 <= Cheapest(road, laneChangeCost, init, v).value
    decreases v.1 - init.1
  {
    var d := Cheapest(road, laneChangeCost, init, v).value;
    if init !in K {
      assert (0.0, init) in F;
    } else {
      var u := CheapestPred(road, laneChangeCost, init, v);
      StepCostPositive(road, laneChangeCost, u, v);
      if u in K {
        assert Covered(F, v, d);
      } else {
        FrontierCovers(road, laneChangeCost, init, goal, F, K, u);
      }
    }
  }

  /** The entry popped from the sorted frontier for a cell that is not yet
      closed carries the least cost of that cell. */
  lemma PopSettles(road: Grid, laneChangeCost: real, init: Pos, goal: Pos, F: seq<Entry>, K: set<Pos>)
    requires WellFormed(road) && laneChangeCost >= 0.0
    requires SearchInv(road, laneChangeCost, init, goal, F, K)
    requires F != [] && SortFrontier(F)[0].1 !in K
    ensures Cheapest(road, laneChangeCost, init, SortFrontier(F)[0].1).Some?
    ensures Cheapest(road, laneChangeCost, init, SortFrontier(F)[0].1).value == SortFrontier(F)[0].0
  {
    var s := SortFrontier(F);
    PopIsMinimum(F);
    assert Priced(road, laneChangeCost, init, s[0]);
    var d := Cheapest(road, laneChangeCost, init, s[0].1).value;
    FrontierCovers(road, laneChangeCost, init, goal, F, K, s[0].1);
    var x :| x in F && x.0 <= d;
    assert Le(s[0], x);
    assert s[0].0 <= x.0;
  }

  /** An empty frontier means the goal cannot be reached. */
  lemma ExhaustedMeansUnreachable(road: Grid, laneChangeCost: real, init: Pos, goal: Pos, K: set<Pos>)
    requires WellFormed(road) && laneChangeCost >= 0.0
    requires SearchInv(road, laneChangeCost, init, goal, [], K)
    ensures Cheapest(road, laneChangeCost, init, goal).None?
  {
    if Cheapest(road, laneChangeCost, init, goal).Some? {
      FrontierCovers(road, laneChangeCost, init, goal, [], K, goal);
    }
  }

  /** The entries after one expansion are still priced: the old ones were,
      and each offer costs a route to the popped cell plus one move. */
  lemma StepKeepsPrices(road: Grid, laneChangeCost: real, init: Pos, goal: Pos, F: seq<Entry>, K: set<Pos>, es: seq<Entry>)
    requires WellFormed(road)
    requires SearchInv(road, laneChangeCost, init, goal, F, K)
    requires F != [] && OnRoad(road, SortFrontier(F)[0].1)
    requires Expands(road, laneChangeCost, K + {SortFrontier(F)[0].1}, SortFrontier(F)[0], es)
    ensures forall x :: x in MergeAll(SortFrontier(F)[1..], es) ==> Priced(road, laneChangeCost, init, x)
  {
    var s := SortFrontier(F);
    MergeAllFrom(s[1..], es);
    assert Priced(road, laneChangeCost, init, s[0]);
    forall x | x in MergeAll(s[1..], es) ensures Priced(road, laneChangeCost, init, x) {
      if x in s[1..] {
        assert x in s;
      } else {
        var k :| 0 <= k < |es| && es[k] == x;
        CheapestStep(road, laneChangeCost, init, s[0].1, x.1);
      }
    }
  }

  /** A move out of a cell closed earlier stays covered: the entry that
      covered it is not the popped one and survives the merges. */
  lemma StepKeepsOldCover(road: Grid, laneChangeCost: real, init: Pos, goal: Pos, F: seq<Entry>, K: set<Pos>,
                          es: seq<Entry>, u: Pos, w: Pos)
    requires WellFormed(road)
    requires SearchInv(road, laneChangeCost, init, goal, F, K)
    requires F != [] && u in K && w !in K && w != SortFrontier(F)[0].1 && Edge(road, u, w)
    ensures Covered(MergeAll(SortFrontier(F)[1..], es), w,
                    Cheapest(road, laneChangeCost, init, u).value + StepCost(road, laneChangeCost, u, w))
  {
    var s := SortFrontier(F);
    var bound := Cheapest(road, laneChangeCost, init, u).value + StepCost(road, laneChangeCost, u, w);
    var x :| x in F && x.1 == w && x.0 <= bound;
    assert x in s && x != s[0];
    assert s == [s[0]] + s[1..];
    assert Covered(s[1..], w, bound);
    MergeAllCovers(s[1..], es, w, bound);
  }

  /** A move out of the cell closed just now is covered by its offer, whose
      cost is the cell's least cost plus the move. */
  lemma StepCoversPopped(road: Grid, laneChangeCost: real, init: Pos, goal: Pos, F: seq<Entry>, K: set<Pos>,
                         es: seq<Entry>, w: Pos)
    requires WellFormed(road) && laneChangeCost >= 0.0
    requires SearchInv(road, laneChangeCost, init, goal, F, K)
    requires F != [] && OnRoad(road, SortFrontier(F)[0].1) && SortFrontier(F)[0].1 !in K
    requires Expands(road, laneChangeCost, K + {SortFrontier(F)[0].1}, SortFrontier(F)[0], es)
    requires w !in K + {SortFrontier(F)[0].1} && Edge(road, SortFrontier(F)[0].1, w)
    ensures Cheapest(road, laneChangeCost, init, SortFrontier(F)[0].1).Some?
    ensures Covered(MergeAll(SortFrontier(F)[1..], es), w,
                    Cheapest(road, laneChangeCost, init, SortFrontier(F)[0].1).value +
                    StepCost(road, laneChangeCost, SortFrontier(F)[0].1, w))
  {
    var s := SortFrontier(F);
    PopSettles(road, laneChangeCost, init, goal, F, K);
    var k :| 0 <= k < |es| && es[k].1 == w;
    MergeAllOffered(s[1..], es, k);
  }

  /** The moves out of closed cells stay covered after one expansion. */
  lemma StepKeepsCoverage(road: Grid, laneChangeCost: real, init: Pos, goal: Pos, F: seq<Entry>, K: set<Pos>, es: seq<Entry>)
    requires WellFormed(road) && laneChangeCost >= 0.0
    requires SearchInv(road, laneChangeCost, init, goal, F, K)
    requires F != [] && OnRoad(road, SortFrontier(F)[0].1)
    requires Expands(road, laneChangeCost, K + {SortFrontier(F)[0].1}, SortFrontier(F)[0], es)
    ensures forall u :: u in K + {SortFrontier(F)[0].1} ==> Cheapest(road, laneChangeCost, init, u).Some?
    ensures CoversMoves(road, laneChangeCost, init, MergeAll(SortFrontier(F)[1..], es), K + {SortFrontier(F)[0].1})
  {
    var s := SortFrontier(F);
    var v := s[0].1;
    assert s[0] in F;
    assert Priced(road, laneChangeCost, init, s[0]);
    forall u, w | u in K + {v} && w !in K + {v} && Edge(road, u, w) && Cheapest(road, laneChangeCost, init, u).Some?
      ensures Covered(MergeAll(s[1..], es), w,
                      Cheapest(road, laneChangeCost, init, u).value + StepCost(road, laneChangeCost, u, w))
    {
      if u in K {
        StepKeepsOldCover(road, laneChangeCost, init, goal, F, K, es, u, w);
      } else {
        assert u == v;
        StepCoversPopped(road, laneChangeCost, init, goal, F, K, es, w);
      }
    }
  }

  /** At most three entries of column x + 1 weigh less than one entry of
      column x. */
  lemma NextColumnLighter(cols: int, x: int, es: seq<Entry>)
    requires 0 <= x < cols && |es| <= 3
    requires forall k :: 0 <= k < |es| ==> es[k].1.1 == x + 1
    ensures Weight(cols, es) < Pow4(cols - x)
  {
    var w := Pow4(cols - x - 1);
    forall e | e in es ensures EntryWeight(cols, e) <= w {
      var k :| 0 <= k < |es| && es[k] == e;
    }
    WeightAtMost(cols, es, w);
    assert |es| * w <= 3 * w;
  }

  /** Dropping the head of a sorted frontier s and merging at most three
      offers of the column after the head's leaves less weight than s had. */
  lemma PopAndOfferLighter(cols: int, s: seq<Entry>, es: seq<Entry>)
    requires s != [] && 0 <= s[0].1.1 < cols && |es| <= 3
    requires forall k :: 0 <= k < |es| ==> es[k].1.1 == s[0].1.1 + 1
    ensures Weight(cols, MergeAll(s[1..], es)) < Weight(cols, s)
  {
    WeightMergeAll(cols, s[1..], es);
    NextColumnLighter(cols, s[0].1.1, es);
    assert Weight(cols, s) == Pow4(cols - s[0].1.1) + Weight(cols, s[1..]);
  }

  /** One expansion lowers the weight of the frontier: the popped entry
      outweighs the at most three offers of the next column. */
  lemma StepShrinks(road: Grid, laneChangeCost: real, K: set<Pos>, F: seq<Entry>, es: seq<Entry>)
    requires WellFormed(road)
    requires F != [] && OnRoad(road, SortFrontier(F)[0].1)
    requires Expands(road, laneChangeCost, K, SortFrontier(F)[0], es)
    ensures Weight(|road[0]|, MergeAll(SortFrontier(F)[1..], es)) < Weight(|road[0]|, F)
  {
    var s := SortFrontier(F);
    WeightSort(|road[0]|, F);
    forall k | 0 <= k < |es| ensures es[k].1.1 == s[0].1.1 + 1 {
      assert Edge(road, s[0].1, es[k].1);
    }
    PopAndOfferLighter(|road[0]|, s, es);
  }

  /** One activation of `recursive_plan` that does not stop hands the rest
      of the merged frontier to the next activation with the invariant kept
      and the weight lowered. */
  lemma StepKeepsSearchInv(road: Grid, laneChangeCost: real, init: Pos, goal: Pos, F: seq<Entry>, K: set<Pos>,
                           es: seq<Entry>, K': set<Pos>)
    requires WellFormed(road) && laneChangeCost >= 0.0
    requires SearchInv(road, laneChangeCost, init, goal, F, K)
    requires F != [] && OnRoad(road, SortFrontier(F)[0].1) && SortFrontier(F)[0].1 != goal
    requires K' == K + {SortFrontier(F)[0].1}
    requires Expands(road, laneChangeCost, K', SortFrontier(F)[0], es)
    ensures SearchInv(road, laneChangeCost, init, goal, MergeAll(SortFrontier(F), es)[1..], K')
    ensures Weight(|road[0]|, MergeAll(SortFrontier(F), es)[1..]) < Weight(|road[0]|, F)
  {
    var s := SortFrontier(F);
    forall x | x in es ensures x.1 != s[0].1 {
      var k :| 0 <= k < |es| && es[k] == x;
    }
    MergeAllKeepsHead(s, es);
    assert MergeAll(s, es)[1..] == MergeAll(s[1..], es);
    StepKeepsPrices(road, laneChangeCost, init, goal, F, K, es);
    StepKeepsCoverage(road, laneChangeCost, init, goal, F, K, es);
    if init !in K {
      assert s[0] in F;
    }
    StepShrinks(road, laneChangeCost, K', F, es);
  }

  /** After the popped cell is closed and its offers merged into the sorted
      frontier f, the rest of f satisfies the invariant for the enlarged
      closed set and weighs less than the frontier before. */
  lemma Advance(road: Grid, laneChangeCost: real, init: Pos, goal: Pos, F: seq<Entry>, K: set<Pos>,
                closed: array2<bool>, f: seq<Entry>)
    requires WellFormed(road) && Fits(road, closed) && laneChangeCost >= 0.0
    requires SearchInv(road, laneChangeCost, init, goal, F, K)
    requires F != [] && OnRoad(road, SortFrontier(F)[0].1) && SortFrontier(F)[0].1 != goal
    requires Marks(closed, K + {SortFrontier(F)[0].1})
    requires f == MergeAll(SortFrontier(F), Offers(road, laneChangeCost, closed, SortFrontier(F)[0]))
    ensures SearchInv(road, laneChangeCost, init, goal, f[1..], K + {SortFrontier(F)[0].1})
    ensures Weight(|road[0]|, f[1..]) < Weight(|road[0]|, F)
  {
    var s := SortFrontier(F);
    var es := Offers(road, laneChangeCost, closed, s[0]);
    OffersExpand(road, laneChangeCost, closed, K + {s[0].1}, s[0]);
    StepKeepsSearchInv(road, laneChangeCost, init, goal, F, K, es, K + {s[0].1});
  }

  /** The loop of `recursive_plan` over `neighbors`: each neighbour of the
      popped entry e is offered to the frontier with `add_to_frontier`, at
      e's cost plus the step cost plus the inverse speed of e's cell. */
  method OfferNeighbors(road: Grid, laneChangeCost: real, closed: array2<bool>, frontier: seq<Entry>, e: Entry)
    returns (f: seq<Entry>)
    requires WellFormed(road) && Fits(road, closed) && OnRoad(road, e.1)
    ensures f == MergeAll(frontier, Offers(road, laneChangeCost, closed, e))
  {
    var (cost, (y, x)) := e;
    f := frontier;
    var bros := Neighbors(road, closed, laneChangeCost, (y, x));
    ghost var es := Offers(road, laneChangeCost, closed, e);
    assert es[..0] == [];
    for i := 0 to |bros|
      invariant f == MergeAll(frontier, es[..i])
    {
      var (stepCost, newPosition) := bros[i];
      var roadCost := 1.0 / (road[y][x] as real);
      var costPrime := cost + stepCost + roadCost;
      assert es[..i + 1][..i] == es[..i] && es[i] == (costPrime, newPosition);
      f := AddToFrontier(f, (costPrime, newPosition));
    }
    assert es[..|bros|] == es;
  }

  /** `closed[y][x] = True`: the cell is closed and no other cell changes. */
  method Close(closed: array2<bool>, y: int, x: int, ghost K: set<Pos>)
    requires 0 <= y < closed.Length0 && 0 <= x < closed.Length1 && Marks(closed, K)
    modifies closed
    ensures Marks(closed, K + {(y, x)})
    ensures forall y', x' :: 0 <= y' < closed.Length0 && 0 <= x' < closed.Length1 ==>
              closed[y', x'] == (old(closed[y', x']) || (y', x') == (y, x))
  {
    closed[y, x] := true;
  }

  /** `recursive_plan`: sort the frontier; when it is empty the goal cannot
      be reached and the answer is 0.0; otherwise close the cell of the
      cheapest entry, return its cost when it is the goal, else offer its
      neighbours to the frontier and search the frontier without it. */
  method RecursivePlan(road: Grid, laneChangeCost: real, frontier: seq<Entry>, closed: array2<bool>,
                       goal: Pos, ghost init: Pos, ghost K: set<Pos>) returns (cost: real)
    requires WellFormed(road) && Fits(road, closed) && laneChangeCost >= 0.0
    requires Marks(closed, K) && SearchInv(road, laneChangeCost, init, goal, frontier, K)
    modifies closed
    ensures var best := Cheapest(road, laneChangeCost, init, goal);
            cost == if best.Some? then best.value else 0.0
    ensures forall y, x :: 0 <= y < closed.Length0 && 0 <= x < closed.Length1 && old(closed[y, x]) ==> closed[y, x]
    ensures forall y, x :: 0 <= y < closed.Length0 && 0 <= x < closed.Length1 && !old(closed[y, x]) && closed[y, x] ==>
              Cheapest(road, laneChangeCost, init, (y, x)).Some?
    ensures forall y, x ::
              0 <= y < closed.Length0 && 0 <= x < closed.Length1 && frontier != [] && (y, x) == SortFrontier(frontier)[0].1
              ==> closed[y, x]
    decreases Weight(|road[0]|, frontier)
  {
    var f := SortFrontier(frontier);
    if f != [] {
      var (c, pos) := f[0];
      var (y, x) := pos;
      ghost var s := f;
      assert s[0] in frontier;
      assert Priced(road, laneChangeCost, init, s[0]);
      Close(closed, y, x, K);
      if pos == goal {
        PopSettles(road, laneChangeCost, init, goal, frontier, K);
        return c;
      }
      f := OfferNeighbors(road, laneChangeCost, closed, f, (c, pos));
      Advance(road, laneChangeCost, init, goal, frontier, K, closed, f);
      label Expanded:
      cost := RecursivePlan(road, laneChangeCost, f[1..], closed, goal, init, K + {pos});
      forall y', x' | 0 <= y' < closed.Length0 && 0 <= x' < closed.Length1 && !old(closed[y', x']) && closed[y', x']
        ensures Cheapest(road, laneChangeCost, init, (y', x')).Some?
      {
        if (y', x') != pos {
          assert !old@Expanded(closed[y', x']);
        }
      }
    } else {
      assert frontier == [];
      ExhaustedMeansUnreachable(road, laneChangeCost, init, goal, K);
      cost := 0.0;
    }
  }

  /** `plan`: search from an all-open closed grid and the single entry
      (0.0, init). The result is the least cost of a route from init to goal,
      attained by some route, or 0.0 when there is no route. */
  method Plan(road: Grid, laneChangeCost: real, init: Pos, goal: Pos) returns (cost: real)
    requires WellFormed(road) && laneChangeCost >= 0.0 && OnRoad(road, init)
    ensures forall p :: IsRoute(road, init, goal, p) ==> cost <= RouteCost(road, laneChangeCost, p)
    ensures (exists p :: IsRoute(road, init, goal, p)) ==>
              exists p :: IsRoute(road, init, goal, p) && RouteCost(road, laneChangeCost, p) == cost
    ensures (forall p :: !IsRoute(road, init, goal, p)) ==> cost == 0.0
  {
    cost := 0.0;
    var closed := new bool[|road|, |road[0]|]((y, x) => false);
    cost := RecursivePlan(road, laneChangeCost, [(0.0, init)], closed, goal, init, {});
    var best := Cheapest(road, laneChangeCost, init, goal);
    forall p | IsRoute(road, init, goal, p)
      ensures best.Some? && best.value <= RouteCost(road, laneChangeCost, p)
    {
      CheapestIsLowest(road, laneChangeCost, init, goal, p);
    }
    if best.Some? {
      var p := RouteToCheapest(road, laneChangeCost, init, goal);
      assert IsRoute(road, init, goal, p) && RouteCost(road, laneChangeCost, p) == cost;
    }
  }
}
