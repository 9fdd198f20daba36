/**
  The frontier of the lane planner: a list of (cost, position) entries, the
  order in which Python sorts such lists, and `add_to_frontier`, which merges
  a new candidate into the list.
 */
module Frontier {
  import opened Road

  /** An entry [cost, [lane, column]] of the frontier. */
  type Entry = (real, Pos)

  /** Python's comparison of [cost, [lane, column]] lists: lexicographic. */
  predicate Le(a: Entry, b: Entry) {
    a.0 < b.0 || (a.0 == b.0 && (a.1.0 < b.1.0 || (a.1.0 == b.1.0 && a.1.1 <= b.1.1)))
  }

  predicate Sorted(s: seq<Entry>) {
    forall i, j :: 0 <= i < j < |s| ==> Le(s[i], s[j])
  }

  /** An entry below every entry of t and below e is below every entry of a
      list holding the entries of t and e. */
  lemma BelowAll(h: Entry, t: seq<Entry>, e: Entry, rest: seq<Entry>)
    requires Le(h, e) && forall j :: 0 <= j < |t| ==> Le(h, t[j])
    requires multiset(rest) == multiset(t) + multiset{e}
    ensures forall k :: 0 <= k < |rest| ==> Le(h, rest[k])
  {
    forall k | 0 <= k < |rest| ensures Le(h, rest[k]) {
      assert rest[k] in multiset(rest);
      if rest[k] != e {
        assert rest[k] in multiset(t);
        var j :| 0 <= j < |t| && t[j] == rest[k];
      }
    }
  }

  /** An entry below every entry of a sorted list can go in front of it. */
  lemma SortedCons(h: Entry, t: seq<Entry>)
    requires Sorted(t) && forall k :: 0 <= k < |t| ==> Le(h, t[k])
    ensures Sorted([h] + t)
  {
    var r := [h] + t;
    forall i, j | 0 <= i < j < |r| ensures Le(r[i], r[j]) {
      if i > 0 {
        assert r[i] == t[i - 1] && r[j] == t[j - 1];
      }
    }
  }

  /** An entry below the head of a sorted list is below all of it. */
  lemma BelowHead(e: Entry, s: seq<Entry>)
    requires Sorted(s) && s != [] && Le(e, s[0])
    ensures forall k :: 0 <= k < |s| ==> Le(e, s[k])
  {
    forall k | 0 <= k < |s| ensures Le(e, s[k]) {
      if k > 0 {
        assert Le(s[0], s[k]);
      }
    }
  }

  /** Insertion of one entry into a sorted list. */
  function Insert(e: Entry, s: seq<Entry>): (r: seq<Entry>)
    requires Sorted(s)
    ensures Sorted(r)
    ensures multiset(r) == multiset(s) + multiset{e}
  {
    if s == [] then
      [e]
    else if Le(e, s[0]) then
      BelowHead(e, s);
      SortedCons(e, s);
      [e] + s
    else
      var t := s[1..];
      var rest := Insert(e, t);
      assert s == [s[0]] + t;
      assert forall j :: 0 <= j < |t| ==> Le(s[0], t[j]) by {
        forall j | 0 <= j < |t| ensures Le(s[0], t[j]) {
          assert t[j] == s[j + 1];
        }
      }
      BelowAll(s[0], t, e, rest);
      SortedCons(s[0], rest);
      [s[0]] + rest
  }

  /** `frontier.sort()`: the same entries in ascending order. */
  function SortFrontier(s: seq<Entry>): (r: seq<Entry>)
    ensures Sorted(r)
    ensures multiset(r) == multiset(s)
    ensures |r| == |s| && forall x :: x in r <==> x in s
  {
    if s == [] then []
    else
      var r := Insert(s[0], SortFrontier(s[1..]));
      assert s == [s[0]] + s[1..];
      assert forall x :: x in r <==> x in multiset(r);
      r
  }

  /** The head of the sorted frontier is an entry of the frontier and is its
      least entry in Python's order. */
  lemma PopIsMinimum(s: seq<Entry>)
    requires s != []
    ensures SortFrontier(s)[0] in s
    ensures forall x :: x in s ==> Le(SortFrontier(s)[0], x)
  {
    var r := SortFrontier(s);
    forall x | x in s ensures Le(r[0], x) {
      var k :| 0 <= k < |r| && r[k] == x;
      if k > 0 {
        assert Le(r[0], r[k]);
      }
    }
  }

  /** A candidate (c, p) makes an existing entry stale when the entry has the
      same position and a cost that is not below c. */
  predicate Beats(candidate: Entry, existing: Entry) {
    candidate.1 == existing.1 && candidate.0 <= existing.0
  }

  /** The entries that `add_to_frontier` leaves in place, in their order. */
  function Keep(s: seq<Entry>, e: Entry): (r: seq<Entry>)
    ensures |r| <= |s|
    ensures forall x :: x in r <==> x in s && !Beats(e, x)
  {
    if s == [] then []
    else
      (if Beats(e, s[0]) then [] else [s[0]]) + Keep(s[1..], e)
  }

  /** The frontier after `add_to_frontier(s, e)`: the stale entries are gone,
      every other entry is still there, and e comes last. MergeCounts says
      that each other entry stays as often as it was there. */
  function Merge(s: seq<Entry>, e: Entry): (r: seq<Entry>)
    ensures |r| > 0 && r[|r| - 1] == e
    ensures forall x :: x in r[..|r| - 1] <==> x in s && !Beats(e, x)
  {
    var r := Keep(s, e) + [e];
    assert r[..|r| - 1] == Keep(s, e);
    r
  }

  /** Filtering removes every copy of a stale entry and no copy of any
      other entry. */
  lemma {:induction false} KeepCounts(s: seq<Entry>, e: Entry, x: Entry)
    ensures multiset(Keep(s, e))[x] == if Beats(e, x) then 0 else multiset(s)[x]
  {
    if s != [] {
      KeepCounts(s[1..], e, x);
      assert s == [s[0]] + s[1..];
    }
  }

  /** Entry by entry, `add_to_frontier` deletes exactly the stale entries:
      every copy of them goes, and every other entry keeps its number of
      copies. */
  lemma MergeCounts(s: seq<Entry>, e: Entry)
    ensures forall x :: multiset(Merge(s, e)[..|Merge(s, e)| - 1])[x] == if Beats(e, x) then 0 else multiset(s)[x]
  {
    var r := Merge(s, e);
    assert r[..|r| - 1] == Keep(s, e);
    forall x ensures multiset(r[..|r| - 1])[x] == if Beats(e, x) then 0 else multiset(s)[x] {
      KeepCounts(s, e, x);
    }
  }

  /** The indices below n of the entries that e makes stale, ascending: the
      list `new_neighbor_beats` after the first loop has seen n entries. */
  function BeatenIndices(s: seq<Entry>, e: Entry, n: nat): (b: seq<int>)
    requires n <= |s|
    ensures forall k :: 0 <= k < |b| ==> 0 <= b[k] < n && Beats(e, s[b[k]])
    ensures forall k, l :: 0 <= k < l < |b| ==> b[k] < b[l]
    ensures forall i :: 0 <= i < n && Beats(e, s[i]) ==> i in b
  {
    if n == 0 then []
    else BeatenIndices(s, e, n - 1) + (if Beats(e, s[n - 1]) then [n - 1] else [])
  }

  lemma {:induction false} KeepAppend(a: seq<Entry>, b: seq<Entry>, e: Entry)
    ensures Keep(a + b, e) == Keep(a, e) + Keep(b, e)
  {
    if a != [] {
      var head := if Beats(e, a[0]) then [] else [a[0]];
      assert (a + b)[0] == a[0] && (a + b)[1..] == a[1..] + b;
      KeepAppend(a[1..], b, e);
      assert Keep(a + b, e) == head + Keep(a[1..] + b, e);
      assert Keep(a, e) == head + Keep(a[1..], e);
    } else {
      assert a + b == b;
    }
  }

  lemma {:induction false} KeepNothingStale(a: seq<Entry>, e: Entry)
    requires forall i :: 0 <= i < |a| ==> !Beats(e, a[i])
    ensures Keep(a, e) == a
  {
    if a != [] {
      KeepNothingStale(a[1..], e);
    }
  }

  /** Between two consecutive stale indices (or before the first, or after
      the last) no entry is stale. */
  lemma NotStaleBetween(s: seq<Entry>, e: Entry, b: seq<int>, j: int, i: int)
    requires b == BeatenIndices(s, e, |s|)
    requires -1 <= j < |b|
    requires (if j < 0 then 0 else b[j] + 1) <= i < (if j + 1 == |b| then |s| else b[j + 1])
    ensures !Beats(e, s[i])
  {
    forall m | 0 <= m < |b| ensures b[m] != i {
      if m <= j {
        assert m < j ==> b[m] < b[j];
      } else {
        assert j + 1 < m ==> b[j + 1] < b[m];
      }
    }
  }

  /** Filtering from a stale entry at k: it goes, the fresh entries up to hi stay. */
  lemma KeepFromStale(s: seq<Entry>, e: Entry, k: int, hi: int)
    requires 0 <= k < hi <= |s| && Beats(e, s[k])
    requires forall i :: k < i < hi ==> !Beats(e, s[i])
    ensures Keep(s[k..], e) == s[k + 1..hi] + Keep(s[hi..], e)
  {
    var mid, tail := s[k + 1..hi], s[hi..];
    assert s[k..] == [s[k]] + (mid + tail);
    assert s[k..][1..] == mid + tail;
    KeepNothingStale(mid, e);
    KeepAppend(mid, tail, e);
  }

  /** Cutting position k out of s[..hi] + t, for k < hi. */
  lemma SpliceOut(s: seq<Entry>, t: seq<Entry>, k: int, hi: int)
    requires 0 <= k < hi <= |s|
    ensures (s[..hi] + t)[..k] + (s[..hi] + t)[k + 1..] == s[..k] + (s[k + 1..hi] + t)
  {
    var r := s[..hi] + t;
    assert r[..k] == s[..k];
    assert r[k + 1..] == s[k + 1..hi] + t;
  }

  /** One deletion of the second loop of `add_to_frontier`: removing the
      stale entry at k, when nothing between k and hi is stale. */
  lemma DeleteStale(s: seq<Entry>, e: Entry, k: int, hi: int, r: seq<Entry>)
    requires 0 <= k < hi <= |s| && Beats(e, s[k])
    requires forall i :: k < i < hi ==> !Beats(e, s[i])
    requires r == s[..hi] + Keep(s[hi..], e)
    ensures r[..k] + r[k + 1..] == s[..k] + Keep(s[k..], e)
  {
    KeepFromStale(s, e, k, hi);
    SpliceOut(s, Keep(s[hi..], e), k, hi);
  }

  /** A prefix without stale entries passes the filter whole. */
  lemma KeepFreshPrefix(s: seq<Entry>, e: Entry, lo: int)
    requires 0 <= lo <= |s|
    requires forall i :: 0 <= i < lo ==> !Beats(e, s[i])
    ensures s[..lo] + Keep(s[lo..], e) == Keep(s, e)
  {
    KeepNothingStale(s[..lo], e);
    assert s == s[..lo] + s[lo..];
    KeepAppend(s[..lo], s[lo..], e);
  }

  /** Where the second loop of `add_to_frontier` has got to after deleting
      the stale entries b[j..]: the entries from Cut on are filtered. */
  function Cut(b: seq<int>, n: int, j: int): int
    requires 0 <= j <= |b|
  {
    if j == |b| then n else b[j]
  }

  /** One pass of the second loop: deleting the stale entry at b[j] extends
      the filtered suffix back to b[j]. */
  lemma DeleteStep(s: seq<Entry>, e: Entry, b: seq<int>, j: int, r: seq<Entry>)
    requires b == BeatenIndices(s, e, |s|)
    requires 0 <= j < |b|
    requires r == s[..Cut(b, |s|, j + 1)] + Keep(s[Cut(b, |s|, j + 1)..], e)
    ensures 0 <= b[j] < |r|
    ensures r[..b[j]] + r[b[j] + 1..] == s[..Cut(b, |s|, j)] + Keep(s[Cut(b, |s|, j)..], e)
  {
    var hi := Cut(b, |s|, j + 1);
    var k := b[j];
    assert k < hi by {
      if j + 1 < |b| {
        assert b[j] < b[j + 1];
      }
    }
    forall i | k < i < hi ensures !Beats(e, s[i]) {
      NotStaleBetween(s, e, b, j, i);
    }
    DeleteStale(s, e, k, hi, r);
    assert Cut(b, |s|, j) == k;
  }

  /** Once the first stale entry is deleted, only the fresh entries remain. */
  lemma AllStaleDeleted(s: seq<Entry>, e: Entry, b: seq<int>, r: seq<Entry>)
    requires b == BeatenIndices(s, e, |s|)
    requires r == s[..Cut(b, |s|, 0)] + Keep(s[Cut(b, |s|, 0)..], e)
    ensures r == Keep(s, e)
  {
    var lo := Cut(b, |s|, 0);
    forall i | 0 <= i < lo ensures !Beats(e, s[i]) {
      NotStaleBetween(s, e, b, -1, i);
    }
    KeepFreshPrefix(s, e, lo);
  }

  /** `add_to_frontier`: collect the indices of the stale entries, delete them
      from the back so that the indices still to be deleted stay in place,
      then append the candidate. */
  method AddToFrontier(frontier: seq<Entry>, neighbor: Entry) returns (r: seq<Entry>)
    ensures r == Merge(frontier, neighbor)
  {
    var (newCost, newPosition) := neighbor;
    var beats: seq<int> := [];
    for i := 0 to |frontier|
      invariant beats == BeatenIndices(frontier, neighbor, i)
    {
      var (existingCost, existingPosition) := frontier[i];
      if newPosition == existingPosition && newCost <= existingCost {
        beats := beats + [i];
      }
    }
    r := frontier;
    var j := |beats|;
    while j > 0
      invariant 0 <= j <= |beats|
      invariant r == frontier[..Cut(beats, |frontier|, j)] + Keep(frontier[Cut(beats, |frontier|, j)..], neighbor)
    {
      j := j - 1;
      DeleteStep(frontier, neighbor, beats, j, r);
      r := r[..beats[j]] + r[beats[j] + 1..];
    }
    AllStaleDeleted(frontier, neighbor, beats, r);
    r := r + [neighbor];
  }

  /** Adding a candidate worse than an entry already there keeps that entry
      and still appends the candidate. */
  lemma MergeWorseKeepsBetter(s: seq<Entry>, e: Entry, better: Entry)
    requires better in s && better.1 == e.1 && better.0 < e.0
    ensures better in Merge(s, e)
    ensures Merge(s, e)[|Merge(s, e)| - 1] == e
  {
    var r := Merge(s, e);
    assert better in r[..|r| - 1];
  }

  /** Adding a candidate at least as good as an entry for the same position
      removes that entry. */
  lemma MergeBetterDropsWorse(s: seq<Entry>, e: Entry, worse: Entry)
    requires worse in s && worse.1 == e.1 && e.0 <= worse.0 && worse != e
    ensures worse !in Merge(s, e)
  {
    var r := Merge(s, e);
    assert r == r[..|r| - 1] + [e];
  }

  /** Adding the same candidate twice changes nothing the second time. */
  lemma MergeIdempotent(s: seq<Entry>, e: Entry)
    ensures Merge(Merge(s, e), e) == Merge(s, e)
  {
    KeepAppend(Keep(s, e), [e], e);
    KeepNothingStale(Keep(s, e), e);
  }

  /** The entries for one position, in frontier order. */
  function AtPosition(s: seq<Entry>, q: Pos): (r: seq<Entry>)
    ensures forall x :: x in r <==> x in s && x.1 == q
  {
    if s == [] then []
    else (if s[0].1 == q then [s[0]] else []) + AtPosition(s[1..], q)
  }

  /** Entries for any other position are left as they were, in their order. */
  lemma {:induction false} MergeLeavesOtherPositions(s: seq<Entry>, e: Entry, q: Pos)
    requires q != e.1
    ensures AtPosition(Merge(s, e), q) == AtPosition(s, q)
  {
    KeepLeavesOtherPositions(s, e, q);
    AtPositionAppend(Keep(s, e), [e], q);
  }

  lemma {:induction false} KeepLeavesOtherPositions(s: seq<Entry>, e: Entry, q: Pos)
    requires q != e.1
    ensures AtPosition(Keep(s, e), q) == AtPosition(s, q)
  {
    if s != [] {
      KeepLeavesOtherPositions(s[1..], e, q);
      AtPositionAppend(if Beats(e, s[0]) then [] else [s[0]], Keep(s[1..], e), q);
    }
  }

  lemma {:induction false} AtPositionAppend(a: seq<Entry>, b: seq<Entry>, q: Pos)
    ensures AtPosition(a + b, q) == AtPosition(a, q) + AtPosition(b, q)
  {
    if a != [] {
      var head := if a[0].1 == q then [a[0]] else [];
      assert (a + b)[0] == a[0] && (a + b)[1..] == a[1..] + b;
      AtPositionAppend(a[1..], b, q);
      assert AtPosition(a + b, q) == head + AtPosition(a[1..] + b, q);
    } else {
      assert a + b == b;
    }
  }

  /** a is obtained from s by deleting entries. */
  predicate SubsequenceOf(a: seq<Entry>, s: seq<Entry>)
    decreases |s|
  {
    if a == [] then true
    else if s == [] then false
    else (a[0] == s[0] && SubsequenceOf(a[1..], s[1..])) || SubsequenceOf(a, s[1..])
  }

  /** The surviving entries keep their relative order. */
  lemma {:induction false} MergeKeepsOrder(s: seq<Entry>, e: Entry)
    ensures SubsequenceOf(Merge(s, e)[..|Merge(s, e)| - 1], s)
  {
    KeepIsSubsequence(s, e);
    var r := Merge(s, e);
    assert r[..|r| - 1] == Keep(s, e);
  }

  lemma {:induction false} KeepIsSubsequence(s: seq<Entry>, e: Entry)
    ensures SubsequenceOf(Keep(s, e), s)
  {
    if s != [] {
      KeepIsSubsequence(s[1..], e);
      if !Beats(e, s[0]) {
        assert Keep(s, e) == [s[0]] + Keep(s[1..], e);
      } else {
        assert Keep(s, e) == Keep(s[1..], e);
      }
    }
  }

  /** The test of `add_to_frontier` in the source: a candidate for a new
      position is appended, adding it again changes nothing, and a cheaper
      candidate for that position replaces it. */
  lemma MergeExample()
    ensures var f := [(0.257, (1, 9)), (0.258, (0, 8)), (0.258, (2, 8))];
            var once := f + [(1.0, (1, 8))];
            && Merge(f, (1.0, (1, 8))) == once
            && Merge(once, (1.0, (1, 8))) == once
            && Merge(once, (0.0, (1, 8))) == f + [(0.0, (1, 8))]
  {
    var f := [(0.257, (1, 9)), (0.258, (0, 8)), (0.258, (2, 8))];
    KeepNothingStale(f, (1.0, (1, 8)));
    KeepNothingStale(f, (0.0, (1, 8)));
    KeepAppend(f, [(1.0, (1, 8))], (1.0, (1, 8)));
    KeepAppend(f, [(1.0, (1, 8))], (0.0, (1, 8)));
  }

  /** The frontier after offering each of es, in order, to `add_to_frontier`. */
  function MergeAll(s: seq<Entry>, es: seq<Entry>): (r: seq<Entry>)
    ensures es != [] ==> r != []
    decreases |es|
  {
    if es == [] then s else Merge(MergeAll(s, es[..|es| - 1]), es[|es| - 1])
  }

  /** Some entry for position w costs at most bound. */
  predicate Covered(s: seq<Entry>, w: Pos, bound: real) {
    exists x :: x in s && x.1 == w && x.0 <= bound
  }

  /** Merging never loses the best cost known for a position. */
  lemma MergeCovers(s: seq<Entry>, e: Entry, w: Pos, bound: real)
    requires Covered(s, w, bound)
    ensures Covered(Merge(s, e), w, bound)
  {
    var x :| x in s && x.1 == w && x.0 <= bound;
    var r := Merge(s, e);
    if Beats(e, x) {
      assert e in r;
    } else {
      assert x in r[..|r| - 1];
    }
  }

  lemma {:induction false} MergeAllCovers(s: seq<Entry>, es: seq<Entry>, w: Pos, bound: real)
    requires Covered(s, w, bound)
    ensures Covered(MergeAll(s, es), w, bound)
    decreases |es|
  {
    if es != [] {
      MergeAllCovers(s, es[..|es| - 1], w, bound);
      MergeCovers(MergeAll(s, es[..|es| - 1]), es[|es| - 1], w, bound);
    }
  }

  /** After the merges, every offered position has an entry no dearer than
      the offer. */
  lemma {:induction false} MergeAllOffered(s: seq<Entry>, es: seq<Entry>, k: nat)
    requires k < |es|
    ensures Covered(MergeAll(s, es), es[k].1, es[k].0)
    decreases |es|
  {
    var last := es[|es| - 1];
    var r := MergeAll(s, es);
    if k == |es| - 1 {
      assert r[|r| - 1] == last;
    } else {
      assert es[..|es| - 1][k] == es[k];
      MergeAllOffered(s, es[..|es| - 1], k);
      MergeCovers(MergeAll(s, es[..|es| - 1]), last, es[k].1, es[k].0);
    }
  }

  /** Every entry after the merges was in the frontier or was offered. */
  lemma {:induction false} MergeAllFrom(s: seq<Entry>, es: seq<Entry>)
    ensures forall x :: x in MergeAll(s, es) ==> x in s || x in es
    decreases |es|
  {
    if es != [] {
      var front := es[..|es| - 1];
      MergeAllFrom(s, front);
      var r := MergeAll(s, es);
      forall x | x in r ensures x in s || x in es {
        if x != es[|es| - 1] {
          assert x in r[..|r| - 1];
          assert x in MergeAll(s, front);
          if x in front {
            var i :| 0 <= i < |front| && front[i] == x;
            assert es[i] == x;
          }
        }
      }
    }
  }

  /** An offer for another position leaves the head of the frontier where it is. */
  lemma MergeKeepsHead(s: seq<Entry>, e: Entry)
    requires s != [] && !Beats(e, s[0])
    ensures Merge(s, e) == [s[0]] + Merge(s[1..], e)
  {
    assert Keep(s, e) == [s[0]] + Keep(s[1..], e);
  }

  /** Offers for other positions leave the head of the frontier where it is. */
  lemma {:induction false} MergeAllKeepsHead(s: seq<Entry>, es: seq<Entry>)
    requires s != []
    requires forall x :: x in es ==> x.1 != s[0].1
    ensures MergeAll(s, es) == [s[0]] + MergeAll(s[1..], es)
    decreases |es|
  {
    if es == [] {
      assert s == [s[0]] + s[1..];
    } else {
      var front := es[..|es| - 1];
      var last := es[|es| - 1];
      assert forall x :: x in front ==> x in es;
      MergeAllKeepsHead(s, front);
      MergeKeepsHead(MergeAll(s, front), last);
    }
  }

  /** 4 to the power n. */
  function Pow4(n: nat): (r: nat)
    ensures r >= 1
  {
    if n == 0 then 1 else 4 * Pow4(n - 1)
  }

  /** The termination weight of an entry: an entry in column x of a road
      with `cols` columns weighs 4^(cols - x), so one entry outweighs three
      entries of the next column. */
  function EntryWeight(cols: int, e: Entry): nat {
    if 0 <= e.1.1 < cols then Pow4(cols - e.1.1) else 0
  }

  function Weight(cols: int, s: seq<Entry>): nat {
    if s == [] then 0 else EntryWeight(cols, s[0]) + Weight(cols, s[1..])
  }

  lemma {:induction false} WeightAppend(cols: int, a: seq<Entry>, b: seq<Entry>)
    ensures Weight(cols, a + b) == Weight(cols, a) + Weight(cols, b)
  {
    if a != [] {
      assert (a + b)[0] == a[0] && (a + b)[1..] == a[1..] + b;
      WeightAppend(cols, a[1..], b);
    } else {
      assert a + b == b;
    }
  }

  lemma {:induction false} WeightInsert(cols: int, e: Entry, s: seq<Entry>)
    requires Sorted(s)
    ensures Weight(cols, Insert(e, s)) == EntryWeight(cols, e) + Weight(cols, s)
  {
    if s != [] && !Le(e, s[0]) {
      WeightInsert(cols, e, s[1..]);
    }
  }

  /** Sorting leaves the weight as it was. */
  lemma {:induction false} WeightSort(cols: int, s: seq<Entry>)
    ensures Weight(cols, SortFrontier(s)) == Weight(cols, s)
  {
    if s != [] {
      WeightSort(cols, s[1..]);
      WeightInsert(cols, s[0], SortFrontier(s[1..]));
    }
  }

  lemma {:induction false} WeightKeep(cols: int, s: seq<Entry>, e: Entry)
    ensures Weight(cols, Keep(s, e)) <= Weight(cols, s)
  {
    if s != [] {
      WeightKeep(cols, s[1..], e);
      WeightAppend(cols, if Beats(e, s[0]) then [] else [s[0]], Keep(s[1..], e));
    }
  }

  /** Merging adds at most the weight of what is offered. */
  lemma {:induction false} WeightMergeAll(cols: int, s: seq<Entry>, es: seq<Entry>)
    ensures Weight(cols, MergeAll(s, es)) <= Weight(cols, s) + Weight(cols, es)
    decreases |es|
  {
    if es != [] {
      var front := es[..|es| - 1];
      var last := es[|es| - 1];
      WeightMergeAll(cols, s, front);
      WeightKeep(cols, MergeAll(s, front), last);
      WeightAppend(cols, Keep(MergeAll(s, front), last), [last]);
      assert es == front + [last];
      WeightAppend(cols, front, [last]);
    }
  }

  /** Entries no heavier than k weigh at most |s| * k together. */
  lemma {:induction false} WeightAtMost(cols: int, s: seq<Entry>, k: nat)
    requires forall x :: x in s ==> EntryWeight(cols, x) <= k
    ensures Weight(cols, s) <= |s| * k
  {
    if s != [] {
      WeightAtMost(cols, s[1..], k);
      MulSucc(|s| - 1, k);
    }
  }

  lemma MulSucc(n: nat, k: nat)
    ensures (n + 1) * k == n * k + k
  {
  }
}
