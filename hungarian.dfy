/**
 * The Kuhn-Munkres (Hungarian) algorithm for a maximum-weight bipartite
 * matching, in the shape of bipartite_matching/hungarian.cpp: a Graph object
 * holding a cost matrix, the partner arrays pairL/pairR and the dual
 * potentials potentialL/potentialR, all updated in place phase by phase.
 *
 * A phase is a level-by-level search over tight edges (Bfs), a
 * level-respecting augmenting search (Dfs) started from every free left
 * vertex, and an unconditional relaxation of the potentials
 * (UpdatePotentials).
 */
module Hungarian {
  import opened Matching
  import opened Layers

  /** The 32-bit bounds the source uses as sentinels. */
  const IntMax: int := 0x7fff_ffff
  const IntMin: int := -0x8000_0000

  function Min(a: int, b: int): int { if a <= b then a else b }
  function Max(a: int, b: int): int { if a >= b then a else b }

  /** A cost matrix with at least one row, all rows of the same length. */
  ghost predicate Rectangular(costs: seq<seq<int>>) {
    |costs| >= 1 && forall i :: 0 <= i < |costs| ==> |costs[i]| == |costs[0]|
  }

  /** Every entry of a partner array is -1 or a column of its row. */
  ghost predicate PairsInRows(costs: seq<seq<int>>, pairs: seq<int>) {
    |pairs| <= |costs| && forall i :: 0 <= i < |pairs| ==> -1 <= pairs[i] < |costs[i]|
  }

  /** The total cost of the matched pairs: the value max_matching returns. */
  function MatchedWeight(costs: seq<seq<int>>, pairs: seq<int>): int
    requires PairsInRows(costs, pairs)
  {
    if |pairs| == 0 then 0
    else
      var i := |pairs| - 1;
      MatchedWeight(costs, pairs[..i]) + (if pairs[i] != -1 then costs[i][pairs[i]] else 0)
  }

  /** The dual value of the matched pairs: the potentials summed over each matched edge. */
  function MatchedPotential(costs: seq<seq<int>>, potentialL: seq<int>, potentialR: seq<int>, pairs: seq<int>): int
    requires PairsInRows(costs, pairs) && |potentialL| >= |pairs|
    requires forall i :: 0 <= i < |pairs| ==> pairs[i] < |potentialR|
  {
    if |pairs| == 0 then 0
    else
      var i := |pairs| - 1;
      MatchedPotential(costs, potentialL, potentialR, pairs[..i])
        + (if pairs[i] != -1 then potentialL[i] + potentialR[pairs[i]] else 0)
  }

  /** potentialL[i] + potentialR[j] >= costs[i][j] on every edge. */
  ghost predicate DualFeasible(costs: seq<seq<int>>, potentialL: seq<int>, potentialR: seq<int>) {
    Rectangular(costs) && |potentialL| == |costs| && |potentialR| == |costs[0]|
    && forall i, j :: 0 <= i < |costs| && 0 <= j < |costs[0]| ==>
         potentialL[i] + potentialR[j] >= costs[i][j]
  }

  /**
   * Weak duality: under feasible potentials the weight of any matching is at
   * most the potential summed over its edges.
   */
  lemma {:induction false} WeightAtMostPotential(costs: seq<seq<int>>, potentialL: seq<int>, potentialR: seq<int>, pairs: seq<int>)
    requires DualFeasible(costs, potentialL, potentialR)
    requires |pairs| <= |costs| && forall i :: 0 <= i < |pairs| ==> -1 <= pairs[i] < |costs[0]|
    ensures MatchedWeight(costs, pairs) <= MatchedPotential(costs, potentialL, potentialR, pairs)
  {
    if |pairs| > 0 {
      WeightAtMostPotential(costs, potentialL, potentialR, pairs[..|pairs| - 1]);
    }
  }

  /** When every matched edge is tight the weight equals the potential summed over the edges. */
  lemma {:induction false} TightWeightEqualsPotential(costs: seq<seq<int>>, potentialL: seq<int>, potentialR: seq<int>, pairs: seq<int>)
    requires Rectangular(costs) && |potentialL| == |costs| && |potentialR| == |costs[0]|
    requires |pairs| <= |costs| && forall i :: 0 <= i < |pairs| ==> -1 <= pairs[i] < |costs[0]|
    requires forall i :: 0 <= i < |pairs| && pairs[i] != -1 ==>
               potentialL[i] + potentialR[pairs[i]] == costs[i][pairs[i]]
    ensures MatchedWeight(costs, pairs) == MatchedPotential(costs, potentialL, potentialR, pairs)
  {
    if |pairs| > 0 {
      TightWeightEqualsPotential(costs, potentialL, potentialR, pairs[..|pairs| - 1]);
    }
  }

  class Graph {
    const costs: seq<seq<int>>
    const n: nat
    const m: nat
    var pairL: seq<int>
    var pairR: seq<int>
    var potentialL: seq<int>
    var potentialR: seq<int>

    /** Sizes of the cost matrix and of the potentials: n left vertices (rows), m right vertices (columns). */
    ghost predicate DualShape()
      reads this`potentialL, this`potentialR
    {
      && n >= 1 && |costs| == n && (forall i :: 0 <= i < n ==> |costs[i]| == m)
      && |potentialL| == n && |potentialR| == m
    }

    /** All sizes. */
    ghost predicate Shape()
      reads this
    {
      DualShape() && |pairL| == n && |pairR| == m
    }

    /** potentialL[i] + potentialR[j] - costs[i][j]; an edge is tight when this is 0. */
    function Slack(i: int, j: int): int
      reads this`potentialL, this`potentialR
      requires DualShape() && 0 <= i < n && 0 <= j < m
    {
      potentialL[i] + potentialR[j] - costs[i][j]
    }

    ghost predicate Feasible()
      reads this`potentialL, this`potentialR
      requires DualShape()
    {
      forall i, j :: 0 <= i < n && 0 <= j < m ==> Slack(i, j) >= 0
    }

    /** The class invariant: consistent partner arrays and feasible potentials. */
    ghost predicate Valid()
      reads this
    {
      Shape() && Consistent(pairL, pairR) && Feasible()
    }

    /** Every tight edge out of an expanded left vertex reaches a marked right vertex. */
    ghost predicate Closed(visitedL: seq<bool>, visitedR: seq<bool>)
      reads this`potentialL, this`potentialR
      requires DualShape() && |visitedL| == n && |visitedR| == m
    {
      forall i, j :: 0 <= i < n && 0 <= j < m && visitedL[i] && Slack(i, j) == 0 ==> visitedR[j]
    }

    /** Closed, except for the edges of `from` from column `upto` on. */
    ghost predicate ClosedExcept(visitedL: seq<bool>, visitedR: seq<bool>, from: int, upto: int)
      reads this`potentialL, this`potentialR
      requires DualShape() && |visitedL| == n && |visitedR| == m
    {
      forall i, j :: 0 <= i < n && 0 <= j < m && visitedL[i] && Slack(i, j) == 0 && (i != from || j < upto) ==>
        visitedR[j]
    }

    /** Left vertex i was reached through its partner, from an expanded vertex one level up. */
    ghost predicate Discovered(levels: seq<int>, visitedL: seq<bool>, visitedR: seq<bool>, i: int)
      reads this
      requires Shape() && |levels| == n && |visitedL| == n && |visitedR| == m && 0 <= i < n
    {
      && 0 <= pairL[i] < m && visitedR[pairL[i]]
      && exists k :: 0 <= k < n && visitedL[k] && levels[i] == levels[k] + 1 && Slack(k, pairL[i]) == 0
    }

    /** The facts about levels and marks that hold throughout the search. */
    ghost predicate Levelled(levels: seq<int>, visitedL: seq<bool>, visitedR: seq<bool>)
      reads this
      requires Shape()
    {
      && |levels| == n && |visitedL| == n && |visitedR| == m
      && (forall i :: 0 <= i < n ==> levels[i] >= -1 && (levels[i] == 0 <==> pairL[i] == -1))
      && (forall i {:trigger Discovered(levels, visitedL, visitedR, i)} :: 0 <= i < n && levels[i] >= 1 ==>
            Discovered(levels, visitedL, visitedR, i))
      && (forall i :: 0 <= i < n && visitedL[i] ==> levels[i] >= 0)
      && (forall j :: 0 <= j < m && visitedR[j] ==> exists i :: 0 <= i < n && visitedL[i] && Slack(i, j) == 0)
      && (forall j :: 0 <= j < m && visitedR[j] && pairR[j] != -1 ==> 0 <= pairR[j] < n && levels[pairR[j]] >= 1)
    }

    /** A free right vertex has been reached. */
    ghost predicate ReachedFree(visitedR: seq<bool>)
      reads this
      requires Shape() && |visitedR| == m
    {
      exists j :: 0 <= j < m && visitedR[j] && pairR[j] == -1
    }

    /**
     * The constructor: all vertices free, potentialR zero, and potentialL[i]
     * the maximum of INT_MIN and row i, so every edge starts feasible.
     */
    constructor (costs: seq<seq<int>>)
      requires Rectangular(costs)
      ensures this.costs == costs && n == |costs| && m == |costs[0]|
      ensures Valid()
      ensures forall i :: 0 <= i < n ==> pairL[i] == -1
      ensures forall j :: 0 <= j < m ==> pairR[j] == -1 && potentialR[j] == 0
      ensures forall i :: 0 <= i < n ==>
                IntMin <= potentialL[i]
                && (forall j :: 0 <= j < m ==> costs[i][j] <= potentialL[i])
                && (potentialL[i] == IntMin || exists j :: 0 <= j < m && potentialL[i] == costs[i][j])
    {
      var rows, cols := |costs|, |costs[0]|;
      var best: seq<int> := seq(rows, _ => IntMin);
      var i := 0;
      while i < rows
        invariant 0 <= i <= rows && |best| == rows
        invariant forall k :: i <= k < rows ==> best[k] == IntMin
        invariant forall k :: 0 <= k < i ==>
                    IntMin <= best[k]
                    && (forall j :: 0 <= j < cols ==> costs[k][j] <= best[k])
                    && (best[k] == IntMin || exists j :: 0 <= j < cols && best[k] == costs[k][j])
      {
        var j := 0;
        while j < cols
          invariant 0 <= j <= cols && |best| == rows
          invariant forall k :: i < k < rows ==> best[k] == IntMin
          invariant forall k :: 0 <= k < i ==>
                      IntMin <= best[k]
                      && (forall j :: 0 <= j < cols ==> costs[k][j] <= best[k])
                      && (best[k] == IntMin || exists j :: 0 <= j < cols && best[k] == costs[k][j])
          invariant IntMin <= best[i]
          invariant forall l :: 0 <= l < j ==> costs[i][l] <= best[i]
          invariant best[i] == IntMin || exists l :: 0 <= l < j && best[i] == costs[i][l]
        {
          best := best[i := Max(best[i], costs[i][j])];
          j := j + 1;
        }
        i := i + 1;
      }
      this.costs := costs;
      n := rows;
      m := cols;
      pairL := seq(rows, _ => -1);
      pairR := seq(cols, _ => -1);
      potentialL := best;
      potentialR := seq(cols, _ => 0);
    }

    /** Expanding a levelled vertex keeps the search facts and opens its edges. */
    lemma Expand(levels: seq<int>, visitedL: seq<bool>, visitedR: seq<bool>, from: int)
      requires Shape() && Levelled(levels, visitedL, visitedR) && Closed(visitedL, visitedR)
      requires 0 <= from < n && levels[from] >= 0
      ensures Levelled(levels, visitedL[from := true], visitedR)
      ensures ClosedExcept(visitedL[from := true], visitedR, from, 0)
    {
      ExpandDiscovered(levels, visitedL, visitedR, from);
      ExpandWitnessed(visitedL, visitedR, from);
    }

    /** Marking one more left vertex keeps every levelled vertex discovered. */
    lemma ExpandDiscovered(levels: seq<int>, visitedL: seq<bool>, visitedR: seq<bool>, from: int)
      requires Shape() && Levelled(levels, visitedL, visitedR) && 0 <= from < n
      ensures forall i {:trigger Discovered(levels, visitedL[from := true], visitedR, i)} :: 0 <= i < n && levels[i] >= 1 ==>
        Discovered(levels, visitedL[from := true], visitedR, i)
    {
      var vL := visitedL[from := true];
      forall i | 0 <= i < n && levels[i] >= 1 ensures Discovered(levels, vL, visitedR, i) {
        assert Discovered(levels, visitedL, visitedR, i);
        var k :| 0 <= k < n && visitedL[k] && levels[i] == levels[k] + 1 && Slack(k, pairL[i]) == 0;
        assert vL[k];
      }
    }

    /** Marking one more left vertex keeps a tight witness for every marked right vertex. */
    lemma ExpandWitnessed(visitedL: seq<bool>, visitedR: seq<bool>, from: int)
      requires Shape() && |visitedL| == n && |visitedR| == m && 0 <= from < n
      requires forall j :: 0 <= j < m && visitedR[j] ==> exists i :: 0 <= i < n && visitedL[i] && Slack(i, j) == 0
      ensures forall j :: 0 <= j < m && visitedR[j] ==> exists i :: 0 <= i < n && visitedL[from := true][i] && Slack(i, j) == 0
    {
      var vL := visitedL[from := true];
      forall j | 0 <= j < m && visitedR[j] ensures exists i :: 0 <= i < n && vL[i] && Slack(i, j) == 0 {
        var i :| 0 <= i < n && visitedL[i] && Slack(i, j) == 0;
        assert vL[i];
      }
    }

    /** Moving past column `to` of `from`, marking it when the edge is tight. */
    lemma CloseStep(visitedL: seq<bool>, visitedR: seq<bool>, from: int, to: int, mark: bool)
      requires Shape() && |visitedL| == n && |visitedR| == m && 0 <= from < n && 0 <= to < m
      requires ClosedExcept(visitedL, visitedR, from, to)
      requires mark || visitedR[to] || Slack(from, to) != 0
      ensures ClosedExcept(visitedL, if mark then visitedR[to := true] else visitedR, from, to + 1)
    {
    }

    /** Marking right vertex `to` reaches a free vertex exactly when one was reached or `to` is free. */
    lemma MarkReach(visitedR: seq<bool>, to: int)
      requires Shape() && |visitedR| == m && 0 <= to < m
      ensures ReachedFree(visitedR[to := true]) <==> ReachedFree(visitedR) || pairR[to] == -1
    {
      var vR := visitedR[to := true];
      if ReachedFree(vR) && pairR[to] != -1 {
        var j :| 0 <= j < m && vR[j] && pairR[j] == -1;
        assert visitedR[j];
      }
      if ReachedFree(visitedR) {
        var j :| 0 <= j < m && visitedR[j] && pairR[j] == -1;
        assert vR[j];
      }
      if pairR[to] == -1 {
        assert vR[to];
      }
    }

    /** Marking a right vertex reached over a tight edge from an expanded vertex. */
    lemma MarkTight(levels: seq<int>, visitedL: seq<bool>, visitedR: seq<bool>, from: int, to: int)
      requires Shape() && Levelled(levels, visitedL, visitedR)
      requires 0 <= from < n && visitedL[from] && 0 <= to < m && Slack(from, to) == 0
      requires pairR[to] != -1 ==> 0 <= pairR[to] < n && levels[pairR[to]] >= 1
      ensures Levelled(levels, visitedL, visitedR[to := true])
    {
      var vR := visitedR[to := true];
      forall i | 0 <= i < n && levels[i] >= 1 ensures Discovered(levels, visitedL, vR, i) {
        assert Discovered(levels, visitedL, visitedR, i);
      }
    }

    /** Marking a matched right vertex and giving its unlevelled partner the next level. */
    lemma MarkAndLevel(levels: seq<int>, visitedL: seq<bool>, visitedR: seq<bool>, from: int, to: int, level: int)
      requires Shape() && Consistent(pairL, pairR) && Levelled(levels, visitedL, visitedR)
      requires 0 <= from < n && visitedL[from] && 0 <= to < m && Slack(from, to) == 0
      requires pairR[to] != -1 && levels[pairR[to]] == -1 && level == levels[from] + 1
      ensures Levelled(levels[pairR[to] := level], visitedL, visitedR[to := true])
    {
      var p := pairR[to];
      var vR := visitedR[to := true];
      var lv := levels[p := level];
      assert pairL[p] == to;
      forall i | 0 <= i < n && lv[i] >= 1 ensures Discovered(lv, visitedL, vR, i) {
        if i == p {
          assert lv[p] == lv[from] + 1;
        } else {
          assert Discovered(levels, visitedL, visitedR, i);
          var k :| 0 <= k < n && visitedL[k] && levels[i] == levels[k] + 1 && Slack(k, pairL[i]) == 0;
          assert lv[k] == levels[k];
        }
      }
      forall j | 0 <= j < m && vR[j] ensures exists i :: 0 <= i < n && visitedL[i] && Slack(i, j) == 0 {
        if j == to {
          assert visitedL[from] && Slack(from, j) == 0;
        }
      }
    }

    /** The state at the head of bfs's outer loop, before level d is drained. */
    ghost predicate LevelState(levels: seq<int>, visitedL: seq<bool>, visitedR: seq<bool>, queue: seq<int>, d: int, finished: bool)
      reads this
      requires Shape()
    {
      && d >= 0 && Levelled(levels, visitedL, visitedR) && Closed(visitedL, visitedR)
      && (finished <==> ReachedFree(visitedR))
      && WholeLevels(levels, visitedL, d)
      && (forall k :: 0 <= k < |queue| ==> 0 <= queue[k] < n && levels[queue[k]] == d)
      && (forall k :: 0 <= k < n && levels[k] == d ==> k in queue)
    }

    /** The state while level d is drained, between two dequeues. */
    ghost predicate DrainState(levels: seq<int>, visitedL: seq<bool>, visitedR: seq<bool>, queue: seq<int>, size: int, d: int, finished: bool)
      reads this
      requires Shape()
    {
      && d >= 0 && Levelled(levels, visitedL, visitedR) && Closed(visitedL, visitedR)
      && (finished <==> ReachedFree(visitedR))
      && Draining(levels, visitedL, queue, size, d)
    }

    /** The state while the edges of `from` are scanned, up to column `upto`. */
    ghost predicate ScanState(levels: seq<int>, visitedL: seq<bool>, visitedR: seq<bool>, queue: seq<int>, size: int, d: int,
                              finished: bool, from: int, upto: int)
      reads this
      requires Shape()
    {
      && d >= 0 && 0 <= from < n && Levelled(levels, visitedL, visitedR) && ClosedExcept(visitedL, visitedR, from, upto)
      && visitedL[from] && levels[from] == d
      && (finished <==> ReachedFree(visitedR))
      && Draining(levels, visitedL, queue, size, d)
    }

    lemma StartDrain(levels: seq<int>, visitedL: seq<bool>, visitedR: seq<bool>, queue: seq<int>, d: int, finished: bool)
      requires Shape() && LevelState(levels, visitedL, visitedR, queue, d, finished)
      ensures DrainState(levels, visitedL, visitedR, queue, |queue|, d, finished)
    {
      assert queue[..|queue|] == queue;
      assert queue[|queue|..] == [];
    }

    lemma EndDrain(levels: seq<int>, visitedL: seq<bool>, visitedR: seq<bool>, queue: seq<int>, d: int, finished: bool)
      requires Shape() && DrainState(levels, visitedL, visitedR, queue, 0, d, finished)
      ensures LevelState(levels, visitedL, visitedR, queue, d + 1, finished)
    {
      assert queue[0..] == queue;
      assert queue[..0] == [];
    }

    /** Dequeueing a vertex that was already expanded changes nothing else. */
    lemma PopSeen(levels: seq<int>, visitedL: seq<bool>, visitedR: seq<bool>, queue: seq<int>, size: int, d: int, finished: bool)
      requires Shape() && DrainState(levels, visitedL, visitedR, queue, size, d, finished) && size > 0
      requires visitedL[queue[0]]
      ensures DrainState(levels, visitedL, visitedR, queue[1..], size - 1, d, finished)
    {
      DrainPop(levels, visitedL, queue, size, d);
      assert visitedL[queue[0] := true] == visitedL;
    }

    /** Dequeueing a fresh vertex marks it expanded and starts the scan of its edges. */
    lemma PopFresh(levels: seq<int>, visitedL: seq<bool>, visitedR: seq<bool>, queue: seq<int>, size: int, d: int, finished: bool)
      requires Shape() && DrainState(levels, visitedL, visitedR, queue, size, d, finished) && size > 0
      requires !visitedL[queue[0]]
      ensures ScanState(levels, visitedL[queue[0] := true], visitedR, queue[1..], size - 1, d, finished, queue[0], 0)
    {
      DrainPop(levels, visitedL, queue, size, d);
      Expand(levels, visitedL, visitedR, queue[0]);
    }

    /** Skipping an edge that is not tight or leads to a marked vertex. */
    lemma VisitSkip(levels: seq<int>, visitedL: seq<bool>, visitedR: seq<bool>, queue: seq<int>, size: int, d: int,
                    finished: bool, from: int, to: int)
      requires Shape() && ScanState(levels, visitedL, visitedR, queue, size, d, finished, from, to) && 0 <= to < m
      requires visitedR[to] || Slack(from, to) != 0
      ensures ScanState(levels, visitedL, visitedR, queue, size, d, finished, from, to + 1)
    {
      CloseStep(visitedL, visitedR, from, to, false);
    }

    /** Reaching a free right vertex: the search will stop after this level. */
    lemma VisitFree(levels: seq<int>, visitedL: seq<bool>, visitedR: seq<bool>, queue: seq<int>, size: int, d: int,
                    finished: bool, from: int, to: int)
      requires Shape() && ScanState(levels, visitedL, visitedR, queue, size, d, finished, from, to) && 0 <= to < m
      requires !visitedR[to] && Slack(from, to) == 0 && pairR[to] == -1
      ensures ScanState(levels, visitedL, visitedR[to := true], queue, size, d, true, from, to + 1)
    {
      CloseStep(visitedL, visitedR, from, to, true);
      MarkReach(visitedR, to);
      MarkTight(levels, visitedL, visitedR, from, to);
    }

    /** Reaching a matched right vertex whose partner already has a level. */
    lemma VisitMatched(levels: seq<int>, visitedL: seq<bool>, visitedR: seq<bool>, queue: seq<int>, size: int, d: int,
                       finished: bool, from: int, to: int)
      requires Shape() && Consistent(pairL, pairR)
      requires ScanState(levels, visitedL, visitedR, queue, size, d, finished, from, to) && 0 <= to < m
      requires !visitedR[to] && Slack(from, to) == 0 && pairR[to] != -1 && levels[pairR[to]] != -1
      ensures ScanState(levels, visitedL, visitedR[to := true], queue, size, d, finished, from, to + 1)
    {
      assert pairL[pairR[to]] == to;
      CloseStep(visitedL, visitedR, from, to, true);
      MarkReach(visitedR, to);
      MarkTight(levels, visitedL, visitedR, from, to);
    }

    /** Reaching a matched right vertex whose partner has no level yet: the partner is queued at level d + 1. */
    lemma VisitLevel(levels: seq<int>, visitedL: seq<bool>, visitedR: seq<bool>, queue: seq<int>, size: int, d: int,
                     finished: bool, from: int, to: int)
      requires Shape() && Consistent(pairL, pairR)
      requires ScanState(levels, visitedL, visitedR, queue, size, d, finished, from, to) && 0 <= to < m
      requires !visitedR[to] && Slack(from, to) == 0 && pairR[to] != -1 && levels[pairR[to]] == -1
      ensures ScanState(levels[pairR[to] := d + 1], visitedL, visitedR[to := true], queue + [pairR[to]], size, d,
                        finished, from, to + 1)
      ensures Unleveled(levels[pairR[to] := d + 1]) == Unleveled(levels) - 1
    {
      var partner := pairR[to];
      CloseStep(visitedL, visitedR, from, to, true);
      MarkReach(visitedR, to);
      LevelOne(levels, partner, d + 1);
      DrainPush(levels, visitedL, queue, size, d, partner);
      MarkAndLevel(levels, visitedL, visitedR, from, to, d + 1);
    }

    /**
     * The level-by-level search over tight edges (hungarian.cpp, bfs). The
     * scratch vectors levels, visitedL and visitedR, which max_matching
     * allocates fresh (-1, false, false) right before the call, are built here
     * and returned.
     */
    method Bfs() returns (finished: bool, levels: seq<int>, visitedL: seq<bool>, visitedR: seq<bool>)
      requires Valid()
      ensures Levelled(levels, visitedL, visitedR)
      ensures Closed(visitedL, visitedR)
      ensures finished <==> ReachedFree(visitedR)
      ensures exists d :: WholeLevels(levels, visitedL, d)
      ensures !finished ==> forall i :: 0 <= i < n && levels[i] >= 0 ==> visitedL[i]
    {
      levels := seq(n, _ => -1);
      visitedL := seq(n, _ => false);
      visitedR := seq(m, _ => false);
      var queue: seq<int> := [];
      var i := 0;
      while i < n
        invariant 0 <= i <= n && |levels| == n
        invariant forall k :: 0 <= k < n ==> levels[k] == (if k < i && pairL[k] == -1 then 0 else -1)
        invariant forall k :: 0 <= k < |queue| ==> 0 <= queue[k] < i && levels[queue[k]] == 0
        invariant forall k :: 0 <= k < i && pairL[k] == -1 ==> k in queue
      {
        if pairL[i] == -1 {
          queue := queue + [i];
          levels := levels[i := 0];
        }
        i := i + 1;
      }

      finished := false;
      ghost var d := 0;
      while queue != [] && !finished
        invariant LevelState(levels, visitedL, visitedR, queue, d, finished)
        decreases Unleveled(levels) + (if queue == [] then 0 else 1)
      {
        ghost var u0 := Unleveled(levels);
        levels, visitedL, visitedR, queue, finished := DrainLevel(d, levels, visitedL, visitedR, queue, finished);
        d := d + 1;
      }
      assert WholeLevels(levels, visitedL, d);
    }

    /** One round of bfs's outer loop: the whole of level d is dequeued and expanded. */
    method DrainLevel(ghost d: int, levels0: seq<int>, visitedL0: seq<bool>, visitedR0: seq<bool>, queue0: seq<int>, finished0: bool)
      returns (levels: seq<int>, visitedL: seq<bool>, visitedR: seq<bool>, queue: seq<int>, finished: bool)
      requires Shape() && Consistent(pairL, pairR)
      requires LevelState(levels0, visitedL0, visitedR0, queue0, d, finished0)
      ensures LevelState(levels, visitedL, visitedR, queue, d + 1, finished)
      ensures Unleveled(levels0) - Unleveled(levels) == |queue|
    {
      levels, visitedL, visitedR, queue, finished := levels0, visitedL0, visitedR0, queue0, finished0;
      var size := |queue|;
      StartDrain(levels, visitedL, visitedR, queue, d, finished);
      while size > 0
        invariant DrainState(levels, visitedL, visitedR, queue, size, d, finished)
        invariant Unleveled(levels0) - Unleveled(levels) == |queue| - size
      {
        levels, visitedL, visitedR, queue, finished := DrainOne(d, levels, visitedL, visitedR, queue, size, finished);
        size := size - 1;
      }
      EndDrain(levels, visitedL, visitedR, queue, d, finished);
    }

    /**
     * One turn of bfs's inner queue loop: the front vertex is dequeued, and
     * unless it is already visited it is marked and its row scanned.
     */
    method DrainOne(ghost d: int, levels0: seq<int>, visitedL0: seq<bool>, visitedR0: seq<bool>, queue0: seq<int>,
                    size: int, finished0: bool)
      returns (levels: seq<int>, visitedL: seq<bool>, visitedR: seq<bool>, queue: seq<int>, finished: bool)
      requires Shape() && Consistent(pairL, pairR)
      requires DrainState(levels0, visitedL0, visitedR0, queue0, size, d, finished0) && size > 0
      ensures DrainState(levels, visitedL, visitedR, queue, size - 1, d, finished)
      ensures Unleveled(levels0) - Unleveled(levels) == |queue| - |queue0| + 1
    {
      var from := queue0[0];
      if visitedL0[from] {
        PopSeen(levels0, visitedL0, visitedR0, queue0, size, d, finished0);
        levels, visitedL, visitedR, queue, finished := levels0, visitedL0, visitedR0, queue0[1..], finished0;
      } else {
        PopFresh(levels0, visitedL0, visitedR0, queue0, size, d, finished0);
        visitedL := visitedL0[from := true];
        levels, visitedR, queue, finished := Scan(from, d, levels0, visitedL, visitedR0, queue0[1..], size - 1, finished0);
      }
    }

    /**
     * The edge loop of bfs for one dequeued vertex `from` at level d: every
     * unmarked right vertex over a tight edge is marked; a free one ends the
     * search after this level, and a matched one's partner gets level d + 1
     * and is queued unless it already has a level.
     */
    method Scan(from: int, ghost d: int, levels: seq<int>, visitedL: seq<bool>, visitedR: seq<bool>,
                queue: seq<int>, size: int, finished: bool)
      returns (levels': seq<int>, visitedR': seq<bool>, queue': seq<int>, finished': bool)
      requires Shape() && Consistent(pairL, pairR)
      requires ScanState(levels, visitedL, visitedR, queue, size, d, finished, from, 0)
      ensures DrainState(levels', visitedL, visitedR', queue', size, d, finished')
      ensures Unleveled(levels) - Unleveled(levels') == |queue'| - |queue|
    {
      levels', visitedR', queue', finished' := levels, visitedR, queue, finished;
      var to := 0;
      while to < m
        invariant 0 <= to <= m
        invariant ScanState(levels', visitedL, visitedR', queue', size, d, finished', from, to)
        invariant Unleveled(levels) - Unleveled(levels') == |queue'| - |queue|
      {
        if !visitedR'[to] && Slack(from, to) == 0 {
          if pairR[to] == -1 {
            VisitFree(levels', visitedL, visitedR', queue', size, d, finished', from, to);
            visitedR' := visitedR'[to := true];
            finished' := true;
          } else if levels'[pairR[to]] == -1 {
            var partner := pairR[to];
            var level := levels'[from] + 1;
            assert level == d + 1;
            VisitLevel(levels', visitedL, visitedR', queue', size, d, finished', from, to);
            visitedR' := visitedR'[to := true];
            levels' := levels'[partner := level];
            queue' := queue' + [partner];
          } else {
            VisitMatched(levels', visitedL, visitedR', queue', size, d, finished', from, to);
            visitedR' := visitedR'[to := true];
          }
        } else {
          VisitSkip(levels', visitedL, visitedR', queue', size, d, finished', from, to);
        }
        to := to + 1;
      }
    }

    /** Every pair of pairL1 that differs from pairL0 is a tight edge. */
    ghost predicate TightChanges(pairL0: seq<int>, pairL1: seq<int>)
      reads this`potentialL, this`potentialR
      requires DualShape() && |pairL0| == n && |pairL1| == n
    {
      forall i :: 0 <= i < n && pairL1[i] != pairL0[i] ==> 0 <= pairL1[i] < m && Slack(i, pairL1[i]) == 0
    }

    /** Rematching `from` over a tight edge keeps every change tight. */
    lemma TightCommit(pairL0: seq<int>, pairL1: seq<int>, from: int, to: int)
      requires DualShape() && |pairL0| == n && |pairL1| == n && TightChanges(pairL0, pairL1)
      requires 0 <= from < n && 0 <= to < m && Slack(from, to) == 0
      ensures TightChanges(pairL0, pairL1[from := to])
    {
    }

    /**
     * The level-respecting augmenting search (hungarian.cpp, dfs): it enters
     * each left vertex at most once per phase through the shared `visited`
     * vector, follows only tight edges, descends only to partners exactly one
     * level deeper, and on success rematches every vertex on the path.
     */
    method Dfs(from: int, levels: seq<int>, visited0: seq<bool>) returns (found: bool, visited: seq<bool>)
      requires Valid() && 0 <= from < n && |levels| == n && |visited0| == n
      modifies this`pairL, this`pairR
      decreases Unvisited(visited0)
      ensures Shape()
      ensures |visited| == n && visited[from]
      ensures forall i :: 0 <= i < n && visited0[i] ==> visited[i]
      ensures visited0[from] ==> !found && visited == visited0
      ensures !found ==> pairL == old(pairL) && pairR == old(pairR)
      ensures found ==> PairsAugmented(old(pairL), old(pairR), pairL, pairR, from, levels, visited0)
      ensures found ==> TightChanges(old(pairL), pairL)
    {
      visited := visited0;
      if visited[from] {
        return false, visited;
      }
      visited := visited[from := true];
      UnvisitedShrinks(visited0, visited, from);
      var to := 0;
      while to < m
        invariant 0 <= to <= m
        invariant |visited| == n && visited[from]
        invariant forall i :: 0 <= i < n && visited0[i] ==> visited[i]
        invariant Unvisited(visited) < Unvisited(visited0)
        invariant pairL == old(pairL) && pairR == old(pairR)
      {
        if Slack(from, to) == 0 {
          var partner := pairR[to];
          if partner == -1 {
            CommitFree(pairL, pairR, from, to, levels, visited0);
            Relink(from, to, pairL, pairR, levels, visited0);
            return true, visited;
          }
          if levels[partner] == levels[from] + 1 {
            ghost var atCall := visited;
            var ok, after := Dfs(partner, levels, visited);
            UnvisitedMonotone(visited, after);
            visited := after;
            if ok {
              CommitChain(old(pairL), old(pairR), pairL, pairR, from, to, levels, visited0, atCall);
              Relink(from, to, old(pairL), old(pairR), levels, visited0);
              return true, visited;
            }
          }
        }
        to := to + 1;
      }
      found := false;
    }

    /**
     * dfs's last step on success (hungarian.cpp:64-65): `from` and `to`
     * name each other, over a tight edge. Relative to the arrays pL0/pR0
     * the search started from, the result is the augmented pairing.
     */
    method Relink(from: int, to: int, ghost pL0: seq<int>, ghost pR0: seq<int>, ghost levels: seq<int>, ghost visited0: seq<bool>)
      requires Shape() && 0 <= from < n && 0 <= to < m && Slack(from, to) == 0
      requires |pL0| == n && |pR0| == m && InRange(pL0, pR0) && |levels| == n && |visited0| == n
      requires PairsAugmented(pL0, pR0, pairL[from := to], pairR[to := from], from, levels, visited0)
      requires TightChanges(pL0, pairL)
      modifies this`pairL, this`pairR
      ensures Shape() && pairL == old(pairL)[from := to] && pairR == old(pairR)[to := from]
      ensures PairsAugmented(pL0, pR0, pairL, pairR, from, levels, visited0) && TightChanges(pL0, pairL)
    {
      TightCommit(pL0, pairL, from, to);
      pairL := pairL[from := to];
      pairR := pairR[to := from];
    }

    /** (i, j) is an expanded left vertex and an unmarked right vertex. */
    ghost predicate Frontier(visitedL: seq<bool>, visitedR: seq<bool>, i: int, j: int)
      requires |visitedL| == n && |visitedR| == m
    {
      0 <= i < n && 0 <= j < m && visitedL[i] && !visitedR[j]
    }

    /**
     * delta is the smallest non-zero slack over the frontier pairs, or the
     * INT_MAX sentinel when no frontier pair has a non-zero slack.
     */
    ghost predicate IsFrontierMin(visitedL: seq<bool>, visitedR: seq<bool>, delta: int)
      reads this`potentialL, this`potentialR
      requires DualShape() && |visitedL| == n && |visitedR| == m
    {
      && delta <= IntMax
      && (forall i, j :: Frontier(visitedL, visitedR, i, j) && Slack(i, j) != 0 ==> delta <= Slack(i, j))
      && (delta == IntMax || exists i, j :: Frontier(visitedL, visitedR, i, j) && Slack(i, j) != 0 && Slack(i, j) == delta)
    }

    /**
     * The minimum loop of update_potentials (hungarian.cpp:73-82). Under
     * feasible potentials the result is strictly positive.
     */
    method MinFrontierSlack(visitedL: seq<bool>, visitedR: seq<bool>) returns (delta: int)
      requires DualShape() && |visitedL| == n && |visitedR| == m
      ensures IsFrontierMin(visitedL, visitedR, delta)
      ensures Feasible() ==> delta > 0
    {
      delta := IntMax;
      var i := 0;
      while i < n
        invariant 0 <= i <= n && delta <= IntMax
        invariant forall k, j :: Frontier(visitedL, visitedR, k, j) && k < i && Slack(k, j) != 0 ==> delta <= Slack(k, j)
        invariant delta == IntMax ||
                  exists k, j :: Frontier(visitedL, visitedR, k, j) && k < i && Slack(k, j) != 0 && Slack(k, j) == delta
      {
        if visitedL[i] {
          var j := 0;
          while j < m
            invariant 0 <= j <= m && delta <= IntMax
            invariant forall k, l :: Frontier(visitedL, visitedR, k, l) && (k < i || (k == i && l < j)) && Slack(k, l) != 0 ==>
                        delta <= Slack(k, l)
            invariant delta == IntMax ||
                      exists k, l :: Frontier(visitedL, visitedR, k, l) && k <= i && Slack(k, l) != 0 && Slack(k, l) == delta
          {
            if !visitedR[j] && Slack(i, j) != 0 {
              delta := Min(delta, Slack(i, j));
            }
            j := j + 1;
          }
        }
        i := i + 1;
      }
    }

    /**
     * The relaxation of update_potentials (hungarian.cpp:72-93): the frontier
     * minimum delta, or the INT_MAX sentinel, is subtracted from every expanded
     * left potential and added to every marked right potential, with no guard
     * for an empty frontier. Given the closure bfs guarantees, feasibility is
     * kept, potentialL never rises and potentialR never falls.
     */
    method UpdatePotentials(visitedL: seq<bool>, visitedR: seq<bool>) returns (ghost delta: int)
      requires Valid() && |visitedL| == n && |visitedR| == m
      requires Closed(visitedL, visitedR)
      modifies this`potentialL, this`potentialR
      ensures Valid()
      ensures old(IsFrontierMin(visitedL, visitedR, delta)) && delta > 0
      ensures forall i :: 0 <= i < n ==> potentialL[i] == old(potentialL[i]) - (if visitedL[i] then delta else 0)
      ensures forall j :: 0 <= j < m ==> potentialR[j] == old(potentialR[j]) + (if visitedR[j] then delta else 0)
      ensures forall i :: 0 <= i < n ==> potentialL[i] <= old(potentialL[i])
      ensures forall j :: 0 <= j < m ==> potentialR[j] >= old(potentialR[j])
    {
      var d := MinFrontierSlack(visitedL, visitedR);
      delta := d;
      var pL := Shifted(potentialL, visitedL, -d);
      var pR := Shifted(potentialR, visitedR, d);
      ShiftKeepsFeasible(visitedL, visitedR, d, pL, pR);
      potentialL, potentialR := pL, pR;
      FeasibleFrom();
    }

    /** Feasible, spelt out over the potentials themselves. */
    lemma FeasibleFrom()
      requires DualShape()
      requires forall i, j :: 0 <= i < n && 0 <= j < m ==> potentialL[i] + potentialR[j] - costs[i][j] >= 0
      ensures Feasible()
    {
    }

    /** The shifted potentials pL, pR of update_potentials are dual feasible. */
    lemma ShiftKeepsFeasible(visitedL: seq<bool>, visitedR: seq<bool>, delta: int, pL: seq<int>, pR: seq<int>)
      requires Valid() && |visitedL| == n && |visitedR| == m && delta > 0
      requires Closed(visitedL, visitedR) && IsFrontierMin(visitedL, visitedR, delta)
      requires |pL| == n && forall k :: 0 <= k < n ==> pL[k] == potentialL[k] + (if visitedL[k] then -delta else 0)
      requires |pR| == m && forall k :: 0 <= k < m ==> pR[k] == potentialR[k] + (if visitedR[k] then delta else 0)
      ensures forall i, j :: 0 <= i < n && 0 <= j < m ==> pL[i] + pR[j] - costs[i][j] >= 0
    {
      ShiftFacts(visitedL, visitedR, delta);
      ShiftFeasible(potentialL, potentialR, pL, pR, visitedL, visitedR, delta);
    }

    /** Feasibility, closure and the frontier minimum, spelt out over the current potentials. */
    lemma ShiftFacts(visitedL: seq<bool>, visitedR: seq<bool>, delta: int)
      requires Valid() && |visitedL| == n && |visitedR| == m
      requires Closed(visitedL, visitedR) && IsFrontierMin(visitedL, visitedR, delta)
      ensures forall i, j :: 0 <= i < n && 0 <= j < m ==> potentialL[i] + potentialR[j] - costs[i][j] >= 0
      ensures forall i, j :: 0 <= i < n && 0 <= j < m && visitedL[i] && potentialL[i] + potentialR[j] - costs[i][j] == 0 ==>
                visitedR[j]
      ensures forall i, j :: 0 <= i < n && 0 <= j < m && visitedL[i] && !visitedR[j] && potentialL[i] + potentialR[j] - costs[i][j] != 0 ==>
                delta <= potentialL[i] + potentialR[j] - costs[i][j]
    {
      forall i, j | 0 <= i < n && 0 <= j < m ensures potentialL[i] + potentialR[j] - costs[i][j] >= 0 {
        assert Slack(i, j) >= 0;
      }
      forall i, j | 0 <= i < n && 0 <= j < m && visitedL[i] && !visitedR[j] && potentialL[i] + potentialR[j] - costs[i][j] != 0
        ensures delta <= potentialL[i] + potentialR[j] - costs[i][j]
      {
        assert Frontier(visitedL, visitedR, i, j) && Slack(i, j) != 0;
      }
    }

    /**
     * Lowering the marked left potentials and raising the marked right ones
     * by the positive frontier minimum keeps every slack non-negative: an
     * edge from a marked left vertex to an unmarked right one loses delta,
     * at most its slack, and it had no zero slack since the marks are closed.
     */
    lemma ShiftFeasible(pL0: seq<int>, pR0: seq<int>, pL: seq<int>, pR: seq<int>,
                        visitedL: seq<bool>, visitedR: seq<bool>, delta: int)
      requires DualShape() && |pL0| == |pL| == |visitedL| == n && |pR0| == |pR| == |visitedR| == m && delta > 0
      requires forall i, j :: 0 <= i < n && 0 <= j < m ==> pL0[i] + pR0[j] - costs[i][j] >= 0
      requires forall i, j :: 0 <= i < n && 0 <= j < m && visitedL[i] && pL0[i] + pR0[j] - costs[i][j] == 0 ==> visitedR[j]
      requires forall i, j :: 0 <= i < n && 0 <= j < m && visitedL[i] && !visitedR[j] && pL0[i] + pR0[j] - costs[i][j] != 0 ==>
                 delta <= pL0[i] + pR0[j] - costs[i][j]
      requires forall k :: 0 <= k < n ==> pL[k] == pL0[k] + (if visitedL[k] then -delta else 0)
      requires forall k :: 0 <= k < m ==> pR[k] == pR0[k] + (if visitedR[k] then delta else 0)
      ensures forall i, j :: 0 <= i < n && 0 <= j < m ==> pL[i] + pR[j] - costs[i][j] >= 0
    {
    }

    /** One of update_potentials' two update loops (hungarian.cpp:84-92): `amount` added at every marked position. */
    static method Shifted(p0: seq<int>, marked: seq<bool>, amount: int) returns (p: seq<int>)
      requires |marked| == |p0|
      ensures |p| == |p0| && forall k :: 0 <= k < |p0| ==> p[k] == p0[k] + (if marked[k] then amount else 0)
    {
      p := p0;
      var i := 0;
      while i < |p0|
        invariant 0 <= i <= |p0| && |p| == |p0|
        invariant forall k :: 0 <= k < |p0| ==> p[k] == p0[k] + (if k < i && marked[k] then amount else 0)
      {
        if marked[i] {
          p := p[i := p[i] + amount];
        }
        i := i + 1;
      }
    }

    /**
     * The augmenting pass of one phase (hungarian.cpp:121-128): dfs from every
     * left vertex still free when its turn comes, sharing one visited array.
     * Each success matches exactly that vertex, so `added` is the growth of
     * the matched count; matched left vertices stay matched.
     */
    method AugmentAll(levels: seq<int>) returns (added: nat)
      requires Valid() && |levels| == n
      modifies this`pairL, this`pairR
      ensures Valid()
      ensures CountMatched(pairL) == old(CountMatched(pairL)) + added
      ensures forall i :: 0 <= i < n && old(pairL[i]) != -1 ==> pairL[i] != -1
    {
      added := 0;
      var visited := seq(n, _ => false);
      var u := 0;
      while u < n
        invariant 0 <= u <= n && |visited| == n
        invariant Valid()
        invariant CountMatched(pairL) == old(CountMatched(pairL)) + added
        invariant forall i :: 0 <= i < n && old(pairL[i]) != -1 ==> pairL[i] != -1
      {
        if pairL[u] == -1 {
          ghost var before := pairL;
          var ok;
          ok, visited := Dfs(u, levels, visited);
          if ok {
            CountAfterMatching(before, pairL, u);
            added := added + 1;
          }
        }
        u := u + 1;
      }
    }

    /** The closing sum of max_matching (hungarian.cpp:133-140): the weight of the matching. */
    method TotalWeight() returns (totalSum: int)
      requires Shape() && InRange(pairL, pairR)
      ensures totalSum == MatchedWeight(costs, pairL)
    {
      totalSum := 0;
      var i := 0;
      while i < n
        invariant 0 <= i <= n
        invariant totalSum == MatchedWeight(costs, pairL[..i])
      {
        assert pairL[..i + 1][..i] == pairL[..i];
        if pairL[i] != -1 {
          totalSum := totalSum + costs[i][pairL[i]];
        }
        i := i + 1;
      }
      assert pairL[..n] == pairL;
    }

    /**
     * One turn of max_matching's loop (hungarian.cpp:117-131): bfs, the
     * augmenting pass when bfs reached a free right vertex, then the
     * potential update. The matched count grows by `added`.
     */
    method Phase() returns (added: nat)
      requires Valid()
      modifies this`pairL, this`pairR, this`potentialL, this`potentialR
      ensures Valid()
      ensures CountMatched(pairL) == old(CountMatched(pairL)) + added
      ensures forall i :: 0 <= i < n && old(pairL[i]) != -1 ==> pairL[i] != -1
      ensures forall i :: 0 <= i < n ==> potentialL[i] <= old(potentialL[i])
      ensures forall j :: 0 <= j < m ==> potentialR[j] >= old(potentialR[j])
    {
      var finished, levels, visitedL, visitedR := Bfs();
      added := 0;
      if finished {
        added := AugmentAll(levels);
      }
      ghost var delta := UpdatePotentials(visitedL, visitedR);
    }

    /**
     * max_matching (hungarian.cpp:113-141): phases of bfs, an augmenting pass
     * when bfs reached a free right vertex, and the relaxation, until the
     * counter reaches min(n, m); then the weight of the matching. The source
     * loops without bound; here at most `fuel` phases run and `done` tells
     * whether the counter reached min(n, m).
     */
    method MaxMatching(fuel: nat) returns (totalSum: int, done: bool)
      requires Valid()
      modifies this`pairL, this`pairR, this`potentialL, this`potentialR
      ensures Valid()
      ensures totalSum == MatchedWeight(costs, pairL)
      ensures done ==> CountMatched(pairL) == old(CountMatched(pairL)) + Min(n, m)
      ensures forall i :: 0 <= i < n && old(pairL[i]) != -1 ==> pairL[i] != -1
      ensures forall i :: 0 <= i < n ==> potentialL[i] <= old(potentialL[i])
      ensures forall j :: 0 <= j < m ==> potentialR[j] >= old(potentialR[j])
    {
      var counter := 0;
      var phase := 0;
      while counter < Min(n, m) && phase < fuel
        invariant Valid()
        invariant CountMatched(pairL) == old(CountMatched(pairL)) + counter
        invariant forall i :: 0 <= i < n && old(pairL[i]) != -1 ==> pairL[i] != -1
        invariant forall i :: 0 <= i < n ==> potentialL[i] <= old(potentialL[i])
        invariant forall j :: 0 <= j < m ==> potentialR[j] >= old(potentialR[j])
        decreases fuel - phase
      {
        var added := Phase();
        counter := counter + added;
        phase := phase + 1;
      }
      done := counter >= Min(n, m);
      if done {
        MatchedBoundBothSides(pairL, pairR);
      }
      totalSum := TotalWeight();
    }
  }
}
