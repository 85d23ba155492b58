/**
 * Bookkeeping shared by the two level-by-level breadth-first searches
 * (Hungarian and Hopcroft-Karp): the count of left vertices still without a
 * level, and the shape of the queue while one level is drained.
 */
module Layers {

  /** The left vertices that have not been given a level yet. */
  function UnleveledSet(levels: seq<int>): set<int> {
    set i | 0 <= i < |levels| && levels[i] == -1
  }

  function Unleveled(levels: seq<int>): nat {
    |UnleveledSet(levels)|
  }

  /** Giving a level to one unleveled vertex lowers the count by exactly one. */
  lemma LevelOne(before: seq<int>, k: int, v: int)
    requires 0 <= k < |before| && before[k] == -1 && v != -1
    ensures Unleveled(before[k := v]) == Unleveled(before) - 1
  {
    assert UnleveledSet(before) == UnleveledSet(before[k := v]) + {k};
  }

  /** After a level has been drained, exactly the levels below d have been expanded. */
  ghost predicate WholeLevels(levels: seq<int>, visitedL: seq<bool>, d: int) {
    |visitedL| == |levels|
    && forall i :: 0 <= i < |levels| ==> (visitedL[i] <==> 0 <= levels[i] < d) && levels[i] <= d
  }

  /**
   * While level d is drained: the first `size` queue entries are the level-d
   * vertices still to expand, the rest are the level-(d+1) vertices found so far.
   */
  ghost predicate Draining(levels: seq<int>, visitedL: seq<bool>, queue: seq<int>, size: int, d: int) {
    && 0 <= size <= |queue| && |visitedL| == |levels|
    && (forall k :: 0 <= k < size ==> 0 <= queue[k] < |levels| && levels[queue[k]] == d)
    && (forall k :: size <= k < |queue| ==> 0 <= queue[k] < |levels| && levels[queue[k]] == d + 1)
    && (forall k :: 0 <= k < |levels| && levels[k] == d && !visitedL[k] ==> k in queue[..size])
    && (forall k :: 0 <= k < |levels| && levels[k] == d + 1 ==> k in queue[size..])
    && (forall k :: 0 <= k < |levels| ==>
          (0 <= levels[k] < d ==> visitedL[k]) && (visitedL[k] ==> 0 <= levels[k] <= d) && levels[k] <= d + 1)
  }

  /** Queueing a newly levelled vertex at level d + 1. */
  lemma DrainPush(levels: seq<int>, visitedL: seq<bool>, queue: seq<int>, size: int, d: int, p: int)
    requires Draining(levels, visitedL, queue, size, d) && d >= 0
    requires 0 <= p < |levels| && levels[p] == -1
    ensures Draining(levels[p := d + 1], visitedL, queue + [p], size, d)
  {
    assert (queue + [p])[..size] == queue[..size];
    assert (queue + [p])[size..] == queue[size..] + [p];
  }

  /** Dequeueing the front vertex of level d and marking it expanded. */
  lemma DrainPop(levels: seq<int>, visitedL: seq<bool>, queue: seq<int>, size: int, d: int)
    requires Draining(levels, visitedL, queue, size, d) && size > 0 && d >= 0
    ensures 0 <= queue[0] < |levels| && levels[queue[0]] == d
    ensures Draining(levels, visitedL[queue[0] := true], queue[1..], size - 1, d)
  {
    var vL := visitedL[queue[0] := true];
    assert queue[1..][..size - 1] == queue[1..size];
    assert queue[1..][size - 1..] == queue[size..];
    forall k | 0 <= k < |levels| && levels[k] == d && !vL[k] ensures k in queue[1..size] {
      assert k in queue[..size];
      var x :| 0 <= x < size && queue[x] == k;
      assert x != 0;
      assert queue[1..size][x - 1] == k;
    }
  }
}
