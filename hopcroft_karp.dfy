/**
 * The Hopcroft-Karp algorithm for a maximum-cardinality bipartite matching,
 * in the shape of bipartite_matching/hopcroft_karp.cpp: a Graph object holding
 * an adjacency list from left to right vertices and the partner arrays
 * pairL/pairR, updated in place phase by phase.
 *
 * A phase is a level-by-level search from the free left vertices (Bfs) and a
 * level-respecting augmenting search (Dfs) started from every free left
 * vertex, sharing one visited array.
 */
module HopcroftKarp {
  import opened Matching
  import opened Layers

  /** Every edge holds a 1-based left endpoint in 1..n and a 1-based right endpoint in 1..m. */
  ghost predicate EdgesInRange(edges: seq<seq<int>>, n: nat, m: nat) {
    forall e :: 0 <= e < |edges| ==> |edges[e]| >= 2 && 1 <= edges[e][0] <= n && 1 <= edges[e][1] <= m
  }

  /** The adjacency lists the constructor builds: edge (a, b) appends b-1 to list a-1, in edge order. */
  function AdjacencyOf(edges: seq<seq<int>>, n: nat, m: nat): (adj: seq<seq<int>>)
    requires EdgesInRange(edges, n, m)
    ensures |adj| == n
  {
    if |edges| == 0 then seq(n, _ => [])
    else
      var adj := AdjacencyOf(edges[..|edges| - 1], n, m);
      var e := edges[|edges| - 1];
      adj[e[0] - 1 := adj[e[0] - 1] + [e[1] - 1]]
  }

  /** Right vertex `to` is in list i exactly when some edge is (i+1, to+1); every entry is a right vertex. */
  lemma {:induction false} AdjacencyMembership(edges: seq<seq<int>>, n: nat, m: nat)
    requires EdgesInRange(edges, n, m)
    ensures forall i, to :: 0 <= i < n ==>
              (to in AdjacencyOf(edges, n, m)[i] <==>
                 exists e :: 0 <= e < |edges| && edges[e][0] == i + 1 && edges[e][1] == to + 1)
    ensures forall i, t :: 0 <= i < n && 0 <= t < |AdjacencyOf(edges, n, m)[i]| ==> 0 <= AdjacencyOf(edges, n, m)[i][t] < m
  {
    if |edges| > 0 {
      var last := |edges| - 1;
      var prefix := edges[..last];
      AdjacencyMembership(prefix, n, m);
      var before := AdjacencyOf(prefix, n, m);
      var after := AdjacencyOf(edges, n, m);
      forall i, to | 0 <= i < n
        ensures to in after[i] <==> exists e :: 0 <= e < |edges| && edges[e][0] == i + 1 && edges[e][1] == to + 1
      {
        if to in after[i] {
          if i == edges[last][0] - 1 && to == edges[last][1] - 1 {
            assert edges[last][0] == i + 1 && edges[last][1] == to + 1;
          } else {
            assert to in before[i];
            var e :| 0 <= e < |prefix| && prefix[e][0] == i + 1 && prefix[e][1] == to + 1;
            assert edges[e] == prefix[e];
          }
        }
        if exists e :: 0 <= e < |edges| && edges[e][0] == i + 1 && edges[e][1] == to + 1 {
          var e :| 0 <= e < |edges| && edges[e][0] == i + 1 && edges[e][1] == to + 1;
          if e < last {
            assert prefix[e] == edges[e];
            assert to in before[i];
          }
        }
      }
    }
  }

  class Graph {
    const n: nat
    const m: nat
    const adj: seq<seq<int>>
    var pairL: seq<int>
    var pairR: seq<int>

    /** Sizes, partner entries in range, and every adjacency entry is a right vertex. */
    ghost predicate Shape()
      reads this
    {
      && |adj| == n && |pairL| == n && |pairR| == m && InRange(pairL, pairR)
      && forall i, t :: 0 <= i < n && 0 <= t < |adj[i]| ==> 0 <= adj[i][t] < m
    }

    /** The class invariant: consistent partner arrays. */
    ghost predicate Valid()
      reads this
    {
      Shape() && Consistent(pairL, pairR)
    }

    /**
     * The constructor (hopcroft_karp.cpp:62-70): every vertex free and the
     * adjacency list built from the 1-based edges.
     */
    constructor (n: nat, m: nat, edges: seq<seq<int>>)
      requires EdgesInRange(edges, n, m)
      ensures this.n == n && this.m == m && Valid()
      ensures forall i :: 0 <= i < n ==> pairL[i] == -1
      ensures forall j :: 0 <= j < m ==> pairR[j] == -1
      ensures adj == AdjacencyOf(edges, n, m)
      ensures forall i, to :: 0 <= i < n ==>
                (to in adj[i] <==> exists e :: 0 <= e < |edges| && edges[e][0] == i + 1 && edges[e][1] == to + 1)
    {
      var lists: seq<seq<int>> := seq(n, _ => []);
      var k := 0;
      while k < |edges|
        invariant 0 <= k <= |edges|
        invariant lists == AdjacencyOf(edges[..k], n, m)
      {
        assert edges[..k + 1][..k] == edges[..k];
        var e := edges[k];
        lists := lists[e[0] - 1 := lists[e[0] - 1] + [e[1] - 1]];
        k := k + 1;
      }
      assert edges[..|edges|] == edges;
      AdjacencyMembership(edges, n, m);
      this.n := n;
      this.m := m;
      adj := lists;
      pairL := seq(n, _ => -1);
      pairR := seq(m, _ => -1);
    }

    /** Left vertex i was reached through its partner, from an expanded vertex one level up. */
    ghost predicate Discovered(levels: seq<int>, expanded: seq<bool>, i: int)
      reads this
      requires Shape() && |levels| == n && |expanded| == n && 0 <= i < n
    {
      && 0 <= pairL[i] < m
      && exists k :: 0 <= k < n && expanded[k] && levels[i] == levels[k] + 1 && pairL[i] in adj[k]
    }

    /** The facts about levels that hold throughout the search. */
    ghost predicate Levelled(levels: seq<int>, expanded: seq<bool>)
      reads this
      requires Shape()
    {
      && |levels| == n && |expanded| == n
      && (forall i :: 0 <= i < n ==> levels[i] >= -1 && (levels[i] == 0 <==> pairL[i] == -1))
      && (forall i {:trigger Discovered(levels, expanded, i)} :: 0 <= i < n && levels[i] >= 1 ==>
            Discovered(levels, expanded, i))
      && (forall i :: 0 <= i < n && expanded[i] ==> levels[i] >= 0)
    }

    /**
     * Every edge out of an expanded vertex, except those of `from` from
     * position `upto` on, leads to a free right vertex or to a partner that
     * has a level.
     */
    ghost predicate ClosedExcept(levels: seq<int>, expanded: seq<bool>, from: int, upto: int)
      reads this
      requires Shape() && |levels| == n && |expanded| == n
    {
      forall i, t :: 0 <= i < n && expanded[i] && 0 <= t < |adj[i]| && (i != from || t < upto) && pairR[adj[i][t]] != -1 ==>
        levels[pairR[adj[i][t]]] != -1
    }

    ghost predicate Closed(levels: seq<int>, expanded: seq<bool>)
      reads this
      requires Shape() && |levels| == n && |expanded| == n
    {
      ClosedExcept(levels, expanded, -1, 0)
    }

    /** Some edge out of an expanded vertex, except those of `from` from `upto` on, reaches a free right vertex. */
    ghost predicate ReachedFreeExcept(expanded: seq<bool>, from: int, upto: int)
      reads this
      requires Shape() && |expanded| == n
    {
      exists i, t :: 0 <= i < n && expanded[i] && 0 <= t < |adj[i]| && (i != from || t < upto) && pairR[adj[i][t]] == -1
    }

    ghost predicate ReachedFree(expanded: seq<bool>)
      reads this
      requires Shape() && |expanded| == n
    {
      ReachedFreeExcept(expanded, -1, 0)
    }

    /** No two queue entries are the same vertex, and the ones still to expand are not expanded. */
    ghost predicate FreshQueue(expanded: seq<bool>, queue: seq<int>, size: int)
      requires 0 <= size <= |queue| && forall k :: 0 <= k < |queue| ==> 0 <= queue[k] < |expanded|
    {
      && (forall a, b :: 0 <= a < b < |queue| ==> queue[a] != queue[b])
      && (forall k :: 0 <= k < size ==> !expanded[queue[k]])
    }

    /** The state at the head of bfs's outer loop, before level d is drained. */
    ghost predicate LevelState(levels: seq<int>, expanded: seq<bool>, queue: seq<int>, d: int, finished: bool)
      reads this
      requires Shape()
    {
      && d >= 0 && Levelled(levels, expanded) && Closed(levels, expanded)
      && (finished <==> ReachedFree(expanded))
      && WholeLevels(levels, expanded, d)
      && (forall k :: 0 <= k < |queue| ==> 0 <= queue[k] < n && levels[queue[k]] == d)
      && (forall k :: 0 <= k < n && levels[k] == d ==> k in queue)
      && (forall a, b :: 0 <= a < b < |queue| ==> queue[a] != queue[b])
    }

    /** The state while level d is drained, between two dequeues. */
    ghost predicate DrainState(levels: seq<int>, expanded: seq<bool>, queue: seq<int>, size: int, d: int, finished: bool)
      reads this
      requires Shape()
    {
      && d >= 0 && Levelled(levels, expanded) && Closed(levels, expanded)
      && (finished <==> ReachedFree(expanded))
      && Draining(levels, expanded, queue, size, d)
      && FreshQueue(expanded, queue, size)
    }

    /** The state while the edges of `from` are scanned, up to position `upto` of its list. */
    ghost predicate ScanState(levels: seq<int>, expanded: seq<bool>, queue: seq<int>, size: int, d: int,
                              finished: bool, from: int, upto: int)
      reads this
      requires Shape()
    {
      && d >= 0 && 0 <= from < n && Levelled(levels, expanded) && ClosedExcept(levels, expanded, from, upto)
      && expanded[from] && levels[from] == d
      && (finished <==> ReachedFreeExcept(expanded, from, upto))
      && Draining(levels, expanded, queue, size, d)
      && FreshQueue(expanded, queue, size)
    }

    lemma StartDrain(levels: seq<int>, expanded: seq<bool>, queue: seq<int>, d: int, finished: bool)
      requires Shape() && LevelState(levels, expanded, queue, d, finished)
      ensures DrainState(levels, expanded, queue, |queue|, d, finished)
    {
      assert queue[..|queue|] == queue;
      assert queue[|queue|..] == [];
    }

    lemma EndDrain(levels: seq<int>, expanded: seq<bool>, queue: seq<int>, d: int, finished: bool)
      requires Shape() && DrainState(levels, expanded, queue, 0, d, finished)
      ensures LevelState(levels, expanded, queue, d + 1, finished)
    {
      assert queue[0..] == queue;
      assert queue[..0] == [];
    }

    /** Dequeueing the front vertex marks it expanded and starts the scan of its edges. */
    lemma Pop(levels: seq<int>, expanded: seq<bool>, queue: seq<int>, size: int, d: int, finished: bool)
      requires Shape() && DrainState(levels, expanded, queue, size, d, finished) && size > 0
      ensures ScanState(levels, expanded[queue[0] := true], queue[1..], size - 1, d, finished, queue[0], 0)
    {
      var from := queue[0];
      var ex := expanded[from := true];
      DrainPop(levels, expanded, queue, size, d);
      forall i | 0 <= i < n && levels[i] >= 1 ensures Discovered(levels, ex, i) {
        assert Discovered(levels, expanded, i);
        var k :| 0 <= k < n && expanded[k] && levels[i] == levels[k] + 1 && pairL[i] in adj[k];
        assert ex[k];
      }
      if ReachedFreeExcept(ex, from, 0) {
        var i, t :| 0 <= i < n && ex[i] && 0 <= t < |adj[i]| && (i != from || t < 0) && pairR[adj[i][t]] == -1;
        assert expanded[i];
      }
      if ReachedFree(expanded) {
        var i, t :| 0 <= i < n && expanded[i] && 0 <= t < |adj[i]| && (i != -1 || t < 0) && pairR[adj[i][t]] == -1;
        assert i != from;
        assert ex[i];
      }
      forall k | 0 <= k < size - 1 ensures !ex[queue[1..][k]] {
        assert queue[1..][k] == queue[k + 1] != queue[0];
      }
    }

    /** Passing over an edge to a free right vertex: the search will stop after this level. */
    lemma VisitFree(levels: seq<int>, expanded: seq<bool>, queue: seq<int>, size: int, d: int,
                    finished: bool, from: int, t: int)
      requires Shape() && ScanState(levels, expanded, queue, size, d, finished, from, t) && 0 <= t < |adj[from]|
      requires pairR[adj[from][t]] == -1
      ensures ScanState(levels, expanded, queue, size, d, true, from, t + 1)
    {
      assert 0 <= from < n && expanded[from] && 0 <= t < |adj[from]| && (from != from || t < t + 1) && pairR[adj[from][t]] == -1;
    }

    /** An edge to a matched right vertex does not change whether a free right vertex was reached. */
    lemma ReachedStep(expanded: seq<bool>, from: int, t: int)
      requires Shape() && |expanded| == n && 0 <= from < n && 0 <= t < |adj[from]| && pairR[adj[from][t]] != -1
      ensures ReachedFreeExcept(expanded, from, t + 1) <==> ReachedFreeExcept(expanded, from, t)
    {
      if ReachedFreeExcept(expanded, from, t + 1) {
        var i, u :| 0 <= i < n && expanded[i] && 0 <= u < |adj[i]| && (i != from || u < t + 1) && pairR[adj[i][u]] == -1;
        assert i != from || u < t;
      }
    }

    /** Passing over an edge to a matched right vertex whose partner already has a level. */
    lemma VisitMatched(levels: seq<int>, expanded: seq<bool>, queue: seq<int>, size: int, d: int,
                       finished: bool, from: int, t: int)
      requires Shape() && ScanState(levels, expanded, queue, size, d, finished, from, t) && 0 <= t < |adj[from]|
      requires pairR[adj[from][t]] != -1 && levels[pairR[adj[from][t]]] != -1
      ensures ScanState(levels, expanded, queue, size, d, finished, from, t + 1)
    {
      ReachedStep(expanded, from, t);
    }

    /** Giving the unlevelled partner p of a neighbour of `from` the level after from's. */
    lemma LevelPartner(levels: seq<int>, expanded: seq<bool>, from: int, t: int, d: int)
      requires Shape() && Consistent(pairL, pairR) && Levelled(levels, expanded)
      requires 0 <= from < n && expanded[from] && levels[from] == d && 0 <= t < |adj[from]|
      requires pairR[adj[from][t]] != -1 && levels[pairR[adj[from][t]]] == -1
      ensures Levelled(levels[pairR[adj[from][t]] := d + 1], expanded)
    {
      var to := adj[from][t];
      var p := pairR[to];
      var lv := levels[p := d + 1];
      assert pairL[p] == to;
      forall i | 0 <= i < n && lv[i] >= 1 ensures Discovered(lv, expanded, i) {
        if i == p {
          assert lv[p] == lv[from] + 1 && pairL[p] in adj[from];
        } else {
          assert Discovered(levels, expanded, i);
          var k :| 0 <= k < n && expanded[k] && levels[i] == levels[k] + 1 && pairL[i] in adj[k];
          assert lv[k] == levels[k];
        }
      }
    }

    /** Queueing a vertex that had no level keeps the queue free of repeats. */
    lemma FreshPush(levels: seq<int>, expanded: seq<bool>, queue: seq<int>, size: int, d: int, p: int)
      requires Draining(levels, expanded, queue, size, d) && d >= 0
      requires FreshQueue(expanded, queue, size)
      requires 0 <= p < |levels| && levels[p] == -1
      ensures FreshQueue(expanded, queue + [p], size)
    {
      var q := queue + [p];
      forall a, b | 0 <= a < b < |q| ensures q[a] != q[b] {
        if b == |queue| {
          assert levels[queue[a]] == d || levels[queue[a]] == d + 1;
        }
      }
    }

    /** Passing over an edge to a matched right vertex whose partner has no level: the partner is queued at level d + 1. */
    lemma VisitLevel(levels: seq<int>, expanded: seq<bool>, queue: seq<int>, size: int, d: int,
                     finished: bool, from: int, t: int)
      requires Shape() && Consistent(pairL, pairR)
      requires ScanState(levels, expanded, queue, size, d, finished, from, t) && 0 <= t < |adj[from]|
      requires pairR[adj[from][t]] != -1 && levels[pairR[adj[from][t]]] == -1
      ensures ScanState(levels[pairR[adj[from][t]] := d + 1], expanded, queue + [pairR[adj[from][t]]], size, d,
                        finished, from, t + 1)
      ensures Unleveled(levels[pairR[adj[from][t]] := d + 1]) == Unleveled(levels) - 1
    {
      var p := pairR[adj[from][t]];
      LevelOne(levels, p, d + 1);
      DrainPush(levels, expanded, queue, size, d, p);
      FreshPush(levels, expanded, queue, size, d, p);
      LevelPartner(levels, expanded, from, t, d);
      ReachedStep(expanded, from, t);
    }

    /**
     * The level-by-level search (hopcroft_karp.cpp:13-45). Free left vertices
     * get level 0 and matched ones -1; whole levels are dequeued, each edge to
     * a free right vertex sets `finished` and each edge to an unlevelled
     * partner gives it the next level and queues it; the search stops at the
     * end of the first level in which `finished` was set. `expanded` (ghost)
     * records the vertices dequeued.
     */
    method Bfs() returns (finished: bool, levels: seq<int>, ghost expanded: seq<bool>)
      requires Valid()
      ensures Levelled(levels, expanded)
      ensures Closed(levels, expanded)
      ensures finished <==> ReachedFree(expanded)
      ensures exists d :: WholeLevels(levels, expanded, d)
      ensures !finished ==> forall i :: 0 <= i < n && levels[i] >= 0 ==> expanded[i]
    {
      levels := seq(n, _ => -1);
      expanded := seq(n, _ => false);
      var queue: seq<int> := [];
      var i := 0;
      while i < n
        invariant 0 <= i <= n && |levels| == n
        invariant forall k :: 0 <= k < n ==> levels[k] == (if k < i && pairL[k] == -1 then 0 else if k < i then -1 else levels[k])
        invariant forall k :: 0 <= k < |queue| ==> 0 <= queue[k] < i && levels[queue[k]] == 0
        invariant forall k :: 0 <= k < i && pairL[k] == -1 ==> k in queue
        invariant forall a, b :: 0 <= a < b < |queue| ==> queue[a] < queue[b]
      {
        if pairL[i] == -1 {
          queue := queue + [i];
          levels := levels[i := 0];
        } else {
          levels := levels[i := -1];
        }
        i := i + 1;
      }

      finished := false;
      ghost var d := 0;
      while queue != [] && !finished
        invariant LevelState(levels, expanded, queue, d, finished)
        decreases Unleveled(levels) + (if queue == [] then 0 else 1)
      {
        levels, expanded, queue, finished := DrainLevel(d, levels, expanded, queue, finished);
        d := d + 1;
      }
      assert WholeLevels(levels, expanded, d);
    }

    /** One round of bfs's outer loop (hopcroft_karp.cpp:26-42): the whole of level d is dequeued and scanned. */
    method DrainLevel(ghost d: int, levels0: seq<int>, ghost expanded0: seq<bool>, queue0: seq<int>, finished0: bool)
      returns (levels: seq<int>, ghost expanded: seq<bool>, queue: seq<int>, finished: bool)
      requires Valid()
      requires LevelState(levels0, expanded0, queue0, d, finished0)
      ensures LevelState(levels, expanded, queue, d + 1, finished)
      ensures Unleveled(levels0) - Unleveled(levels) == |queue|
    {
      levels, expanded, queue, finished := levels0, expanded0, queue0, finished0;
      var size := |queue|;
      StartDrain(levels, expanded, queue, d, finished);
      while size > 0
        invariant DrainState(levels, expanded, queue, size, d, finished)
        invariant Unleveled(levels0) - Unleveled(levels) == |queue| - size
      {
        var from := queue[0];
        Pop(levels, expanded, queue, size, d, finished);
        size := size - 1;
        queue := queue[1..];
        expanded := expanded[from := true];
        levels, queue, finished := Scan(from, d, levels, expanded, queue, size, finished);
      }
      EndDrain(levels, expanded, queue, d, finished);
    }

    /**
     * The edge loop of bfs for one dequeued vertex `from` at level d
     * (hopcroft_karp.cpp:31-41).
     */
    method Scan(from: int, ghost d: int, levels: seq<int>, ghost expanded: seq<bool>,
                queue: seq<int>, size: int, finished: bool)
      returns (levels': seq<int>, queue': seq<int>, finished': bool)
      requires Valid()
      requires ScanState(levels, expanded, queue, size, d, finished, from, 0)
      ensures DrainState(levels', expanded, queue', size, d, finished')
      ensures Unleveled(levels) - Unleveled(levels') == |queue'| - |queue|
    {
      levels', queue', finished' := levels, queue, finished;
      var t := 0;
      while t < |adj[from]|
        invariant 0 <= t <= |adj[from]|
        invariant ScanState(levels', expanded, queue', size, d, finished', from, t)
        invariant Unleveled(levels) - Unleveled(levels') == |queue'| - |queue|
      {
        var to := adj[from][t];
        if pairR[to] == -1 {
          VisitFree(levels', expanded, queue', size, d, finished', from, t);
          finished' := true;
        } else if levels'[pairR[to]] == -1 {
          var partner := pairR[to];
          var level := levels'[from] + 1;
          assert level == d + 1;
          VisitLevel(levels', expanded, queue', size, d, finished', from, t);
          levels' := levels'[partner := level];
          queue' := queue' + [partner];
        } else {
          VisitMatched(levels', expanded, queue', size, d, finished', from, t);
        }
        t := t + 1;
      }
    }

    /** Every pair that differs from pairL0 is an edge of the graph. */
    ghost predicate EdgeChanges(pairL0: seq<int>)
      reads this
      requires Shape() && |pairL0| == n
    {
      forall i :: 0 <= i < n && pairL[i] != pairL0[i] ==> pairL[i] in adj[i]
    }

    /**
     * The level-respecting augmenting search (hopcroft_karp.cpp:47-59): it
     * enters each left vertex at most once per phase through the shared
     * `visited` vector, takes a free right neighbour at once, descends only to
     * partners exactly one level deeper, and on success rematches every vertex
     * on the path.
     */
    method Dfs(from: int, levels: seq<int>, visited0: seq<bool>) returns (found: bool, visited: seq<bool>)
      requires Valid() && 0 <= from < n && |levels| == n && |visited0| == n
      modifies this`pairL, this`pairR
      decreases Unvisited(visited0)
      ensures Shape()
      ensures |visited| == n && visited[from]
      ensures forall i :: 0 <= i < n && visited0[i] ==> visited[i]
      ensures visited0[from] ==> !found && visited == visited0
      ensures !found ==> pairL == old(pairL) && pairR == old(pairR)
      ensures found ==> PairsAugmented(old(pairL), old(pairR), pairL, pairR, from, levels, visited0)
      ensures found ==> EdgeChanges(old(pairL))
    {
      visited := visited0;
      if visited[from] {
        return false, visited;
      }
      visited := visited[from := true];
      UnvisitedShrinks(visited0, visited, from);
      var t := 0;
      while t < |adj[from]|
        invariant 0 <= t <= |adj[from]|
        invariant |visited| == n && visited[from]
        invariant forall i :: 0 <= i < n && visited0[i] ==> visited[i]
        invariant Unvisited(visited) < Unvisited(visited0)
        invariant pairL == old(pairL) && pairR == old(pairR)
      {
        var to := adj[from][t];
        var partner := pairR[to];
        if partner == -1 {
          CommitFree(pairL, pairR, from, to, levels, visited0);
          pairL := pairL[from := to];
          pairR := pairR[to := from];
          return true, visited;
        }
        if levels[partner] == levels[from] + 1 {
          ghost var atCall := visited;
          var ok, after := Dfs(partner, levels, visited);
          UnvisitedMonotone(visited, after);
          visited := after;
          if ok {
            CommitChain(old(pairL), old(pairR), pairL, pairR, from, to, levels, visited0, atCall);
            pairL := pairL[from := to];
            pairR := pairR[to := from];
            return true, visited;
          }
        }
        t := t + 1;
      }
      found := false;
    }

    /**
     * The augmenting pass of one phase (hopcroft_karp.cpp:77-82): dfs from
     * every left vertex still free when its turn comes, sharing one visited
     * array. Each success matches exactly that vertex, so `added` is the
     * growth of the matched count; matched left vertices stay matched.
     */
    method AugmentAll(levels: seq<int>) returns (added: nat)
      requires Valid() && |levels| == n
      modifies this`pairL, this`pairR
      ensures Valid()
      ensures CountMatched(pairL) == old(CountMatched(pairL)) + added
      ensures forall i :: 0 <= i < n && old(pairL[i]) != -1 ==> pairL[i] != -1
    {
      added := 0;
      var visited := seq(n, _ => false);
      var u := 0;
      while u < n
        invariant 0 <= u <= n && |visited| == n
        invariant Valid()
        invariant CountMatched(pairL) == old(CountMatched(pairL)) + added
        invariant forall i :: 0 <= i < n && old(pairL[i]) != -1 ==> pairL[i] != -1
      {
        if pairL[u] == -1 {
          ghost var before := pairL;
          var ok;
          ok, visited := Dfs(u, levels, visited);
          if ok {
            CountAfterMatching(before, pairL, u);
            added := added + 1;
          }
        }
        u := u + 1;
      }
    }

    /**
     * No alternating search from the free left vertices reaches a free right
     * vertex: the levelled vertices contain every free left vertex, are
     * closed under "edge to a matched right vertex, then its partner", and
     * have no edge to a free right vertex.
     */
    ghost predicate Exhausted()
      reads this
      requires Shape()
    {
      exists levels: seq<int>, expanded: seq<bool> ::
        && Levelled(levels, expanded) && Closed(levels, expanded) && !ReachedFree(expanded)
        && forall i :: 0 <= i < n && levels[i] >= 0 ==> expanded[i]
    }

    /**
     * solve (hopcroft_karp.cpp:72-85): phases run while bfs reports a free
     * right vertex; the counter counts the successful dfs calls. The source
     * loops without bound; here at most `fuel` phases run and `done` tells
     * whether bfs reported none.
     */
    method Solve(fuel: nat) returns (counter: nat, done: bool)
      requires Valid()
      modifies this`pairL, this`pairR
      ensures Valid()
      ensures CountMatched(pairL) == old(CountMatched(pairL)) + counter
      ensures forall i :: 0 <= i < n && old(pairL[i]) != -1 ==> pairL[i] != -1
      ensures done ==> Exhausted()
    {
      counter := 0;
      done := false;
      var phase := 0;
      while phase < fuel
        invariant Valid()
        invariant CountMatched(pairL) == old(CountMatched(pairL)) + counter
        invariant forall i :: 0 <= i < n && old(pairL[i]) != -1 ==> pairL[i] != -1
        invariant !done
        decreases fuel - phase
      {
        var finished, levels, expanded := Bfs();
        if !finished {
          assert Levelled(levels, expanded) && Closed(levels, expanded) && !ReachedFree(expanded);
          done := true;
          return;
        }
        var added := AugmentAll(levels);
        counter := counter + added;
        phase := phase + 1;
      }
    }
  }
}
