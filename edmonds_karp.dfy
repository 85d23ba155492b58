/**
 * Edmonds-Karp maximum flow, in the shape of max_flow/edmonds_karp.cpp: a
 * Graph object holding the residual matrix; bfs runs a queue of
 * (vertex, bottleneck) entries, marks a vertex when it is dequeued and
 * records in `parents` the last vertex that enqueued each one; max_flow walks
 * the parent chain back from `finish` and rewrites the residuals in place.
 *
 * Because a parent may be overwritten after the entry that will reach
 * `finish` first was queued, the bottleneck returned and the chain walked can
 * belong to different paths (OverwrittenParentOverdraws). The corrected
 * search (BfsCorrected, MaxFlowCorrected) marks a vertex when it is queued,
 * so every vertex gets one entry and one parent.
 */
module EdmondsKarp {
  import opened Sums
  import opened Residual
  import opened Matching
  import opened EdmondsKarpSpec

  class Graph {
    const size: nat
    var graph: seq<seq<int>>

    /** A size x size residual matrix; entries may be negative (see OverwrittenParentOverdraws). */
    ghost predicate Valid()
      reads this
    {
      |graph| == size && Square(graph)
    }

    /** The constructor (edmonds_karp.cpp:39-41): a size x size matrix of zeros. */
    constructor (size: nat)
      ensures this.size == size && Valid()
      ensures forall u, v :: 0 <= u < size && 0 <= v < size ==> graph[u][v] == 0
    {
      this.size := size;
      graph := seq(size, _ => seq(size, _ => 0));
    }

    /** get_capacity (edmonds_karp.cpp:67-69): the current residual from `from` to `to`. */
    function GetCapacity(from: int, to: int): int
      reads this
      requires Valid() && 0 <= from < size && 0 <= to < size
    {
      graph[from][to]
    }

    /** add_edge (edmonds_karp.cpp:43-45): the capacity is added to what the entry already holds. */
    method AddEdge(from: int, to: int, capacity: int)
      requires Valid() && 0 <= from < size && 0 <= to < size
      modifies this`graph
      ensures Valid()
      ensures GetCapacity(from, to) == old(GetCapacity(from, to)) + capacity
      ensures forall u, v :: 0 <= u < size && 0 <= v < size && (u != from || v != to) ==> graph[u][v] == old(graph[u][v])
    {
      graph := graph[from := graph[from][to := graph[from][to] + capacity]];
    }

    /**
     * The for loop of bfs (edmonds_karp.cpp:27-32) over the row of `from`:
     * the entries it queues, in column order, and the parents it leaves are
     * those of Expand over every column.
     */
    method ExpandRow(from: int, f: int, visited: seq<bool>, parents0: seq<int>) returns (entries: seq<Entry>, parents: seq<int>)
      requires Valid() && 0 <= from < size && |visited| == size && |parents0| == size
      ensures Expansion(entries, parents) == Expand(graph[from], visited, from, f, parents0, size)
    {
      entries := [];
      parents := parents0;
      var to := 0;
      while to < size
        invariant 0 <= to <= size
        invariant Expansion(entries, parents) == Expand(graph[from], visited, from, f, parents0, to)
      {
        ExpandNext(graph[from], visited, from, f, parents0, to);
        if !visited[to] && graph[from][to] != 0 {
          entries := entries + [Entry(to, Min(f, graph[from][to]))];
          parents := parents[to := from];
        }
        to := to + 1;
      }
    }

    /**
     * bfs (edmonds_karp.cpp:11-36), as written. Its result is the queue loop
     * BfsLoop run from the single entry (start, INT_MAX) with nothing marked,
     * and so it has SearchOutcome: 0 only when a cut separates `start` from
     * `finish`, otherwise parents forming a tree over non-zero edges that
     * reaches `finish` from `start`.
     */
    method Bfs(start: int, finish: int, parents0: seq<int>) returns (flow: int, parents: seq<int>)
      requires Valid() && 0 <= start < size && 0 <= finish < size && |parents0| == size
      ensures Search(flow, parents) == BfsLoop(graph, finish, [Entry(start, IntMax)], seq(size, _ => false), parents0)
      ensures |parents| == size && SearchOutcome(graph, start, finish, Search(flow, parents))
    {
      SearchStart(graph, start, finish, parents0);
      SearchOutcomeHolds(graph, start, finish, [Entry(start, IntMax)], seq(size, _ => false), parents0, seq(size, _ => -1), 0);
      var queue := [Entry(start, IntMax)];
      var visited := seq(size, _ => false);
      parents := parents0;
      while |queue| > 0
        invariant |visited| == size && |parents| == size
        invariant forall i :: 0 <= i < |queue| ==> 0 <= queue[i].vertex < size
        invariant BfsLoop(graph, finish, queue, visited, parents) ==
                  BfsLoop(graph, finish, [Entry(start, IntMax)], seq(size, _ => false), parents0)
        decreases Unvisited(visited), |queue|
      {
        var from := queue[0].vertex;
        var f := queue[0].flow;
        if from == finish {
          flow := f;
          return;
        }
        if visited[from] {
          queue := queue[1..];
        } else {
          ghost var visited0 := visited;
          ghost var p0 := parents;
          visited := visited[from := true];
          UnvisitedShrinks(visited0, visited, from);
          var entries;
          entries, parents := ExpandRow(from, f, visited, parents);
          BfsLoopExpands(graph, finish, queue, visited0, p0, visited, Expansion(entries, parents));
          queue := queue[1..] + entries;
        }
      }
      flow := 0;
    }

    /**
     * The augmentation of max_flow (edmonds_karp.cpp:54-60): the parent chain
     * from `finish` is walked back to `start`, each edge losing `flow` and its
     * reverse gaining it.
     */
    method Augment(start: int, finish: int, parents: seq<int>, ghost rank: seq<int>, flow: int)
      requires Valid() && |parents| == size && Tree(parents, rank, start) && 0 <= finish < size && rank[finish] >= 0
      modifies this`graph
      ensures Valid()
      ensures graph == Walk(old(graph), parents, rank, start, finish, flow)
    {
      var it := finish;
      while it != start
        invariant Valid() && 0 <= it < size && rank[it] >= 0
        invariant Walk(graph, parents, rank, start, it, flow) == Walk(old(graph), parents, rank, start, finish, flow)
        decreases rank[it]
      {
        ghost var before := graph;
        graph := graph[parents[it] := graph[parents[it]][it := graph[parents[it]][it] - flow]];
        graph := graph[it := graph[it][parents[it] := graph[it][parents[it]] + flow]];
        assert graph == Push(before, parents[it], it, flow);
        it := parents[it];
      }
    }

    /**
     * One round of max_flow (edmonds_karp.cpp:51-60), as written: a search
     * and, when it dequeued `finish`, the walk of the parent chain with the
     * bottleneck it returned. The round moves exactly that amount from
     * `start` to `finish`; a round that finds nothing changes nothing and
     * leaves a cut separating the two.
     */
    method Round(start: int, finish: int, parents0: seq<int>) returns (flow: int, parents: seq<int>)
      requires Valid() && 0 <= start < size && 0 <= finish < size && |parents0| == size
      modifies this`graph
      ensures Valid() && |parents| == size
      ensures Conserves(old(graph), graph, start, finish, flow)
      ensures flow == 0 ==> graph == old(graph) && exists cut :: SeparatingCut(graph, cut, start, finish)
    {
      flow, parents := Bfs(start, finish, parents0);
      if flow != 0 {
        ghost var rank :| Tree(parents, rank, start) && TreeEdges(graph, parents, rank, start) && rank[finish] >= 0;
        Augment(start, finish, parents, rank, flow);
        WalkConserves(old(graph), parents, rank, start, finish, flow);
      } else {
        ConservesTrans(graph, graph, graph, start, finish, 0, 0);
      }
    }

    /**
     * max_flow (edmonds_karp.cpp:47-65), as written, for at most `fuel`
     * rounds, resetting the parents after each. Whatever the residuals do,
     * the total is what left `start` and reached `finish` with every other
     * vertex balanced, and when the loop ends by itself (`done`) a cut
     * separates `start` from `finish`.
     */
    method MaxFlow(start: int, finish: int, fuel: nat) returns (total: int, done: bool)
      requires Valid() && 0 <= start < size && 0 <= finish < size
      modifies this`graph
      ensures Valid()
      ensures Conserves(old(graph), graph, start, finish, total)
      ensures done ==> exists cut :: SeparatingCut(graph, cut, start, finish)
    {
      total := 0;
      done := false;
      var parents := seq(size, _ => -1);
      var round := 0;
      while round < fuel
        invariant Valid() && |parents| == size
        invariant Conserves(old(graph), graph, start, finish, total)
      {
        var flow;
        ghost var before := graph;
        flow, parents := Round(start, finish, parents);
        if flow == 0 {
          done := true;
          return;
        }
        total := total + flow;
        ConservesTrans(old(graph), before, graph, start, finish, total - flow, flow);
        parents := seq(size, _ => -1);
        round := round + 1;
      }
    }

    /**
     * bfs with the vertex marked when it is queued instead of when it is
     * dequeued (the evident intent of edmonds_karp.cpp:23-31): every vertex
     * is queued at most once and keeps its first parent, so the bottleneck
     * returned is carried by every edge of the chain from `finish`
     * (CorrectedOutcome).
     */
    method BfsCorrected(start: int, finish: int, parents0: seq<int>) returns (flow: int, parents: seq<int>)
      requires Valid() && NonNegative(graph) && 0 <= start < size && 0 <= finish < size && |parents0| == size
      ensures |parents| == size && CorrectedOutcome(graph, start, finish, Search(flow, parents))
    {
      var queue := [Entry(start, IntMax)];
      var visited := seq(size, _ => false)[start := true];
      parents := parents0;
      ghost var rank := seq(size, _ => -1)[start := 0];
      ghost var counter := 1;
      ghost var carry := seq(size, _ => IntMax);
      CorrectedStart(graph, start, finish, parents0);
      while |queue| > 0
        invariant CorrectedInv(graph, start, finish, queue, visited, parents, rank, counter, carry)
        invariant ClosedBut(graph, queue, visited, -1, 0)
        decreases Unvisited(visited), |queue|
      {
        var from := queue[0].vertex;
        var f := queue[0].flow;
        if from == finish {
          flow := f;
          CorrectedDone(graph, start, finish, queue, visited, parents, rank, counter, carry, flow);
          return;
        }
        CorrectedPop(graph, start, finish, queue, visited, parents, rank, counter, carry);
        queue := queue[1..];
        ghost var visited0 := visited;
        ghost var length0 := |queue|;
        var to := 0;
        while to < size
          invariant 0 <= to <= size
          invariant CorrectedInv(graph, start, finish, queue, visited, parents, rank, counter, carry)
          invariant ClosedBut(graph, queue, visited, from, to)
          invariant 0 <= from < size && visited[from] && f == carry[from]
          invariant forall i :: 0 <= i < size && visited0[i] ==> visited[i]
          invariant Unvisited(visited) < Unvisited(visited0) || |queue| == length0
          invariant Unvisited(visited) <= Unvisited(visited0)
        {
          if !visited[to] && graph[from][to] != 0 {
            CorrectedEnqueue(graph, start, finish, queue, visited, parents, rank, counter, carry, from, to);
            ClosedEnqueue(graph, queue, visited, from, Entry(to, Min(f, graph[from][to])));
            ghost var before := visited;
            queue := queue + [Entry(to, Min(f, graph[from][to]))];
            visited := visited[to := true];
            UnvisitedShrinks(before, visited, to);
            parents := parents[to := from];
            rank := rank[to := counter];
            counter := counter + 1;
            carry := carry[to := Min(f, graph[from][to])];
          } else {
            CorrectedSkip(graph, queue, visited, from, to);
          }
          to := to + 1;
        }
      }
      flow := 0;
      CorrectedDone(graph, start, finish, queue, visited, parents, rank, counter, carry, flow);
    }

    /**
     * One round over BfsCorrected: the chain walked carries the bottleneck,
     * so the residuals stay non-negative; a round that finds something moves
     * a positive amount from `start` to `finish`.
     */
    method RoundCorrected(start: int, finish: int, parents0: seq<int>) returns (flow: int, parents: seq<int>)
      requires Valid() && NonNegative(graph) && 0 <= start < size && 0 <= finish < size && |parents0| == size
      modifies this`graph
      ensures Valid() && NonNegative(graph) && |parents| == size && flow >= 0
      ensures Conserves(old(graph), graph, start, finish, flow)
      ensures flow == 0 ==> graph == old(graph) && exists cut :: SeparatingCut(graph, cut, start, finish)
    {
      flow, parents := BfsCorrected(start, finish, parents0);
      if flow != 0 {
        ghost var rank :| Tree(parents, rank, start) && rank[finish] >= 0 && Carries(graph, parents, rank, start, finish, flow);
        WalkNonNegative(graph, parents, rank, start, finish, flow);
        Augment(start, finish, parents, rank, flow);
        WalkConserves(old(graph), parents, rank, start, finish, flow);
      } else {
        ConservesTrans(graph, graph, graph, start, finish, 0, 0);
      }
    }

    /**
     * max_flow over RoundCorrected: each round moves a positive amount out of
     * `start`, whose row sum never goes negative, so the loop ends, and it
     * ends with a cut separating `start` from `finish`.
     */
    method MaxFlowCorrected(start: int, finish: int) returns (total: int)
      requires Valid() && NonNegative(graph) && 0 <= start < size && 0 <= finish < size && start != finish
      modifies this`graph
      ensures Valid() && NonNegative(graph)
      ensures total >= 0
      ensures Conserves(old(graph), graph, start, finish, total)
      ensures exists cut :: SeparatingCut(graph, cut, start, finish)
    {
      total := 0;
      var parents := seq(size, _ => -1);
      while true
        invariant Valid() && NonNegative(graph) && |parents| == size && total >= 0
        invariant Conserves(old(graph), graph, start, finish, total)
        decreases Sum(graph[start])
      {
        SumNonNegative(graph[start]);
        var flow;
        ghost var before := graph;
        flow, parents := RoundCorrected(start, finish, parents);
        if flow == 0 {
          return;
        }
        total := total + flow;
        ConservesTrans(old(graph), before, graph, start, finish, total - flow, flow);
        parents := seq(size, _ => -1);
      }
    }
  }
}
