/**
 * Ford-Fulkerson maximum flow with depth-first augmenting paths, in the shape
 * of max_flow/ford_fulkerson.cpp: a Graph object holding the residual matrix,
 * which add_edge fills and the recursive dfs rewrites in place along each
 * augmenting path.
 */
module FordFulkerson {
  import opened Sums
  import opened Residual
  import opened Matching

  class Graph {
    const size: nat
    var graph: seq<seq<int>>

    /** A size x size residual matrix with no negative entry. */
    ghost predicate Valid()
      reads this
    {
      |graph| == size && Square(graph) && NonNegative(graph)
    }

    /** The constructor (ford_fulkerson.cpp:28-30): a size x size matrix of zeros. */
    constructor (size: nat)
      ensures this.size == size && Valid()
      ensures forall u, v :: 0 <= u < size && 0 <= v < size ==> graph[u][v] == 0
    {
      this.size := size;
      graph := seq(size, _ => seq(size, _ => 0));
    }

    /** get_capacity (ford_fulkerson.cpp:47-49): the current residual from `from` to `to`. */
    function GetCapacity(from: int, to: int): int
      reads this
      requires Valid() && 0 <= from < size && 0 <= to < size
    {
      graph[from][to]
    }

    /** add_edge (ford_fulkerson.cpp:32-34): the capacity is added to what the entry already holds. */
    method AddEdge(from: int, to: int, capacity: nat)
      requires Valid() && 0 <= from < size && 0 <= to < size
      modifies this`graph
      ensures Valid()
      ensures GetCapacity(from, to) == old(GetCapacity(from, to)) + capacity
      ensures forall u, v :: 0 <= u < size && 0 <= v < size && (u != from || v != to) ==> graph[u][v] == old(graph[u][v])
    {
      graph := graph[from := graph[from][to := graph[from][to] + capacity]];
    }

    /**
     * dfs (ford_fulkerson.cpp:10-25). It returns 0 from a visited vertex and
     * the carried flow on reaching `finish` (which is never marked); otherwise
     * it marks `from`, tries every non-zero residual edge in column order with
     * the smaller of the carried flow and that residual, and on the first
     * success sends the amount found back along the edge.
     *
     * What it promises: the amount is between 0 and the carried flow; on 0
     * nothing changed and every vertex this call marked has all its non-zero
     * edges into marked vertices; otherwise `from`'s row sum drops and
     * `finish`'s row sum rises by the amount, every other row sum and every
     * pair sum is kept, residuals stay non-negative, and entries touching a
     * vertex marked before the call are untouched.
     */
    method Dfs(from: int, finish: int, visited0: seq<bool>, flow: int) returns (pushed: int, visited: seq<bool>)
      requires Valid() && 0 <= from < size && 0 <= finish < size && |visited0| == size && !visited0[finish]
      requires flow > 0
      modifies this`graph
      decreases Unvisited(visited0)
      ensures Valid()
      ensures 0 <= pushed <= flow
      ensures |visited| == size && !visited[finish]
      ensures forall i :: 0 <= i < size && visited0[i] ==> visited[i]
      ensures visited0[from] ==> pushed == 0 && visited == visited0
      ensures from == finish && !visited0[from] ==> pushed == flow
      ensures pushed == 0 ==> graph == old(graph)
      ensures pushed == 0 ==> visited[from] && forall u, v :: 0 <= u < size && 0 <= v < size && visited[u] && !visited0[u] && graph[u][v] != 0 ==> visited[v]
      ensures Conserves(old(graph), graph, from, finish, pushed)
      ensures Untouched(old(graph), graph, visited0)
    {
      visited := visited0;
      if visited[from] {
        return 0, visited;
      }
      if from == finish {
        return flow, visited;
      }
      visited := visited[from := true];
      UnvisitedShrinks(visited0, visited, from);
      var to := 0;
      while to < size
        invariant 0 <= to <= size
        invariant |visited| == size && visited[from] && !visited[finish]
        invariant forall i :: 0 <= i < size && visited0[i] ==> visited[i]
        invariant Unvisited(visited) < Unvisited(visited0)
        invariant graph == old(graph)
        invariant forall v :: 0 <= v < to && graph[from][v] != 0 ==> visited[v]
        invariant forall u, v :: 0 <= u < size && 0 <= v < size && visited[u] && !visited0[u] && u != from && graph[u][v] != 0 ==>
                    visited[v]
      {
        if graph[from][to] != 0 {
          ghost var atCall := visited;
          var amount, after := Dfs(to, finish, visited, Min(flow, graph[from][to]));
          UnvisitedMonotone(visited, after);
          visited := after;
          if amount != 0 {
            ExtendTransfer(old(graph), graph, from, to, finish, amount, visited0, atCall);
            graph := Push(graph, from, to, amount);
            return amount, visited;
          }
        }
        to := to + 1;
      }
      pushed := 0;
    }

    /**
     * max_flow (ford_fulkerson.cpp:36-45): augmenting paths are searched from
     * `start` with the INT_MAX sentinel and a cleared visited vector until a
     * search returns 0; the amounts are summed. The amount is the net flow
     * that left `start` and reached `finish`, every other vertex conserves
     * flow, and at the end the vertices the last search marked separate
     * `start` from `finish`. Each round lowers start's row sum, which stays
     * non-negative, so the loop ends.
     */
    method MaxFlow(start: int, finish: int) returns (total: int)
      requires Valid() && 0 <= start < size && 0 <= finish < size && start != finish
      modifies this`graph
      ensures Valid()
      ensures total >= 0
      ensures Conserves(old(graph), graph, start, finish, total)
      ensures exists cut :: SeparatingCut(graph, cut, start, finish)
    {
      total := 0;
      var visited := seq(size, _ => false);
      while true
        invariant Valid() && |visited| == size && forall i :: 0 <= i < size ==> !visited[i]
        invariant total >= 0
        invariant Conserves(old(graph), graph, start, finish, total)
        decreases Sum(graph[start])
      {
        SumNonNegative(graph[start]);
        ghost var before := graph;
        var flow;
        flow, visited := Dfs(start, finish, visited, IntMax);
        if flow == 0 {
          assert SeparatingCut(graph, visited, start, finish);
          return;
        }
        total := total + flow;
        ConservesTrans(old(graph), before, graph, start, finish, total - flow, flow);
        visited := seq(size, _ => false);
      }
    }
  }
}
