/**
 * The specification side of the Edmonds-Karp model: the bfs of
 * max_flow/edmonds_karp.cpp as a function of the queue state, the tree its
 * parents form, the walk that augments along that tree, and what the search
 * guarantees, both as written and with vertices marked when queued.
 */
module EdmondsKarpSpec {
  import opened Sums
  import opened Residual
  import opened Matching

  /** A queue element: a vertex and the smallest residual on the way to it. */
  datatype Entry = Entry(vertex: int, flow: int)

  /** What one expansion of a dequeued vertex adds to the queue, and the parents afterwards. */
  datatype Expansion = Expansion(entries: seq<Entry>, parents: seq<int>)

  /** What bfs hands back: the bottleneck (0 when finish was never dequeued) and the parents. */
  datatype Search = Search(flow: int, parents: seq<int>)

  function Vertices(q: seq<Entry>): set<int> {
    set i | 0 <= i < |q| :: q[i].vertex
  }

  lemma VerticesAppend(a: seq<Entry>, b: seq<Entry>)
    ensures Vertices(a + b) == Vertices(a) + Vertices(b)
  {
    forall w | w in Vertices(a + b) ensures w in Vertices(a) + Vertices(b) {
      var i :| 0 <= i < |a + b| && (a + b)[i].vertex == w;
      if i < |a| {
        assert a[i].vertex == w;
      } else {
        assert b[i - |a|].vertex == w;
      }
    }
    forall w | w in Vertices(a) + Vertices(b) ensures w in Vertices(a + b) {
      if w in Vertices(a) {
        var i :| 0 <= i < |a| && a[i].vertex == w;
        assert (a + b)[i].vertex == w;
      } else {
        var i :| 0 <= i < |b| && b[i].vertex == w;
        assert (a + b)[i + |a|].vertex == w;
      }
    }
  }

  lemma VerticesTail(q: seq<Entry>, w: int)
    requires w in Vertices(q) && |q| > 0 && w != q[0].vertex
    ensures w in Vertices(q[1..])
  {
    var i :| 0 <= i < |q| && q[i].vertex == w;
    assert q[1..][i - 1].vertex == w;
  }

  /**
   * The for loop of bfs over the columns 0 .. k-1 of the row of `from`
   * (edmonds_karp.cpp:27-32): every unmarked column with a non-zero residual
   * is queued with the smaller of the carried bottleneck and that residual,
   * and gets `from` as its parent, replacing whatever parent it had.
   */
  function Expand(row: seq<int>, visited: seq<bool>, from: int, flow: int, parents: seq<int>, k: nat): (x: Expansion)
    requires k <= |row| && |visited| == |row| && |parents| == |row|
    ensures |x.parents| == |parents|
    ensures forall y :: 0 <= y < |parents| ==>
              x.parents[y] == if y < k && !visited[y] && row[y] != 0 then from else parents[y]
    ensures forall i :: 0 <= i < |x.entries| ==>
              0 <= x.entries[i].vertex < k && !visited[x.entries[i].vertex] && row[x.entries[i].vertex] != 0 &&
              x.entries[i].flow == Min(flow, row[x.entries[i].vertex])
    ensures forall y :: 0 <= y < k && !visited[y] && row[y] != 0 ==> y in Vertices(x.entries)
  {
    if k == 0 then Expansion([], parents)
    else
      var x := Expand(row, visited, from, flow, parents, k - 1);
      var to := k - 1;
      if visited[to] || row[to] == 0 then x
      else
        var entries := x.entries + [Entry(to, Min(flow, row[to]))];
        VerticesAppend(x.entries, [Entry(to, Min(flow, row[to]))]);
        assert [Entry(to, Min(flow, row[to]))][0].vertex == to;
        Expansion(entries, x.parents[to := from])
  }

  /** Scanning one more column appends that column when it is unmarked with a non-zero residual, and re-parents it. */
  lemma ExpandNext(row: seq<int>, visited: seq<bool>, from: int, flow: int, parents: seq<int>, k: nat)
    requires k < |row| && |visited| == |row| && |parents| == |row|
    ensures var x := Expand(row, visited, from, flow, parents, k);
            Expand(row, visited, from, flow, parents, k + 1) ==
              if visited[k] || row[k] == 0 then x
              else Expansion(x.entries + [Entry(k, Min(flow, row[k]))], x.parents[k := from])
  {
  }

  /**
   * The queue loop of bfs (edmonds_karp.cpp:17-35) from a given state: an
   * empty queue gives 0; dequeuing `finish` gives that entry's bottleneck;
   * a marked vertex is skipped; any other vertex is marked and expanded.
   */
  function BfsLoop(g: seq<seq<int>>, finish: int, queue: seq<Entry>, visited: seq<bool>, parents: seq<int>): (s: Search)
    requires Square(g) && |visited| == |g| && |parents| == |g| && 0 <= finish < |g|
    requires forall i :: 0 <= i < |queue| ==> 0 <= queue[i].vertex < |g|
    ensures |s.parents| == |g|
    decreases Unvisited(visited), |queue|
  {
    if |queue| == 0 then Search(0, parents)
    else
      var v := queue[0].vertex;
      if v == finish then Search(queue[0].flow, parents)
      else if visited[v] then BfsLoop(g, finish, queue[1..], visited, parents)
      else
        var marked := visited[v := true];
        var x := Expand(g[v], marked, v, queue[0].flow, parents, |g|);
        UnvisitedShrinks(visited, marked, v);
        BfsLoop(g, finish, queue[1..] + x.entries, marked, x.parents)
  }

  /**
   * `rank` numbers the members of a tree rooted at `start` (rank -1: not a
   * member); every other member's parent is a member of smaller rank, so
   * following parents from any member ends at `start`.
   */
  ghost predicate Tree(parents: seq<int>, rank: seq<int>, start: int) {
    && |rank| == |parents| && 0 <= start < |parents| && rank[start] >= 0
    && forall v {:trigger rank[v], parents[v]} :: 0 <= v < |parents| && v != start && rank[v] >= 0 ==>
         0 <= parents[v] < |parents| && 0 <= rank[parents[v]] < rank[v]
  }

  /** Every tree edge parent -> child has a non-zero residual. */
  ghost predicate TreeEdges(g: seq<seq<int>>, parents: seq<int>, rank: seq<int>, start: int)
    requires Square(g) && |g| == |parents| && Tree(parents, rank, start)
  {
    forall v :: 0 <= v < |g| && v != start && rank[v] >= 0 ==> g[parents[v]][v] != 0
  }

  /** An unmarked vertex whose recorded parent is marked and has a non-zero residual into it. */
  ghost predicate Reached(g: seq<seq<int>>, parents: seq<int>, visited: seq<bool>, v: int)
    requires Square(g) && |parents| == |g| && |visited| == |g| && 0 <= v < |g|
  {
    0 <= parents[v] < |g| && visited[parents[v]] && g[parents[v]][v] != 0
  }

  /**
   * The walk of max_flow (edmonds_karp.cpp:54-60): from `v` back to `start`
   * along the parents, each edge parent -> child gives up f and its reverse
   * gains f. It moves f units from `start` to `v`.
   */
  ghost function Walk(g: seq<seq<int>>, parents: seq<int>, rank: seq<int>, start: int, v: int, f: int): (r: seq<seq<int>>)
    requires Square(g) && |g| == |parents| && Tree(parents, rank, start) && 0 <= v < |g| && rank[v] >= 0
    ensures Square(r) && |r| == |g|
    decreases rank[v]
  {
    if v == start then g
    else Walk(Push(g, parents[v], v, f), parents, rank, start, parents[v], f)
  }

  /** The walk moves f units from `start` to `v`: only those two row sums change, and no pair sum does. */
  lemma {:induction false} WalkConserves(g: seq<seq<int>>, parents: seq<int>, rank: seq<int>, start: int, v: int, f: int)
    requires Square(g) && |g| == |parents| && Tree(parents, rank, start) && 0 <= v < |g| && rank[v] >= 0
    ensures Conserves(g, Walk(g, parents, rank, start, v, f), start, v, f)
    decreases rank[v]
  {
    if v != start {
      var p := parents[v];
      var next := Push(g, p, v, f);
      PushRows(g, p, v, f);
      WalkConserves(next, parents, rank, start, p, f);
      ConservesChain(g, next, Walk(next, parents, rank, start, p, f), start, p, v, f);
    }
  }

  /** Moving f from a to b and then from s to a moves f from s to b. */
  lemma ConservesChain(g0: seq<seq<int>>, g1: seq<seq<int>>, g2: seq<seq<int>>, s: int, a: int, b: int, f: int)
    requires Conserves(g0, g1, a, b, f) && Conserves(g1, g2, s, a, f)
    ensures Conserves(g0, g2, s, b, f)
  {
    forall u | 0 <= u < |g2|
      ensures Sum(g2[u]) == Sum(g0[u]) - (if u == s then f else 0) + (if u == b then f else 0)
    {
    }
  }

  /** Every tree edge on the way from `v` back to `start` has at least f left. */
  ghost predicate Carries(g: seq<seq<int>>, parents: seq<int>, rank: seq<int>, start: int, v: int, f: int)
    requires Square(g) && |g| == |parents| && Tree(parents, rank, start) && 0 <= v < |g| && rank[v] >= 0
    decreases rank[v]
  {
    v == start || (f <= g[parents[v]][v] && Carries(g, parents, rank, start, parents[v], f))
  }

  lemma {:induction false} CarriesWeaker(g: seq<seq<int>>, parents: seq<int>, rank: seq<int>, start: int, v: int, f: int, f': int)
    requires Square(g) && |g| == |parents| && Tree(parents, rank, start) && 0 <= v < |g| && rank[v] >= 0
    requires Carries(g, parents, rank, start, v, f) && f' <= f
    ensures Carries(g, parents, rank, start, v, f')
    decreases rank[v]
  {
    if v != start {
      CarriesWeaker(g, parents, rank, start, parents[v], f, f');
    }
  }

  /** Chains below rank `bound` carry the same in g' when g' agrees with g on their edges. */
  lemma {:induction false} CarriesFrame(g: seq<seq<int>>, g': seq<seq<int>>, parents: seq<int>, rank: seq<int>, start: int,
                                        v: int, f: int, bound: int)
    requires Square(g) && Square(g') && |g| == |g'| == |parents| && Tree(parents, rank, start)
    requires forall y :: 0 <= y < |g| && y != start && 0 <= rank[y] < bound ==> g'[parents[y]][y] == g[parents[y]][y]
    requires 0 <= v < |g| && 0 <= rank[v] < bound && Carries(g, parents, rank, start, v, f)
    ensures Carries(g', parents, rank, start, v, f)
    decreases rank[v]
  {
    if v != start {
      CarriesFrame(g, g', parents, rank, start, parents[v], f, bound);
    }
  }

  /**
   * The intended property of the augmentation: when every edge of the chain
   * has at least f left, walking it with f leaves no residual negative.
   */
  lemma {:induction false} WalkNonNegative(g: seq<seq<int>>, parents: seq<int>, rank: seq<int>, start: int, v: int, f: int)
    requires Square(g) && |g| == |parents| && Tree(parents, rank, start) && 0 <= v < |g| && rank[v] >= 0
    requires NonNegative(g) && 0 <= f && Carries(g, parents, rank, start, v, f)
    ensures NonNegative(Walk(g, parents, rank, start, v, f))
    decreases rank[v]
  {
    if v != start {
      var p := parents[v];
      var next := Push(g, p, v, f);
      forall y | 0 <= y < |g| && y != start && 0 <= rank[y] < rank[v]
        ensures next[parents[y]][y] == g[parents[y]][y]
      {
      }
      CarriesFrame(g, next, parents, rank, start, p, f, rank[v]);
      WalkNonNegative(next, parents, rank, start, p, f);
    }
  }

  /** `rank` numbers exactly the marked vertices, each below `counter`. */
  ghost predicate Ranked(visited: seq<bool>, rank: seq<int>, counter: int) {
    |rank| == |visited| && counter >= 0 && forall y :: 0 <= y < |visited| ==> (visited[y] <==> rank[y] >= 0) && rank[y] < counter
  }

  /** Marking `v` with the next rank keeps the numbering. */
  lemma RankMark(visited: seq<bool>, rank: seq<int>, counter: int, v: int)
    requires Ranked(visited, rank, counter) && 0 <= v < |visited|
    ensures Ranked(visited[v := true], rank[v := counter], counter + 1)
  {
  }

  /** Adding members whose parent is an older member of smaller rank, and leaving the old members alone, keeps a tree. */
  lemma TreeExtend(parents: seq<int>, rank: seq<int>, parents': seq<int>, rank': seq<int>, start: int)
    requires Tree(parents, rank, start) && |parents'| == |rank'| == |parents|
    requires forall y :: 0 <= y < |parents| && rank[y] >= 0 ==> parents'[y] == parents[y] && rank'[y] == rank[y]
    requires forall y :: 0 <= y < |parents| && rank[y] < 0 && rank'[y] >= 0 ==>
               y != start && 0 <= parents'[y] < |parents| && 0 <= rank[parents'[y]] < rank'[y]
    ensures Tree(parents', rank', start)
  {
  }

  /**
   * Marking `v` with the next rank keeps the marked vertices a tree over
   * non-zero edges: either nothing was marked and `v` is `start`, or `v` was
   * reached from a marked parent; parents of marked vertices and of `v` do
   * not change.
   */
  lemma VisitTree(g: seq<seq<int>>, start: int, visited: seq<bool>, parents: seq<int>, rank: seq<int>, counter: int,
                  v: int, parents': seq<int>)
    requires Square(g) && 0 <= start < |g| && |visited| == |g| && |parents| == |g| && |rank| == |g| && |parents'| == |g|
    requires 0 <= v < |g| && !visited[v] && Ranked(visited, rank, counter)
    requires visited[start] ==> Tree(parents, rank, start) && TreeEdges(g, parents, rank, start) && v != start && Reached(g, parents, visited, v)
    requires !visited[start] ==> v == start && forall y :: 0 <= y < |g| ==> !visited[y]
    requires forall y :: 0 <= y < |g| && (visited[y] || y == v) ==> parents'[y] == parents[y]
    ensures Tree(parents', rank[v := counter], start) && TreeEdges(g, parents', rank[v := counter], start)
  {
    var rank' := rank[v := counter];
    if visited[start] {
      TreeExtend(parents, rank, parents', rank', start);
    } else {
      assert forall y :: 0 <= y < |g| && rank'[y] >= 0 ==> y == start;
    }
  }

  /**
   * Queued vertices are in range with a non-zero bottleneck of at most
   * INT_MAX, and each unmarked one other than `start` was reached from a
   * marked parent.
   */
  ghost predicate Pending(g: seq<seq<int>>, start: int, queue: seq<Entry>, visited: seq<bool>, parents: seq<int>)
    requires Square(g) && |visited| == |g| && |parents| == |g|
  {
    forall i :: 0 <= i < |queue| ==>
      && 0 <= queue[i].vertex < |g| && queue[i].flow != 0 && queue[i].flow <= IntMax
      && (!visited[queue[i].vertex] && queue[i].vertex != start ==> Reached(g, parents, visited, queue[i].vertex))
  }

  lemma PendingAppend(g: seq<seq<int>>, start: int, a: seq<Entry>, b: seq<Entry>, visited: seq<bool>, parents: seq<int>)
    requires Square(g) && |visited| == |g| && |parents| == |g|
    requires Pending(g, start, a, visited, parents) && Pending(g, start, b, visited, parents)
    ensures Pending(g, start, a + b, visited, parents)
  {
    forall i | 0 <= i < |a + b|
      ensures 0 <= (a + b)[i].vertex < |g|
    {
      if i >= |a| {
        assert (a + b)[i] == b[i - |a|];
      }
    }
  }

  /**
   * Marking more vertices and re-parenting unmarked ones onto marked parents
   * over non-zero edges keeps the queue pending.
   */
  lemma PendingMark(g: seq<seq<int>>, start: int, queue: seq<Entry>, visited: seq<bool>, parents: seq<int>,
                    marked: seq<bool>, parents': seq<int>)
    requires Square(g) && |visited| == |g| && |parents| == |g| && |marked| == |g| && |parents'| == |g|
    requires Pending(g, start, queue, visited, parents)
    requires forall y :: 0 <= y < |g| && visited[y] ==> marked[y]
    requires forall y :: 0 <= y < |g| && !marked[y] ==> parents'[y] == parents[y] || Reached(g, parents', marked, y)
    ensures Pending(g, start, queue, marked, parents')
  {
  }

  /**
   * The state of the as-written search from `start` towards `finish` at the
   * head of every turn: queued vertices are in range with a non-zero
   * bottleneck of at most INT_MAX; before the first turn only `start` is
   * queued and nothing is marked; `finish` is never marked; `rank` numbers
   * the marked vertices in marking order and, with their parents, they form
   * a tree over non-zero edges; every queued unmarked vertex other than
   * `start` has a marked parent over a non-zero edge; and every non-zero
   * edge out of a marked vertex ends at a marked or a queued vertex.
   */
  ghost predicate SearchInv(g: seq<seq<int>>, start: int, finish: int, queue: seq<Entry>, visited: seq<bool>,
                            parents: seq<int>, rank: seq<int>, counter: int)
  {
    && Square(g) && 0 <= start < |g| && 0 <= finish < |g|
    && |visited| == |g| && |parents| == |g| && |rank| == |g|
    && Pending(g, start, queue, visited, parents)
    && (visited[start] || (queue == [Entry(start, IntMax)] && forall v :: 0 <= v < |g| ==> !visited[v]))
    && !visited[finish] && Ranked(visited, rank, counter)
    && (visited[start] ==> Tree(parents, rank, start) && TreeEdges(g, parents, rank, start))
    && (forall u, w :: 0 <= u < |g| && 0 <= w < |g| && visited[u] && g[u][w] != 0 ==> visited[w] || w in Vertices(queue))
  }

  /**
   * What the as-written search guarantees: 0 only when some set of vertices
   * holding `start` and not `finish` has no non-zero edge leaving it; any
   * other result is at most INT_MAX and comes with parents that form a tree
   * over non-zero edges reaching `finish` from `start`.
   */
  ghost predicate SearchOutcome(g: seq<seq<int>>, start: int, finish: int, s: Search)
    requires Square(g) && 0 <= finish < |g|
  {
    && (s.flow == 0 ==> exists cut :: SeparatingCut(g, cut, start, finish))
    && (s.flow != 0 ==>
          && s.flow <= IntMax && |s.parents| == |g|
          && exists rank :: Tree(s.parents, rank, start) && TreeEdges(g, s.parents, rank, start) && rank[finish] >= 0)
  }

  lemma SearchStart(g: seq<seq<int>>, start: int, finish: int, parents0: seq<int>)
    requires Square(g) && 0 <= start < |g| && 0 <= finish < |g| && |parents0| == |g|
    ensures SearchInv(g, start, finish, [Entry(start, IntMax)], seq(|g|, _ => false), parents0, seq(|g|, _ => -1), 0)
  {
  }

  /** Dequeuing an already marked vertex keeps the search state. */
  lemma SearchSkip(g: seq<seq<int>>, start: int, finish: int, queue: seq<Entry>, visited: seq<bool>,
                   parents: seq<int>, rank: seq<int>, counter: int)
    requires SearchInv(g, start, finish, queue, visited, parents, rank, counter)
    requires |queue| > 0 && visited[queue[0].vertex]
    ensures SearchInv(g, start, finish, queue[1..], visited, parents, rank, counter)
  {
    forall u, w | 0 <= u < |g| && 0 <= w < |g| && visited[u] && g[u][w] != 0 && !visited[w]
      ensures w in Vertices(queue[1..])
    {
      VerticesTail(queue, w);
    }
  }

  /** Dequeuing an unmarked vertex other than `finish`, marking it and expanding it keeps the search state. */
  lemma SearchVisit(g: seq<seq<int>>, start: int, finish: int, queue: seq<Entry>, visited: seq<bool>,
                    parents: seq<int>, rank: seq<int>, counter: int)
    requires SearchInv(g, start, finish, queue, visited, parents, rank, counter)
    requires |queue| > 0 && queue[0].vertex != finish && !visited[queue[0].vertex]
    ensures var v := queue[0].vertex;
            var marked := visited[v := true];
            var x := Expand(g[v], marked, v, queue[0].flow, parents, |g|);
            SearchInv(g, start, finish, queue[1..] + x.entries, marked, x.parents, rank[v := counter], counter + 1)
  {
    var v := queue[0].vertex;
    var f := queue[0].flow;
    var marked := visited[v := true];
    var x := Expand(g[v], marked, v, f, parents, |g|);
    var q := queue[1..] + x.entries;
    VisitTree(g, start, visited, parents, rank, counter, v, x.parents);
    RankMark(visited, rank, counter, v);
    SearchVisitQueue(g, start, queue, visited, parents, x);
    VerticesAppend(queue[1..], x.entries);
    forall u, w | 0 <= u < |g| && 0 <= w < |g| && marked[u] && g[u][w] != 0 && !marked[w]
      ensures w in Vertices(q)
    {
      if u != v {
        VerticesTail(queue, w);
      }
    }
  }

  /** The queue after a visit stays pending. */
  lemma SearchVisitQueue(g: seq<seq<int>>, start: int, queue: seq<Entry>, visited: seq<bool>, parents: seq<int>, x: Expansion)
    requires Square(g) && |visited| == |g| && |parents| == |g|
    requires Pending(g, start, queue, visited, parents) && |queue| > 0 && !visited[queue[0].vertex]
    requires x == Expand(g[queue[0].vertex], visited[queue[0].vertex := true], queue[0].vertex, queue[0].flow, parents, |g|)
    ensures Pending(g, start, queue[1..] + x.entries, visited[queue[0].vertex := true], x.parents)
  {
    var v := queue[0].vertex;
    var marked := visited[v := true];
    assert Pending(g, start, queue[1..], visited, parents);
    PendingMark(g, start, queue[1..], visited, parents, marked, x.parents);
    assert Pending(g, start, x.entries, marked, x.parents);
    PendingAppend(g, start, queue[1..], x.entries, marked, x.parents);
  }

  /** The as-written search, run from any state satisfying SearchInv, ends with SearchOutcome. */
  lemma {:induction false} SearchOutcomeHolds(g: seq<seq<int>>, start: int, finish: int, queue: seq<Entry>, visited: seq<bool>,
                                              parents: seq<int>, rank: seq<int>, counter: int)
    requires SearchInv(g, start, finish, queue, visited, parents, rank, counter)
    ensures SearchOutcome(g, start, finish, BfsLoop(g, finish, queue, visited, parents))
    decreases Unvisited(visited), |queue|
  {
    if |queue| == 0 {
      assert SeparatingCut(g, visited, start, finish);
    } else if queue[0].vertex == finish {
      VisitTree(g, start, visited, parents, rank, counter, finish, parents);
    } else if visited[queue[0].vertex] {
      SearchSkip(g, start, finish, queue, visited, parents, rank, counter);
      SearchOutcomeHolds(g, start, finish, queue[1..], visited, parents, rank, counter);
    } else {
      var v := queue[0].vertex;
      var marked := visited[v := true];
      var x := Expand(g[v], marked, v, queue[0].flow, parents, |g|);
      SearchVisit(g, start, finish, queue, visited, parents, rank, counter);
      UnvisitedShrinks(visited, marked, v);
      SearchOutcomeHolds(g, start, finish, queue[1..] + x.entries, marked, x.parents, rank[v := counter], counter + 1);
    }
  }

  /**
   * `carry` records a bottleneck for each tree member: positive, at most
   * INT_MAX, and for every member other than `start` at most its parent's
   * and at most the residual of its tree edge.
   */
  ghost predicate Bottlenecks(g: seq<seq<int>>, parents: seq<int>, rank: seq<int>, start: int, carry: seq<int>)
    requires Square(g) && |g| == |parents| && Tree(parents, rank, start)
  {
    && |carry| == |g|
    && forall v {:trigger carry[v], parents[v]} :: 0 <= v < |g| && rank[v] >= 0 ==>
         && 0 < carry[v] <= IntMax
         && (v != start ==> carry[v] <= carry[parents[v]] && carry[v] <= g[parents[v]][v])
  }

  /** A member's recorded bottleneck is carried by every edge of its chain back to `start`. */
  lemma {:induction false} BottleneckCarried(g: seq<seq<int>>, parents: seq<int>, rank: seq<int>, start: int, carry: seq<int>, v: int)
    requires Square(g) && |g| == |parents| && Tree(parents, rank, start) && Bottlenecks(g, parents, rank, start, carry)
    requires 0 <= v < |g| && rank[v] >= 0
    ensures Carries(g, parents, rank, start, v, carry[v])
    decreases rank[v]
  {
    if v != start {
      var p := parents[v];
      BottleneckCarried(g, parents, rank, start, carry, p);
      CarriesWeaker(g, parents, rank, start, p, carry[p], carry[v]);
    }
  }

  /** Hanging `to` below the member `from` with the smaller of `from`'s bottleneck and the edge's residual keeps Bottlenecks. */
  lemma BottleneckExtend(g: seq<seq<int>>, parents: seq<int>, rank: seq<int>, start: int, carry: seq<int>,
                         from: int, to: int, counter: int)
    requires Square(g) && NonNegative(g) && |g| == |parents| && Tree(parents, rank, start) && Bottlenecks(g, parents, rank, start, carry)
    requires 0 <= from < |g| && rank[from] >= 0 && 0 <= to < |g| && rank[to] < 0 && g[from][to] != 0 && counter > rank[from]
    ensures Tree(parents[to := from], rank[to := counter], start)
    ensures Bottlenecks(g, parents[to := from], rank[to := counter], start, carry[to := Min(carry[from], g[from][to])])
  {
    var parents' := parents[to := from];
    var rank' := rank[to := counter];
    var carry' := carry[to := Min(carry[from], g[from][to])];
    TreeExtend(parents, rank, parents', rank', start);
    forall v | 0 <= v < |g| && rank'[v] >= 0
      ensures 0 < carry'[v] <= IntMax
      ensures v != start ==> carry'[v] <= carry'[parents'[v]] && carry'[v] <= g[parents'[v]][v]
    {
      if v != to && v != start {
        assert parents'[v] == parents[v] && parents[v] != to;
      }
    }
  }

  /**
   * The state of the corrected search (vertices marked when queued) at the
   * head of every turn: `start` is marked; `rank` numbers the marked vertices
   * in marking order and they form a tree rooted at `start` whose recorded
   * bottlenecks satisfy Bottlenecks; every queued vertex is marked, in range,
   * and queued with its recorded bottleneck; a marked `finish` is still
   * queued.
   */
  ghost predicate CorrectedInv(g: seq<seq<int>>, start: int, finish: int, queue: seq<Entry>, visited: seq<bool>,
                               parents: seq<int>, rank: seq<int>, counter: int, carry: seq<int>)
  {
    && Square(g) && NonNegative(g) && 0 <= start < |g| && 0 <= finish < |g|
    && |visited| == |g| && |parents| == |g|
    && visited[start] && Tree(parents, rank, start) && Ranked(visited, rank, counter)
    && Bottlenecks(g, parents, rank, start, carry)
    && (forall i :: 0 <= i < |queue| ==>
          0 <= queue[i].vertex < |g| && visited[queue[i].vertex] && queue[i].flow == carry[queue[i].vertex])
    && (visited[finish] ==> finish in Vertices(queue))
  }

  /**
   * Every non-zero edge out of a marked vertex ends at a marked vertex,
   * unless its source is still queued, or is `from` and the edge's column is
   * `k` or beyond (not yet scanned).
   */
  ghost predicate ClosedBut(g: seq<seq<int>>, queue: seq<Entry>, visited: seq<bool>, from: int, k: int)
    requires Square(g) && |visited| == |g|
  {
    forall u, w :: 0 <= u < |g| && 0 <= w < |g| && visited[u] && g[u][w] != 0 ==>
      visited[w] || u in Vertices(queue) || (u == from && w >= k)
  }

  /**
   * What the corrected search guarantees: 0 only when a cut separates `start`
   * from `finish`; otherwise a positive amount of at most INT_MAX that every
   * edge of the tree chain from `start` to `finish` can carry.
   */
  ghost predicate CorrectedOutcome(g: seq<seq<int>>, start: int, finish: int, s: Search)
    requires Square(g) && 0 <= finish < |g|
  {
    && (s.flow == 0 ==> exists cut :: SeparatingCut(g, cut, start, finish))
    && (s.flow != 0 ==>
          && 0 < s.flow <= IntMax && |s.parents| == |g|
          && exists rank :: Tree(s.parents, rank, start) && rank[finish] >= 0 && Carries(g, s.parents, rank, start, finish, s.flow))
  }

  lemma CorrectedStart(g: seq<seq<int>>, start: int, finish: int, parents0: seq<int>)
    requires Square(g) && NonNegative(g) && 0 <= start < |g| && 0 <= finish < |g| && |parents0| == |g|
    ensures var visited := seq(|g|, _ => false)[start := true];
            var rank := seq(|g|, _ => -1)[start := 0];
            && CorrectedInv(g, start, finish, [Entry(start, IntMax)], visited, parents0, rank, 1, seq(|g|, _ => IntMax))
            && ClosedBut(g, [Entry(start, IntMax)], visited, -1, 0)
  {
    assert [Entry(start, IntMax)][0].vertex == start;
  }

  /** Dequeuing a vertex other than `finish` keeps the state, with that vertex's columns still to scan. */
  lemma CorrectedPop(g: seq<seq<int>>, start: int, finish: int, queue: seq<Entry>, visited: seq<bool>,
                     parents: seq<int>, rank: seq<int>, counter: int, carry: seq<int>)
    requires CorrectedInv(g, start, finish, queue, visited, parents, rank, counter, carry) && ClosedBut(g, queue, visited, -1, 0)
    requires |queue| > 0 && queue[0].vertex != finish
    ensures CorrectedInv(g, start, finish, queue[1..], visited, parents, rank, counter, carry)
    ensures ClosedBut(g, queue[1..], visited, queue[0].vertex, 0)
  {
    if visited[finish] {
      VerticesTail(queue, finish);
    }
    forall u, w | 0 <= u < |g| && 0 <= w < |g| && visited[u] && g[u][w] != 0 && !visited[w] && u != queue[0].vertex
      ensures u in Vertices(queue[1..])
    {
      VerticesTail(queue, u);
    }
  }

  /**
   * Queuing the unmarked column `to` of `from` with the smaller of `from`'s
   * bottleneck and the residual keeps the state: the new vertex hangs below
   * `from` in the tree with that bottleneck recorded (the scan of `from`
   * moves on by ClosedEnqueue).
   */
  lemma CorrectedEnqueue(g: seq<seq<int>>, start: int, finish: int, queue: seq<Entry>, visited: seq<bool>,
                         parents: seq<int>, rank: seq<int>, counter: int, carry: seq<int>, from: int, to: int)
    requires CorrectedInv(g, start, finish, queue, visited, parents, rank, counter, carry)
    requires 0 <= from < |g| && visited[from] && 0 <= to < |g| && !visited[to] && g[from][to] != 0
    ensures var e := Entry(to, Min(carry[from], g[from][to]));
            CorrectedInv(g, start, finish, queue + [e], visited[to := true], parents[to := from], rank[to := counter],
                         counter + 1, carry[to := e.flow])
  {
    var e := Entry(to, Min(carry[from], g[from][to]));
    var q := queue + [e];
    var visited' := visited[to := true];
    var parents' := parents[to := from];
    var rank' := rank[to := counter];
    RankMark(visited, rank, counter, to);
    BottleneckExtend(g, parents, rank, start, carry, from, to, counter);
    forall i | 0 <= i < |q|
      ensures 0 <= q[i].vertex < |g| && visited'[q[i].vertex] && q[i].flow == carry[to := e.flow][q[i].vertex]
    {
      if i < |queue| {
        assert q[i] == queue[i];
      }
    }
    VerticesAppend(queue, [e]);
    assert [e][0].vertex == to;
  }

  /** Marking and queuing column `e.vertex` of `from` moves the scan of `from` one column on. */
  lemma ClosedEnqueue(g: seq<seq<int>>, queue: seq<Entry>, visited: seq<bool>, from: int, e: Entry)
    requires Square(g) && |visited| == |g| && 0 <= e.vertex < |g| && ClosedBut(g, queue, visited, from, e.vertex)
    ensures ClosedBut(g, queue + [e], visited[e.vertex := true], from, e.vertex + 1)
  {
    var to := e.vertex;
    var visited' := visited[to := true];
    VerticesAppend(queue, [e]);
    assert [e][0].vertex == to;
    forall u, w | 0 <= u < |g| && 0 <= w < |g| && visited'[u] && g[u][w] != 0 && !visited'[w] && !(u == from && w >= to + 1)
      ensures u in Vertices(queue + [e])
    {
      if u != to {
        assert u in Vertices(queue);
      }
    }
  }

  lemma CorrectedSkip(g: seq<seq<int>>, queue: seq<Entry>, visited: seq<bool>, from: int, to: int)
    requires Square(g) && |visited| == |g| && ClosedBut(g, queue, visited, from, to)
    requires 0 <= from < |g| && 0 <= to < |g| && (visited[to] || g[from][to] == 0)
    ensures ClosedBut(g, queue, visited, from, to + 1)
  {
  }

  /** The corrected search, at its head, from `finish` at the front or from an empty queue, ends with CorrectedOutcome. */
  lemma CorrectedDone(g: seq<seq<int>>, start: int, finish: int, queue: seq<Entry>, visited: seq<bool>,
                      parents: seq<int>, rank: seq<int>, counter: int, carry: seq<int>, flow: int)
    requires CorrectedInv(g, start, finish, queue, visited, parents, rank, counter, carry) && ClosedBut(g, queue, visited, -1, 0)
    requires (|queue| == 0 && flow == 0) || (|queue| > 0 && queue[0].vertex == finish && flow == queue[0].flow)
    ensures CorrectedOutcome(g, start, finish, Search(flow, parents))
  {
    if |queue| == 0 {
      assert SeparatingCut(g, visited, start, finish);
    } else {
      BottleneckCarried(g, parents, rank, start, carry, finish);
    }
  }

  /**
   * The network of four vertices with edges 0->1 (5), 0->2 (1), 1->3 (5) and
   * 2->3 (5); its maximum flow from 0 to 3 is 6.
   */
  const Diamond: seq<seq<int>> := [[0, 5, 1, 0], [0, 0, 0, 5], [0, 0, 0, 5], [0, 0, 0, 0]]

  /** One turn of the queue loop that marks and expands its front vertex. */
  lemma BfsLoopExpands(g: seq<seq<int>>, finish: int, queue: seq<Entry>, visited: seq<bool>, parents: seq<int>,
                       marked: seq<bool>, x: Expansion)
    requires Square(g) && |visited| == |g| && |parents| == |g| && 0 <= finish < |g|
    requires forall i :: 0 <= i < |queue| ==> 0 <= queue[i].vertex < |g|
    requires |queue| > 0 && queue[0].vertex != finish && !visited[queue[0].vertex]
    requires marked == visited[queue[0].vertex := true]
    requires x == Expand(g[queue[0].vertex], marked, queue[0].vertex, queue[0].flow, parents, |g|)
    ensures BfsLoop(g, finish, queue, visited, parents) == BfsLoop(g, finish, queue[1..] + x.entries, marked, x.parents)
  {
  }

  /** The rows of Diamond, and that it is square. */
  lemma DiamondRows(g: seq<seq<int>>)
    requires g == Diamond
    ensures Square(g) && |g| == 4
    ensures g[0] == [0, 5, 1, 0] && g[1] == [0, 0, 0, 5] && g[2] == [0, 0, 0, 5]
  {
  }

  /** Scanning the row of 0 with only 0 marked queues 1 (bottleneck 5) and 2 (bottleneck 1). */
  lemma ExpandSource()
    ensures Expand([0, 5, 1, 0], [true, false, false, false], 0, IntMax, [-1, -1, -1, -1], 4)
            == Expansion([Entry(1, 5), Entry(2, 1)], [-1, 0, 0, -1])
  {
    var row, marked, p := [0, 5, 1, 0], [true, false, false, false], [-1, -1, -1, -1];
    ExpandNext(row, marked, 0, IntMax, p, 0);
    ExpandNext(row, marked, 0, IntMax, p, 1);
    ExpandNext(row, marked, 0, IntMax, p, 2);
    assert Expand(row, marked, 0, IntMax, p, 3) == Expansion([Entry(1, 5), Entry(2, 1)], [-1, 0, 0, -1]);
    ExpandNext(row, marked, 0, IntMax, p, 3);
  }

  /** Scanning the row of `from` (1 or 2) with 3 unmarked queues 3 with bottleneck `flow` and parent `from`. */
  lemma ExpandToSink(marked: seq<bool>, from: int, flow: int, p: seq<int>)
    requires |marked| == 4 && |p| == 4 && !marked[3]
    ensures Expand([0, 0, 0, 5], marked, from, flow, p, 4) == Expansion([Entry(3, Min(flow, 5))], p[3 := from])
  {
    var row := [0, 0, 0, 5];
    ExpandNext(row, marked, from, flow, p, 0);
    ExpandNext(row, marked, from, flow, p, 1);
    ExpandNext(row, marked, from, flow, p, 2);
    assert Expand(row, marked, from, flow, p, 3) == Expansion([], p);
    ExpandNext(row, marked, from, flow, p, 3);
  }

  /** The first turn of the search from 0 to 3 on Diamond: 0 is expanded, queuing 1 and 2. */
  lemma DiamondTurn1(g: seq<seq<int>>)
    requires g == Diamond
    ensures BfsLoop(g, 3, [Entry(0, IntMax)], [false, false, false, false], [-1, -1, -1, -1])
            == BfsLoop(g, 3, [Entry(1, 5), Entry(2, 1)], [true, false, false, false], [-1, 0, 0, -1])
  {
    DiamondRows(g);
    ExpandSource();
    var x := Expansion([Entry(1, 5), Entry(2, 1)], [-1, 0, 0, -1]);
    BfsLoopExpands(g, 3, [Entry(0, IntMax)], [false, false, false, false], [-1, -1, -1, -1], [true, false, false, false], x);
    assert [Entry(0, IntMax)][1..] + x.entries == [Entry(1, 5), Entry(2, 1)];
  }

  /**
   * A turn that dequeues a vertex whose row holds a single edge, of
   * residual 5, into the unmarked sink 3: 3 is queued behind the rest with
   * the smaller bottleneck and gets the dequeued vertex as its parent.
   */
  lemma SinkTurn(g: seq<seq<int>>, from: int, flow: int, next: Entry, visited: seq<bool>, parents: seq<int>)
    requires Square(g) && |g| == 4 && 0 <= from < 3 && 0 <= next.vertex < 4 && g[from] == [0, 0, 0, 5]
    requires |visited| == 4 && |parents| == 4 && !visited[from] && !visited[3]
    ensures BfsLoop(g, 3, [Entry(from, flow), next], visited, parents)
            == BfsLoop(g, 3, [next, Entry(3, Min(flow, 5))], visited[from := true], parents[3 := from])
  {
    var marked := visited[from := true];
    ExpandToSink(marked, from, flow, parents);
    var x := Expansion([Entry(3, Min(flow, 5))], parents[3 := from]);
    BfsLoopExpands(g, 3, [Entry(from, flow), next], visited, parents, marked, x);
    assert [Entry(from, flow), next][1..] + x.entries == [next, Entry(3, Min(flow, 5))];
  }

  /** The second turn: 1 is expanded and queues 3 with bottleneck 5, parent 1. */
  lemma DiamondTurn2(g: seq<seq<int>>)
    requires g == Diamond
    ensures BfsLoop(g, 3, [Entry(1, 5), Entry(2, 1)], [true, false, false, false], [-1, 0, 0, -1])
            == BfsLoop(g, 3, [Entry(2, 1), Entry(3, 5)], [true, true, false, false], [-1, 0, 0, 1])
  {
    DiamondRows(g);
    SinkTurn(g, 1, 5, Entry(2, 1), [true, false, false, false], [-1, 0, 0, -1]);
    assert [true, false, false, false][1 := true] == [true, true, false, false];
    assert [-1, 0, 0, -1][3 := 1] == [-1, 0, 0, 1];
  }

  /** The third turn: 2 is expanded, queues 3 again and overwrites its parent with 2. */
  lemma DiamondTurn3(g: seq<seq<int>>)
    requires g == Diamond
    ensures BfsLoop(g, 3, [Entry(2, 1), Entry(3, 5)], [true, true, false, false], [-1, 0, 0, 1])
            == BfsLoop(g, 3, [Entry(3, 5), Entry(3, 1)], [true, true, true, false], [-1, 0, 0, 2])
  {
    DiamondRows(g);
    SinkTurn(g, 2, 1, Entry(3, 5), [true, true, false, false], [-1, 0, 0, 1]);
    assert [true, true, false, false][2 := true] == [true, true, true, false];
    assert [-1, 0, 0, 1][3 := 2] == [-1, 0, 0, 2];
  }

  /** The last turn: the first entry for 3 is dequeued, with bottleneck 5. */
  lemma DiamondTurn4(g: seq<seq<int>>)
    requires g == Diamond
    ensures BfsLoop(g, 3, [Entry(3, 5), Entry(3, 1)], [true, true, true, false], [-1, 0, 0, 2]) == Search(5, [-1, 0, 0, 2])
  {
  }

  /** The parents the search leaves, ranked by the order of marking, form a tree rooted at 0. */
  lemma DiamondTree()
    ensures Tree([-1, 0, 0, 2], [0, 1, 2, 3], 0)
  {
  }

  /** Walking the chain 3 -> 2 -> 0 with 5 units leaves the edge 0->2 at 1 - 5. */
  lemma DiamondWalk(g: seq<seq<int>>, p: seq<int>, rank: seq<int>)
    requires g == Diamond && p == [-1, 0, 0, 2] && rank == [0, 1, 2, 3] && Tree(p, rank, 0)
    ensures Walk(g, p, rank, 0, 3, 5)[0][2] == -4
  {
    var w1 := Push(g, 2, 3, 5);
    assert w1[0][2] == 1;
    var w2 := Push(w1, 0, 2, 5);
    assert w2[0][2] == -4;
    assert Walk(w1, p, rank, 0, 2, 5) == Walk(w2, p, rank, 0, 0, 5);
  }

  /**
   * The overwritten parent on Diamond: the search from 0 to 3 dequeues the
   * entry 1->3 first and returns its bottleneck 5, but vertex 2 has meanwhile
   * re-parented 3, so the chain walked is 0 -> 2 -> 3 and the edge 0->2 of
   * capacity 1 is charged 5 units, leaving residual -4.
   */
  lemma OverwrittenParentOverdraws(g: seq<seq<int>>)
    requires g == Diamond
    ensures var s := BfsLoop(g, 3, [Entry(0, IntMax)], [false, false, false, false], [-1, -1, -1, -1]);
            && s == Search(5, [-1, 0, 0, 2])
            && g[s.parents[2]][2] < s.flow
            && Tree(s.parents, [0, 1, 2, 3], 0)
            && Walk(g, s.parents, [0, 1, 2, 3], 0, 3, s.flow)[0][2] == -4
  {
    DiamondTurn1(g);
    DiamondTurn2(g);
    DiamondTurn3(g);
    DiamondTurn4(g);
    DiamondTree();
    DiamondWalk(g, [-1, 0, 0, 2], [0, 1, 2, 3]);
  }
}
