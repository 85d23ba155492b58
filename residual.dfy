/**
 * The residual matrix shared by the two max-flow engines: `r[u][v]` is the
 * capacity still available from u to v. Sending flow along an edge lowers the
 * forward entry and raises the backward one by the same amount, so every
 * `r[u][v] + r[v][u]` is invariant and, row by row, the sums record how much
 * net flow has left each vertex.
 */
module Residual {
  import opened Sums

  /** std::numeric_limits<int>::max(), the "no bottleneck yet" sentinel. */
  const IntMax: int := 0x7fff_ffff

  function Min(a: int, b: int): int { if a <= b then a else b }

  /** An N x N matrix. */
  ghost predicate Square(r: seq<seq<int>>) {
    forall u :: 0 <= u < |r| ==> |r[u]| == |r|
  }

  /** Every entry is zero or more. */
  ghost predicate NonNegative(r: seq<seq<int>>)
    requires Square(r)
  {
    forall u, v :: 0 <= u < |r| && 0 <= v < |r| ==> r[u][v] >= 0
  }

  /**
   * Sending f units over the edge a -> b, as the two statements of an
   * augmentation do: the forward residual drops by f, then the backward one
   * rises by f. Every pair sum r[u][v] + r[v][u] is unchanged.
   */
  function Push(r: seq<seq<int>>, a: int, b: int, f: int): (r': seq<seq<int>>)
    requires Square(r) && 0 <= a < |r| && 0 <= b < |r|
    ensures Square(r') && |r'| == |r|
    ensures forall u, v :: 0 <= u < |r| && 0 <= v < |r| ==>
              r'[u][v] == r[u][v] - (if u == a && v == b then f else 0) + (if u == b && v == a then f else 0)
    ensures forall u, v :: 0 <= u < |r| && 0 <= v < |r| ==> r'[u][v] + r'[v][u] == r[u][v] + r[v][u]
  {
    var r1 := r[a := r[a][b := r[a][b] - f]];
    r1[b := r1[b][a := r1[b][a] + f]]
  }

  /** After sending f from a to b, a's row sum is f lower, b's is f higher, and every other row sum is unchanged. */
  lemma PushRows(r: seq<seq<int>>, a: int, b: int, f: int)
    requires Square(r) && 0 <= a < |r| && 0 <= b < |r|
    ensures forall u :: 0 <= u < |r| ==>
              Sum(Push(r, a, b, f)[u]) == Sum(r[u]) - (if u == a then f else 0) + (if u == b then f else 0)
  {
    var r1 := r[a := r[a][b := r[a][b] - f]];
    SumUpdate(r[a], b, r[a][b] - f);
    SumUpdate(r1[b], a, r1[b][a] + f);
    if a == b {
      assert r[a][b := r[a][b] - f][a := r[a][b] - f + f] == r[a];
    }
  }

  /**
   * A set of vertices holding `s` and not `t` that no edge with a non-zero
   * residual leaves: the certificate that no augmenting path remains.
   */
  ghost predicate SeparatingCut(r: seq<seq<int>>, cut: seq<bool>, s: int, t: int)
    requires Square(r)
  {
    && |cut| == |r| && 0 <= s < |r| && 0 <= t < |r| && cut[s] && !cut[t]
    && forall u, v :: 0 <= u < |r| && 0 <= v < |r| && cut[u] && r[u][v] != 0 ==> cut[v]
  }

  /**
   * g is g0 after sending f units from `from` to `finish` through the network:
   * the same shape, `from`'s row sum f lower, `finish`'s f higher, every other
   * row sum and every pair sum r[u][v] + r[v][u] kept.
   */
  ghost predicate Conserves(g0: seq<seq<int>>, g: seq<seq<int>>, from: int, finish: int, f: int) {
    && Square(g0) && Square(g) && |g| == |g0|
    && (forall u :: 0 <= u < |g| ==>
          Sum(g[u]) == Sum(g0[u]) - (if u == from then f else 0) + (if u == finish then f else 0))
    && (forall u, v :: 0 <= u < |g| && 0 <= v < |g| ==> g[u][v] + g[v][u] == g0[u][v] + g0[v][u])
  }

  /** No entry in the row or the column of a marked vertex differs between g0 and g. */
  ghost predicate Untouched(g0: seq<seq<int>>, g: seq<seq<int>>, marked: seq<bool>)
    requires Square(g0) && Square(g) && |g| == |g0| == |marked|
  {
    && (forall u, v :: 0 <= u < |g| && 0 <= v < |g| && marked[u] ==> g[u][v] == g0[u][v])
    && (forall u, v :: 0 <= u < |g| && 0 <= v < |g| && marked[v] ==> g[u][v] == g0[u][v])
  }

  /**
   * One level of a recursive augmentation: the search below `to` sent f on to
   * `finish` without touching anything marked at the time of the call (which
   * includes `from`), and f did not exceed the residual from -> to; sending
   * f over that edge extends the transfer to start at `from`, keeps every
   * entry non-negative, and touches nothing marked before `from` was.
   */
  lemma ExtendTransfer(g0: seq<seq<int>>, mid: seq<seq<int>>, from: int, to: int, finish: int, f: int,
                       marked0: seq<bool>, markedCall: seq<bool>)
    requires Conserves(g0, mid, to, finish, f) && |marked0| == |markedCall| == |g0|
    requires 0 <= from < |g0| && 0 <= to < |g0| && markedCall[from] && !marked0[from] && !marked0[to]
    requires forall i :: 0 <= i < |g0| && marked0[i] ==> markedCall[i]
    requires Untouched(g0, mid, markedCall) && NonNegative(mid) && 0 <= f <= g0[from][to]
    ensures Conserves(g0, Push(mid, from, to, f), from, finish, f)
    ensures Untouched(g0, Push(mid, from, to, f), marked0)
    ensures NonNegative(Push(mid, from, to, f))
  {
    PushRows(mid, from, to, f);
    var r := Push(mid, from, to, f);
    forall u, v | 0 <= u < |r| && 0 <= v < |r|
      ensures r[u][v] >= 0
      ensures (marked0[u] || marked0[v]) ==> r[u][v] == g0[u][v]
    {
      if (u == from && v == to) || (u == to && v == from) {
        assert mid[from][to] == g0[from][to];
      } else {
        assert r[u][v] == mid[u][v];
        if marked0[u] || marked0[v] {
          assert markedCall[u] || markedCall[v];
        }
      }
    }
  }

  /** Two transfers between the same pair of vertices add up. */
  lemma ConservesTrans(g0: seq<seq<int>>, g1: seq<seq<int>>, g2: seq<seq<int>>, from: int, finish: int, f1: int, f2: int)
    requires Conserves(g0, g1, from, finish, f1) && Conserves(g1, g2, from, finish, f2)
    ensures Conserves(g0, g2, from, finish, f1 + f2)
  {
  }
}
