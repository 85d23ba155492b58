/**
 * Partner arrays shared by the three bipartite matching engines.
 *
 * A matching between a left side of size n and a right side of size m is kept
 * as two integer arrays: `pairL[i]` is the right partner of left vertex i and
 * `pairR[j]` the left partner of right vertex j, with -1 meaning "unmatched".
 */
module Matching {

  /** Every entry is -1 or an index on the other side. */
  ghost predicate InRange(pairL: seq<int>, pairR: seq<int>) {
    && (forall i :: 0 <= i < |pairL| ==> -1 <= pairL[i] < |pairR|)
    && (forall j :: 0 <= j < |pairR| ==> -1 <= pairR[j] < |pairL|)
  }

  /** Every matched left vertex is named back by its right partner. */
  ghost predicate LeftToRight(pairL: seq<int>, pairR: seq<int>) {
    forall i :: 0 <= i < |pairL| && pairL[i] != -1 ==>
      0 <= pairL[i] < |pairR| && pairR[pairL[i]] == i
  }

  /** Every matched right vertex, except possibly `skip`, is named back by its left partner. */
  ghost predicate RightToLeftExcept(pairL: seq<int>, pairR: seq<int>, skip: int) {
    forall j :: 0 <= j < |pairR| && j != skip && pairR[j] != -1 ==>
      0 <= pairR[j] < |pairL| && pairL[pairR[j]] == j
  }

  /** pairL[i] == j <==> pairR[j] == i for all matched vertices. */
  ghost predicate Consistent(pairL: seq<int>, pairR: seq<int>) {
    InRange(pairL, pairR) && LeftToRight(pairL, pairR) && RightToLeftExcept(pairL, pairR, -1)
  }

  /** The vertices of one side that have a partner. */
  function MatchedSet(pairs: seq<int>): set<int> {
    set i | 0 <= i < |pairs| && pairs[i] != -1
  }

  function CountMatched(pairs: seq<int>): nat {
    |MatchedSet(pairs)|
  }

  /** The integers 0 .. n-1 as a set. */
  function Range(n: nat): (r: set<int>)
    ensures forall i :: i in r <==> 0 <= i < n
  {
    if n == 0 then {} else Range(n - 1) + {n - 1}
  }

  lemma {:induction false} RangeSize(n: nat)
    ensures |Range(n)| == n
  {
    if n > 0 {
      RangeSize(n - 1);
    }
  }

  lemma SubsetSize<T>(a: set<T>, b: set<T>)
    requires a <= b
    ensures |a| <= |b|
  {
    assert b == a + (b - a);
  }

  lemma ProperSubsetSize<T>(a: set<T>, b: set<T>, x: T)
    requires a <= b && x in b && x !in a
    ensures |a| < |b|
  {
    assert b == a + (b - a);
    assert x in b - a;
  }

  /** At most every vertex of a side is matched. */
  lemma CountMatchedBound(pairs: seq<int>)
    ensures CountMatched(pairs) <= |pairs|
  {
    RangeSize(|pairs|);
    SubsetSize(MatchedSet(pairs), Range(|pairs|));
  }

  /** Giving a partner to exactly one more vertex adds one to the count. */
  lemma CountAfterMatching(before: seq<int>, after: seq<int>, k: int)
    requires |before| == |after| && 0 <= k < |before| && before[k] == -1
    requires forall i :: 0 <= i < |after| ==> (after[i] != -1 <==> before[i] != -1 || i == k)
    ensures CountMatched(after) == CountMatched(before) + 1
  {
    assert MatchedSet(after) == MatchedSet(before) + {k};
  }

  /** The image of a set of indices under a sequence. */
  function Image(s: set<int>, f: seq<int>): set<int>
    requires forall x :: x in s ==> 0 <= x < |f|
  {
    set x | x in s :: f[x]
  }

  /** The image of a set under a function that is injective on it has the same size. */
  lemma InjectiveImageSize(s: set<int>, f: seq<int>)
    requires forall x :: x in s ==> 0 <= x < |f|
    requires forall x, y :: x in s && y in s && f[x] == f[y] ==> x == y
    ensures |Image(s, f)| == |s|
  {
    InjectiveImageSizeBelow(s, f, |f|);
  }

  /** InjectiveImageSize, by induction on a bound for the elements of s. */
  lemma {:induction false} InjectiveImageSizeBelow(s: set<int>, f: seq<int>, n: nat)
    requires n <= |f|
    requires forall x :: x in s ==> 0 <= x < n
    requires forall x, y :: x in s && y in s && f[x] == f[y] ==> x == y
    ensures |Image(s, f)| == |s|
  {
    if n == 0 {
      forall x | x in s ensures false { }
      assert s == {};
    } else if n - 1 in s {
      var rest := s - {n - 1};
      InjectiveImageSizeBelow(rest, f, n - 1);
      ImageAddOne(rest, f, n - 1);
      assert rest + {n - 1} == s;
    } else {
      InjectiveImageSizeBelow(s, f, n - 1);
    }
  }

  /** Adding an index whose value is new to the image grows the image by one element. */
  lemma ImageAddOne(s: set<int>, f: seq<int>, k: int)
    requires forall x :: x in s ==> 0 <= x < |f|
    requires 0 <= k < |f| && k !in s
    requires forall x :: x in s ==> f[x] != f[k]
    ensures |Image(s + {k}, f)| == |Image(s, f)| + 1
  {
    assert Image(s + {k}, f) == Image(s, f) + {f[k]};
  }

  /** Both sides of a consistent matching have the same number of matched vertices. */
  lemma MatchedCountsAgree(pairL: seq<int>, pairR: seq<int>)
    requires Consistent(pairL, pairR)
    ensures CountMatched(pairL) == CountMatched(pairR)
  {
    var left := MatchedSet(pairL);
    InjectiveImageSize(left, pairL);
    assert Image(left, pairL) == MatchedSet(pairR) by {
      forall j | j in MatchedSet(pairR) ensures j in Image(left, pairL) {
        assert pairR[j] in left && pairL[pairR[j]] == j;
      }
    }
  }

  /** In a consistent matching, fewer vertices are matched than either side holds. */
  lemma MatchedBoundBothSides(pairL: seq<int>, pairR: seq<int>)
    requires Consistent(pairL, pairR)
    ensures CountMatched(pairL) <= |pairL| && CountMatched(pairL) <= |pairR|
  {
    MatchedCountsAgree(pairL, pairR);
    CountMatchedBound(pairL);
    CountMatchedBound(pairR);
  }

  /** If every vertex is counted as matched, each one has a partner. */
  lemma AllMatched(pairs: seq<int>)
    requires CountMatched(pairs) == |pairs|
    ensures forall i :: 0 <= i < |pairs| ==> pairs[i] != -1
  {
    forall i | 0 <= i < |pairs| ensures pairs[i] != -1 {
      if pairs[i] == -1 {
        RangeSize(|pairs|);
        ProperSubsetSize(MatchedSet(pairs), Range(|pairs|), i);
      }
    }
  }

  /** The number of vertices not yet marked in a visitation array. */
  function UnvisitedSet(visited: seq<bool>): set<int> {
    set i | 0 <= i < |visited| && !visited[i]
  }

  function Unvisited(visited: seq<bool>): nat {
    |UnvisitedSet(visited)|
  }

  /** Marking more vertices (and at least one new one) lowers the unvisited count. */
  lemma UnvisitedShrinks(before: seq<bool>, after: seq<bool>, k: int)
    requires |before| == |after| && 0 <= k < |before| && !before[k] && after[k]
    requires forall i :: 0 <= i < |before| && before[i] ==> after[i]
    ensures Unvisited(after) < Unvisited(before)
  {
    ProperSubsetSize(UnvisitedSet(after), UnvisitedSet(before), k);
  }

  /** Marking more vertices never raises the unvisited count. */
  lemma UnvisitedMonotone(before: seq<bool>, after: seq<bool>)
    requires |before| == |after|
    requires forall i :: 0 <= i < |before| && before[i] ==> after[i]
    ensures Unvisited(after) <= Unvisited(before)
  {
    SubsetSize(UnvisitedSet(after), UnvisitedSet(before));
  }

  /**
   * What a successful dfs from `from` leaves behind in the partner arrays,
   * relative to pL0/pR0 it started from: the pairs are consistent except that
   * the right vertex `from` gave up (if any) still names `from`; `from` has a
   * new partner; exactly `from` joined the matched left vertices; every other
   * changed left vertex lies deeper in the levels than `from`; and vertices
   * marked visited before the call kept their pairs.
   */
  ghost predicate PairsAugmented(pL0: seq<int>, pR0: seq<int>, pL: seq<int>, pR: seq<int>, from: int,
                                 levels: seq<int>, visited0: seq<bool>)
    requires |pL0| == |pL| == |levels| == |visited0| && |pR0| == |pR| && InRange(pL0, pR0) && 0 <= from < |pL0|
  {
    && InRange(pL, pR) && LeftToRight(pL, pR) && RightToLeftExcept(pL, pR, pL0[from])
    && (pL0[from] != -1 ==> pR[pL0[from]] == from)
    && pL[from] != -1 && pL[from] != pL0[from]
    && (forall i :: 0 <= i < |pL| ==> (pL[i] != -1 <==> pL0[i] != -1 || i == from))
    && (forall i :: 0 <= i < |pL| && pL[i] != pL0[i] && i != from ==> levels[i] > levels[from])
    && (forall i :: 0 <= i < |pL| && visited0[i] ==> pL[i] == pL0[i])
    && (forall j :: 0 <= j < |pR| && pR0[j] != -1 && visited0[pR0[j]] ==> pR[j] == pR0[j])
  }

  /** dfs's commit when `to` is free: `from` takes `to`. */
  lemma CommitFree(pL: seq<int>, pR: seq<int>, from: int, to: int, levels: seq<int>, visited0: seq<bool>)
    requires Consistent(pL, pR) && |pL| == |levels| == |visited0|
    requires 0 <= from < |pL| && 0 <= to < |pR| && pR[to] == -1 && !visited0[from]
    ensures PairsAugmented(pL, pR, pL[from := to], pR[to := from], from, levels, visited0)
  {
  }

  /**
   * dfs's commit after the recursive search from `to`'s partner succeeded:
   * `from` takes `to`, which completes the rematching of the path.
   */
  lemma CommitChain(pL0: seq<int>, pR0: seq<int>, pL1: seq<int>, pR1: seq<int>, from: int, to: int,
                    levels: seq<int>, visited0: seq<bool>, visited1: seq<bool>)
    requires Consistent(pL0, pR0) && |pL0| == |pL1| == |levels| == |visited0| == |visited1| && |pR0| == |pR1|
    requires 0 <= from < |pL0| && 0 <= to < |pR0| && pR0[to] != -1 && levels[pR0[to]] == levels[from] + 1
    requires !visited0[from] && visited1[from] && !visited1[pR0[to]]
    requires forall i :: 0 <= i < |visited0| && visited0[i] ==> visited1[i]
    requires PairsAugmented(pL0, pR0, pL1, pR1, pR0[to], levels, visited1)
    ensures PairsAugmented(pL0, pR0, pL1[from := to], pR1[to := from], from, levels, visited0)
  {
    var p := pR0[to];
    assert pL0[p] == to;
    assert pL1[from] == pL0[from];
  }

  /** Pairing a free left vertex with a free right vertex keeps the arrays consistent. */
  lemma MatchFree(pairL: seq<int>, pairR: seq<int>, i: int, j: int)
    requires Consistent(pairL, pairR) && 0 <= i < |pairL| && 0 <= j < |pairR| && pairL[i] == -1 && pairR[j] == -1
    ensures Consistent(pairL[i := j], pairR[j := i])
  {
  }

  /**
   * Pairing a free left vertex with a matched right vertex, whose old partner
   * becomes free, keeps the arrays consistent.
   */
  lemma MatchTaken(pairL: seq<int>, pairR: seq<int>, i: int, j: int)
    requires Consistent(pairL, pairR) && 0 <= i < |pairL| && 0 <= j < |pairR| && pairL[i] == -1 && pairR[j] != -1
    ensures Consistent(pairL[i := j][pairR[j] := -1], pairR[j := i])
  {
    assert pairL[pairR[j]] == j;
  }
}
