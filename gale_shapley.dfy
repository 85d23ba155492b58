/**
 * Gale-Shapley deferred acceptance (stable marriage), in the shape of
 * bipartite_matching/galey_shapley.cpp: a Graph object holding each man's
 * preference list, a rank table inverting each woman's list, and the partner
 * arrays men_pairs/women_pairs, which solve fills in place from a queue of free
 * men.
 *
 * The partner arrays use the same convention as the matching engines: -1 is
 * "unpaired", men play the left side and women the right side.
 */
module GaleShapley {
  import opened Matching

  /** A complete preference list over 0 .. n-1: each of them exactly once. */
  ghost predicate IsPermutation(list: seq<int>, n: nat) {
    && |list| == n
    && (forall i :: 0 <= i < n ==> 0 <= list[i] < n)
    && (forall i, j :: 0 <= i < j < n ==> list[i] != list[j])
    && (forall x :: 0 <= x < n ==> x in list)
  }

  /** `a` comes strictly before `b` in the list. */
  ghost predicate Prefers(list: seq<int>, a: int, b: int) {
    exists i, j :: 0 <= i < j < |list| && list[i] == a && list[j] == b
  }

  /**
   * rank inverts list: each listed entry's rank is its position (its last
   * position, should it repeat) and an unlisted entry keeps rank 0.
   */
  ghost predicate RanksOf(list: seq<int>, rank: seq<int>) {
    && (forall j :: 0 <= j < |list| && (forall k :: j < k < |list| ==> list[k] != list[j]) ==>
          0 <= list[j] < |rank| && rank[list[j]] == j)
    && (forall x :: 0 <= x < |rank| && x !in list ==> rank[x] == 0)
  }

  /**
   * The inner loop of the constructor (galey_shapley.cpp:20-24) for one
   * woman: a row of `size` zeros in which position j of her list writes rank j.
   */
  method RankRow(list: seq<int>, size: nat) returns (rank: seq<int>)
    requires forall j :: 0 <= j < |list| ==> 0 <= list[j] < size
    ensures |rank| == size
    ensures RanksOf(list, rank)
  {
    rank := seq(size, _ => 0);
    var j := 0;
    while j < |list|
      invariant 0 <= j <= |list| && |rank| == size
      invariant forall i :: 0 <= i < j && (forall k :: i < k < j ==> list[k] != list[i]) ==> rank[list[i]] == i
      invariant forall x :: 0 <= x < size && x !in list[..j] ==> rank[x] == 0
    {
      rank := rank[list[j] := j];
      j := j + 1;
    }
    assert list[..j] == list;
  }

  /** The outer loop of the constructor (galey_shapley.cpp:21-25): one rank row per woman. */
  method RankTable(womenPreferences: seq<seq<int>>, size: nat) returns (table: seq<seq<int>>)
    requires forall w, j :: 0 <= w < |womenPreferences| && 0 <= j < |womenPreferences[w]| ==>
               0 <= womenPreferences[w][j] < size
    ensures |table| == |womenPreferences|
    ensures forall w :: 0 <= w < |table| ==> |table[w]| == size && RanksOf(womenPreferences[w], table[w])
  {
    table := [];
    var i := 0;
    while i < |womenPreferences|
      invariant 0 <= i <= |womenPreferences| && |table| == i
      invariant forall w :: 0 <= w < i ==> |table[w]| == size && RanksOf(womenPreferences[w], table[w])
    {
      var row := RankRow(womenPreferences[i], size);
      TableStep(womenPreferences, table, row, size);
      table := table + [row];
      i := i + 1;
    }
  }

  /** Appending the next woman's row keeps every row of the table inverting her list. */
  lemma TableStep(womenPreferences: seq<seq<int>>, table: seq<seq<int>>, row: seq<int>, size: nat)
    requires |table| < |womenPreferences|
    requires forall w :: 0 <= w < |table| ==> |table[w]| == size && RanksOf(womenPreferences[w], table[w])
    requires |row| == size && RanksOf(womenPreferences[|table|], row)
    ensures forall w :: 0 <= w <= |table| ==>
      |(table + [row])[w]| == size && RanksOf(womenPreferences[w], (table + [row])[w])
  {
    forall w | 0 <= w <= |table|
      ensures |(table + [row])[w]| == size && RanksOf(womenPreferences[w], (table + [row])[w])
    {
      if w < |table| {
        assert (table + [row])[w] == table[w];
      } else {
        assert (table + [row])[w] == row;
      }
    }
  }

  /** The first loop of solve (galey_shapley.cpp:30-32): every man queued, in order. */
  method EveryMan(n: nat) returns (queue: seq<int>)
    ensures |queue| == n && (forall k :: 0 <= k < n ==> queue[k] == k)
    ensures forall m :: 0 <= m < n ==> m in queue
  {
    queue := [];
    var i := 0;
    while i < n
      invariant 0 <= i <= n && |queue| == i
      invariant forall k :: 0 <= k < i ==> queue[k] == k
    {
      queue := queue + [i];
      i := i + 1;
    }
    forall m | 0 <= m < n ensures m in queue {
      assert queue[m] == m;
    }
  }

  /** On a complete list, the rank order is the preference order. */
  lemma RankOrder(list: seq<int>, rank: seq<int>, n: nat)
    requires IsPermutation(list, n) && |rank| == n && RanksOf(list, rank)
    ensures forall a, b :: 0 <= a < n && 0 <= b < n ==> (Prefers(list, a, b) <==> rank[a] < rank[b])
    ensures forall a :: 0 <= a < n ==> 0 <= rank[a] < n && list[rank[a]] == a
  {
    forall a | 0 <= a < n ensures 0 <= rank[a] < n && list[rank[a]] == a {
      assert a in list;
      var i :| 0 <= i < n && list[i] == a;
      assert forall k :: i < k < n ==> list[k] != list[i];
    }
    forall a, b | 0 <= a < n && 0 <= b < n ensures Prefers(list, a, b) <==> rank[a] < rank[b] {
      if Prefers(list, a, b) {
        var i, j :| 0 <= i < j < |list| && list[i] == a && list[j] == b;
        assert list[rank[a]] == a && list[rank[b]] == b;
        assert rank[a] == i && rank[b] == j;
      }
      if rank[a] < rank[b] {
        assert list[rank[a]] == a && list[rank[b]] == b;
      }
    }
  }

  /** Every vertex of a side has a partner, so all of them are counted. */
  lemma AllMatchedCount(pairs: seq<int>)
    requires forall i :: 0 <= i < |pairs| ==> pairs[i] != -1
    ensures CountMatched(pairs) == |pairs|
  {
    assert MatchedSet(pairs) == Range(|pairs|);
    RangeSize(|pairs|);
  }

  /** The proposals still open to the men: the sum of n - next[m]. */
  function Remaining(next: seq<int>, n: int): int {
    if |next| == 0 then 0 else Remaining(next[..|next| - 1], n) + (n - next[|next| - 1])
  }

  /** Raising one man's index from next[man] to v closes exactly v - next[man] proposals. */
  lemma {:induction false} RemainingRaise(next: seq<int>, n: int, man: int, v: int)
    requires 0 <= man < |next|
    ensures Remaining(next[man := v], n) == Remaining(next, n) + next[man] - v
  {
    var last := |next| - 1;
    var next' := next[man := v];
    assert next'[..last] == if man < last then next[..last][man := v] else next[..last];
    if man < last {
      RemainingRaise(next[..last], n, man, v);
    }
  }

  lemma {:induction false} RemainingNonNegative(next: seq<int>, n: int)
    requires forall m :: 0 <= m < |next| ==> next[m] <= n
    ensures Remaining(next, n) >= 0
  {
    if |next| > 0 {
      RemainingNonNegative(next[..|next| - 1], n);
    }
  }

  class Graph {
    const n: nat
    const menPreferences: seq<seq<int>>
    /** The women's lists themselves, which the source keeps only through the rank table. */
    ghost const womenPreferences: seq<seq<int>>
    const womenRank: seq<seq<int>>
    var menPairs: seq<int>
    var womenPairs: seq<int>

    /** Sizes, and the rank table inverts each woman's list. */
    ghost predicate Shape()
      reads this
    {
      && n == |menPreferences| && |menPairs| == n
      && |womenRank| == |womenPreferences| == |womenPairs|
      && (forall w :: 0 <= w < |womenRank| ==> |womenRank[w]| == n && RanksOf(womenPreferences[w], womenRank[w]))
    }

    /** The class invariant: consistent partner arrays. */
    ghost predicate Valid()
      reads this
    {
      Shape() && Consistent(menPairs, womenPairs)
    }

    /** As many women as men, and every list names every member of the other side once. */
    ghost predicate Complete()
    {
      && |womenPreferences| == n && |menPreferences| == n
      && (forall m :: 0 <= m < n ==> IsPermutation(menPreferences[m], n))
      && (forall w :: 0 <= w < n ==> IsPermutation(womenPreferences[w], n))
    }

    /**
     * The constructor (galey_shapley.cpp:14-26): everybody unpaired and
     * women_rank[w][m] the position of man m in woman w's list.
     */
    constructor (menPreferences: seq<seq<int>>, womenPreferences: seq<seq<int>>)
      requires forall w, j :: 0 <= w < |womenPreferences| && 0 <= j < |womenPreferences[w]| ==>
                 0 <= womenPreferences[w][j] < |menPreferences|
      ensures Valid()
      ensures this.menPreferences == menPreferences && this.womenPreferences == womenPreferences
      ensures forall m :: 0 <= m < n ==> menPairs[m] == -1
      ensures forall w :: 0 <= w < |womenPairs| ==> womenPairs[w] == -1
    {
      var table := RankTable(womenPreferences, |menPreferences|);
      n := |menPreferences|;
      this.menPreferences := menPreferences;
      this.womenPreferences := womenPreferences;
      womenRank := table;
      menPairs := seq(|menPreferences|, _ => -1);
      womenPairs := seq(|womenPreferences|, _ => -1);
    }

    /** Woman w is engaged to a man she ranks no lower than m. */
    ghost predicate HeldBy(wp: seq<int>, w: int, m: int)
      requires Complete() && |womenRank| == n && (forall v :: 0 <= v < n ==> |womenRank[v]| == n)
      requires |wp| == n && (forall v :: 0 <= v < n ==> -1 <= wp[v] < n) && 0 <= w < n && 0 <= m < n
    {
      wp[w] != -1 && womenRank[w][wp[w]] <= womenRank[w][m]
    }

    /**
     * The courtship so far, with next[m] the number of women man m has
     * proposed to: an engaged man is engaged to the last of them, and every
     * woman he has proposed to is engaged to a man she ranks no lower than him.
     */
    ghost predicate Proposed(mp: seq<int>, wp: seq<int>, next: seq<int>)
      requires Complete() && |womenRank| == n && (forall v :: 0 <= v < n ==> |womenRank[v]| == n)
    {
      && |mp| == n && |wp| == n && |next| == n && InRange(mp, wp)
      && (forall m :: 0 <= m < n ==> 0 <= next[m] <= n)
      && (forall m :: 0 <= m < n && mp[m] != -1 ==> next[m] >= 1 && mp[m] == menPreferences[m][next[m] - 1])
      && (forall m, i :: 0 <= m < n && 0 <= i < next[m] ==> HeldBy(wp, menPreferences[m][i], m))
    }

    /** No man and woman both prefer each other to their partners. */
    ghost predicate Stable(mp: seq<int>, wp: seq<int>)
      requires Complete() && |mp| == n && |wp| == n
    {
      forall m, w :: 0 <= m < n && 0 <= w < n && Prefers(menPreferences[m], w, mp[m]) ==>
        Prefers(womenPreferences[w], wp[w], m)
    }

    /**
     * A free man who has proposed to every woman cannot exist: each of them
     * would be engaged, hence every man would be too. So index 40 of the
     * source stays inside the man's list.
     */
    lemma FreeManHasCandidate(mp: seq<int>, wp: seq<int>, next: seq<int>, man: int)
      requires Shape() && Complete() && Consistent(mp, wp) && Proposed(mp, wp, next)
      requires 0 <= man < n && mp[man] == -1
      ensures next[man] < n
    {
      if next[man] == n {
        forall w | 0 <= w < n ensures wp[w] != -1 {
          assert w in menPreferences[man];
          var i :| 0 <= i < n && menPreferences[man][i] == w;
          assert HeldBy(wp, menPreferences[man][i], man);
        }
        AllMatchedCount(wp);
        MatchedCountsAgree(mp, wp);
        AllMatched(mp);
      }
    }

    /**
     * The woman a man proposes to takes him when she is free or ranks him
     * above her partner; every earlier proposal stays held, since she only
     * trades up.
     */
    lemma Engage(mp: seq<int>, wp: seq<int>, next: seq<int>, man: int, mp2: seq<int>, wp2: seq<int>)
      requires Shape() && Complete() && Proposed(mp, wp, next)
      requires 0 <= man < n && next[man] < n
      requires wp[menPreferences[man][next[man]]] == -1 ||
               womenRank[menPreferences[man][next[man]]][man] <
               womenRank[menPreferences[man][next[man]]][wp[menPreferences[man][next[man]]]]
      requires |mp2| == n && InRange(mp2, wp2) && wp2 == wp[menPreferences[man][next[man]] := man]
      requires mp2[man] == menPreferences[man][next[man]]
      requires forall m :: 0 <= m < n && m != man && mp2[m] != -1 ==> mp2[m] == mp[m]
      ensures Proposed(mp2, wp2, next[man := next[man] + 1])
    {
      var next' := next[man := next[man] + 1];
      forall m | 0 <= m < n && mp2[m] != -1 ensures next'[m] >= 1 && mp2[m] == menPreferences[m][next'[m] - 1] {
        if m != man {
          assert mp2[m] == mp[m];
        }
      }
      forall m, i | 0 <= m < n && 0 <= i < next'[m] ensures HeldBy(wp2, menPreferences[m][i], m) {
        if m != man || i < next[man] {
          assert HeldBy(wp, menPreferences[m][i], m);
        }
      }
    }

    /** Proposing to a free woman: she accepts. */
    lemma AcceptFree(mp: seq<int>, wp: seq<int>, next: seq<int>, man: int)
      requires Shape() && Complete() && Consistent(mp, wp) && Proposed(mp, wp, next)
      requires 0 <= man < n && mp[man] == -1 && next[man] < n
      requires wp[menPreferences[man][next[man]]] == -1
      ensures Consistent(mp[man := menPreferences[man][next[man]]], wp[menPreferences[man][next[man]] := man])
      ensures Proposed(mp[man := menPreferences[man][next[man]]], wp[menPreferences[man][next[man]] := man],
                       next[man := next[man] + 1])
    {
      var w := menPreferences[man][next[man]];
      var mp', wp', next' := mp[man := w], wp[w := man], next[man := next[man] + 1];
      MatchFree(mp, wp, man, w);
      Engage(mp, wp, next, man, mp', wp');
    }

    /** Proposing to an engaged woman who ranks the proposer higher: she switches and her partner is freed. */
    lemma AcceptBetter(mp: seq<int>, wp: seq<int>, next: seq<int>, man: int)
      requires Shape() && Complete() && Consistent(mp, wp) && Proposed(mp, wp, next)
      requires 0 <= man < n && mp[man] == -1 && next[man] < n
      requires wp[menPreferences[man][next[man]]] != -1
      requires womenRank[menPreferences[man][next[man]]][man] <
               womenRank[menPreferences[man][next[man]]][wp[menPreferences[man][next[man]]]]
      ensures Consistent(mp[man := menPreferences[man][next[man]]][wp[menPreferences[man][next[man]]] := -1],
                         wp[menPreferences[man][next[man]] := man])
      ensures Proposed(mp[man := menPreferences[man][next[man]]][wp[menPreferences[man][next[man]]] := -1],
                       wp[menPreferences[man][next[man]] := man], next[man := next[man] + 1])
    {
      var w := menPreferences[man][next[man]];
      var current := wp[w];
      var mp', wp', next' := mp[man := w][current := -1], wp[w := man], next[man := next[man] + 1];
      MatchTaken(mp, wp, man, w);
      Engage(mp, wp, next, man, mp', wp');
    }

    /** Proposing to an engaged woman who ranks her partner no lower: nothing changes but the index. */
    lemma Reject(mp: seq<int>, wp: seq<int>, next: seq<int>, man: int)
      requires Shape() && Complete() && Consistent(mp, wp) && Proposed(mp, wp, next)
      requires 0 <= man < n && mp[man] == -1 && next[man] < n
      requires wp[menPreferences[man][next[man]]] != -1
      requires womenRank[menPreferences[man][next[man]]][wp[menPreferences[man][next[man]]]] <=
               womenRank[menPreferences[man][next[man]]][man]
      ensures Proposed(mp, wp, next[man := next[man] + 1])
    {
      var next' := next[man := next[man] + 1];
      forall m, i | 0 <= m < n && 0 <= i < next'[m] ensures HeldBy(wp, menPreferences[m][i], m) {
        if m != man || i < next[man] {
          assert HeldBy(wp, menPreferences[m][i], m);
        }
      }
    }

    /**
     * The inner `while(true)` of solve (galey_shapley.cpp:39-65): free man
     * `man` proposes down his list from next[man] until a woman accepts him.
     * A free woman always accepts; an engaged one switches only to a man she
     * ranks strictly higher, and the man she leaves is returned as
     * `displaced` (else -1). Only man's index moves, and only forward.
     */
    method Propose(man: int, next0: seq<int>) returns (next: seq<int>, displaced: int)
      requires Valid() && Complete() && Proposed(menPairs, womenPairs, next0)
      requires 0 <= man < n && menPairs[man] == -1
      modifies this`menPairs, this`womenPairs
      ensures Valid() && Proposed(menPairs, womenPairs, next)
      ensures next[man] > next0[man] && forall k :: 0 <= k < n && k != man ==> next[k] == next0[k]
      ensures menPairs[man] != -1
      ensures displaced == -1 || (0 <= displaced < n && displaced != man && old(menPairs[displaced]) != -1 && menPairs[displaced] == -1)
      ensures forall k :: 0 <= k < n && k != man && k != displaced ==> menPairs[k] == old(menPairs[k])
      ensures forall w :: 0 <= w < n && old(womenPairs[w]) != -1 ==>
                womenPairs[w] != -1 && womenRank[w][womenPairs[w]] <= womenRank[w][old(womenPairs[w])]
    {
      next := next0;
      while true
        invariant Proposed(menPairs, womenPairs, next) && menPairs == old(menPairs) && womenPairs == old(womenPairs)
        invariant next[man] >= next0[man] && forall k :: 0 <= k < n && k != man ==> next[k] == next0[k]
        decreases n - next[man]
      {
        FreeManHasCandidate(menPairs, womenPairs, next, man);
        var woman := menPreferences[man][next[man]];
        var current := womenPairs[woman];
        if current == -1 || womenRank[woman][man] < womenRank[woman][current] {
          next, displaced := Accept(man, next);
          return;
        }
        Reject(menPairs, womenPairs, next, man);
        next := next[man := next[man] + 1];
      }
    }

    /**
     * The accepting turn of solve's inner loop (galey_shapley.cpp:42-58):
     * the woman man proposes to is free, or ranks him above her partner, who
     * is then freed and returned as `displaced` (else -1).
     */
    method Accept(man: int, next0: seq<int>) returns (next: seq<int>, displaced: int)
      requires Valid() && Complete() && Proposed(menPairs, womenPairs, next0)
      requires 0 <= man < n && menPairs[man] == -1 && next0[man] < n
      requires var w := menPreferences[man][next0[man]];
        womenPairs[w] == -1 || womenRank[w][man] < womenRank[w][womenPairs[w]]
      modifies this`menPairs, this`womenPairs
      ensures Valid() && Proposed(menPairs, womenPairs, next)
      ensures next == next0[man := next0[man] + 1]
      ensures menPairs[man] == menPreferences[man][next0[man]]
      ensures displaced == -1 || (0 <= displaced < n && displaced != man && old(menPairs[displaced]) != -1 && menPairs[displaced] == -1)
      ensures forall k :: 0 <= k < n && k != man && k != displaced ==> menPairs[k] == old(menPairs[k])
      ensures forall w :: 0 <= w < n && old(womenPairs[w]) != -1 ==>
                womenPairs[w] != -1 && womenRank[w][womenPairs[w]] <= womenRank[w][old(womenPairs[w])]
    {
      var woman := menPreferences[man][next0[man]];
      var current := womenPairs[woman];
      next := next0[man := next0[man] + 1];
      if current == -1 {
        AcceptFree(menPairs, womenPairs, next0, man);
        menPairs := menPairs[man := woman];
        womenPairs := womenPairs[woman := man];
        displaced := -1;
      } else {
        AcceptBetter(menPairs, womenPairs, next0, man);
        menPairs := menPairs[man := woman][current := -1];
        womenPairs := womenPairs[woman := man];
        displaced := current;
      }
    }

    /** Every free man is queued exactly once, and only free men are queued. */
    ghost predicate FreeQueue(mp: seq<int>, queue: seq<int>)
      requires |mp| == n
    {
      && (forall k :: 0 <= k < |queue| ==> 0 <= queue[k] < n && mp[queue[k]] == -1)
      && (forall a, b :: 0 <= a < b < |queue| ==> queue[a] != queue[b])
      && (forall m :: 0 <= m < n && mp[m] == -1 ==> m in queue)
    }

    /** One round of solve's outer loop keeps exactly the free men queued. */
    lemma QueueStep(mp0: seq<int>, mp: seq<int>, queue: seq<int>, displaced: int)
      requires |mp0| == n && |mp| == n && FreeQueue(mp0, queue) && |queue| > 0 && mp[queue[0]] != -1
      requires displaced == -1 || (0 <= displaced < n && displaced != queue[0] && mp0[displaced] != -1 && mp[displaced] == -1)
      requires forall k :: 0 <= k < n && k != queue[0] && k != displaced ==> mp[k] == mp0[k]
      ensures FreeQueue(mp, if displaced == -1 then queue[1..] else queue[1..] + [displaced])
    {
      var q := if displaced == -1 then queue[1..] else queue[1..] + [displaced];
      forall m | 0 <= m < n && mp[m] == -1 ensures m in q {
        if m != displaced {
          assert m in queue;
          var k :| 0 <= k < |queue| && queue[k] == m;
          assert q[k - 1] == m;
        } else {
          assert q[|q| - 1] == m;
        }
      }
    }

    /** When every man is engaged, the courtship facts make the matching stable. */
    lemma StableAtEnd(mp: seq<int>, wp: seq<int>, next: seq<int>)
      requires Shape() && Complete() && Consistent(mp, wp) && Proposed(mp, wp, next)
      requires forall m :: 0 <= m < n ==> mp[m] != -1
      ensures Stable(mp, wp)
    {
      forall m, w | 0 <= m < n && 0 <= w < n && Prefers(menPreferences[m], w, mp[m])
        ensures Prefers(womenPreferences[w], wp[w], m)
      {
        var list := menPreferences[m];
        var i, j :| 0 <= i < j < |list| && list[i] == w && list[j] == mp[m];
        assert j == next[m] - 1;
        assert HeldBy(wp, list[i], m);
        var partner := wp[w];
        assert partner != m;
        RankOrder(womenPreferences[w], womenRank[w], n);
        assert womenRank[w][partner] != womenRank[w][m];
      }
    }

    /**
     * solve (galey_shapley.cpp:28-67): every man starts free and queued with
     * index 0; each dequeued man proposes until accepted, and a displaced man
     * is queued again. On complete lists over equally many men and women it
     * ends with everyone engaged and no blocking pair.
     */
    method Solve()
      requires Valid() && Complete()
      requires forall m :: 0 <= m < n ==> menPairs[m] == -1
      requires forall w :: 0 <= w < n ==> womenPairs[w] == -1
      modifies this`menPairs, this`womenPairs
      ensures Valid()
      ensures forall m :: 0 <= m < n ==> menPairs[m] != -1
      ensures forall w :: 0 <= w < n ==> womenPairs[w] != -1
      ensures Stable(menPairs, womenPairs)
    {
      var queue := EveryMan(n);
      var next := seq(n, _ => 0);
      while queue != []
        invariant Valid() && Proposed(menPairs, womenPairs, next) && FreeQueue(menPairs, queue)
        decreases Remaining(next, n)
      {
        var man := queue[0];
        ghost var queue0, old0 := queue, menPairs;
        queue := queue[1..];
        ghost var next0 := next;
        var displaced;
        next, displaced := Propose(man, next);
        assert next == next0[man := next[man]];
        RemainingRaise(next0, n, man, next[man]);
        RemainingNonNegative(next0, n);
        QueueStep(old0, menPairs, queue0, displaced);
        if displaced != -1 {
          queue := queue + [displaced];
        }
      }
      StableAtEnd(menPairs, womenPairs, next);
      AllMatchedCount(menPairs);
      MatchedCountsAgree(menPairs, womenPairs);
      AllMatched(womenPairs);
    }
  }
}
