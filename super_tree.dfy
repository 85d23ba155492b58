/**
 * The depth-first spanning-tree builder of super_tree.cpp: starting from a
 * root letter, create_subtree walks the fixed adjacency lists, marks each
 * vertex in the global isVisited array the moment it is entered and hangs a
 * child under a node for every neighbour still unvisited when the loop
 * reaches it. The graph is a parameter here (the source's eleven-vertex
 * graph is Graph); isVisited is the array the caller passes in.
 */
module SuperTree {

  datatype Option<T> = None | Some(value: T)

  /** A node of the built tree: its vertex letter and its children (`leaves`) in the order they were appended. */
  datatype Tree = Node(name: char, leaves: seq<Tree>)

  /** SIZE: the number of vertices of the source's graph. */
  const SIZE: nat := 11

  /** The adjacency lists of the source's graph, vertex 'A' first. */
  const Graph: seq<seq<char>> := [
    ['B', 'D', 'G'], ['A', 'C'], ['B'], ['A', 'E', 'F'], ['D'], ['D'],
    ['A', 'H', 'J', 'K'], ['G', 'I'], ['H'], ['G'], ['G']]

  /** index: a vertex letter's position in the alphabet, 'A' being 0. */
  function Index(c: char): int {
    c as int - 'A' as int
  }

  /** The letter at a given position, the inverse of Index. */
  function Letter(i: nat): (c: char)
    requires i < 26
  {
    (i + 'A' as int) as char
  }

  /** Index and Letter undo each other, so 'A'..'K' are exactly the indices 0..10 of the graph. */
  lemma IndexLetter(i: nat, c: char)
    requires i < 26 && 'A' <= c <= 'Z'
    ensures Index(Letter(i)) == i && Letter(Index(c) as nat) == c
    ensures 0 <= Index(c) < SIZE <==> 'A' <= c <= 'K'
  {
  }

  /** Every neighbour a list names is a vertex of the graph. */
  ghost predicate WellFormed(g: seq<seq<char>>) {
    forall i, k :: 0 <= i < |g| && 0 <= k < |g[i]| ==> 0 <= Index(g[i][k]) < |g|
  }

  lemma GraphWellFormed()
    ensures |Graph| == SIZE && WellFormed(Graph)
  {
  }

  /** The indices of the neighbours of vertex i. */
  ghost function Succ(g: seq<seq<char>>, i: int): set<int>
    requires 0 <= i < |g|
  {
    set k | 0 <= k < |g[i]| :: Index(g[i][k])
  }

  /** The vertices a visited array marks. */
  ghost function Marked(v: seq<bool>): set<int> {
    set i | 0 <= i < |v| && v[i]
  }

  /** The number of vertices a visited array leaves unmarked. */
  function Unvisited(v: seq<bool>): nat {
    if |v| == 0 then 0 else Unvisited(v[..|v| - 1]) + (if v[|v| - 1] then 0 else 1)
  }

  /** Marking more vertices never increases the unvisited count, and marking a new one decreases it. */
  lemma {:induction false} UnvisitedShrinks(v: seq<bool>, w: seq<bool>, i: int)
    requires |v| == |w| && Marked(v) <= Marked(w)
    ensures Unvisited(w) <= Unvisited(v)
    ensures 0 <= i < |v| && !v[i] && w[i] ==> Unvisited(w) < Unvisited(v)
  {
    if |v| > 0 {
      var n := |v| - 1;
      assert Marked(v[..n]) <= Marked(w[..n]) by {
        forall j | j in Marked(v[..n]) ensures j in Marked(w[..n]) {
          assert j in Marked(v);
        }
      }
      if n in Marked(v) {
        assert n in Marked(w);
      }
      UnvisitedShrinks(v[..n], w[..n], i);
    }
  }

  lemma MarkedAt(v: seq<bool>, i: int)
    requires 0 <= i < |v| && v[i]
    ensures i in Marked(v)
  {
  }

  /** Setting one mark adds exactly that vertex. */
  lemma MarkOne(v: seq<bool>, w: seq<bool>, i: int)
    requires 0 <= i < |v| && w == v[i := true]
    ensures Marked(w) == Marked(v) + {i}
  {
  }

  /** The vertex letters of a tree in preorder. */
  function Preorder(t: Tree): seq<char>
    decreases t, 1
  {
    [t.name] + Forest(t.leaves)
  }

  /** The preorders of a sequence of trees, one after another. */
  function Forest(ts: seq<Tree>): seq<char>
    decreases ts, 0
  {
    if ts == [] then [] else Forest(ts[..|ts| - 1]) + Preorder(ts[|ts| - 1])
  }

  /** The vertex indices a sequence of letters names. */
  ghost function Indices(s: seq<char>): set<int> {
    set k | 0 <= k < |s| :: Index(s[k])
  }

  lemma IndicesConcat(a: seq<char>, b: seq<char>)
    ensures Indices(a + b) == Indices(a) + Indices(b)
  {
    forall x | x in Indices(a + b) ensures x in Indices(a) + Indices(b) {
      var k :| 0 <= k < |a + b| && x == Index((a + b)[k]);
      if k < |a| {
        assert x == Index(a[k]);
      } else {
        assert x == Index(b[k - |a|]);
      }
    }
    forall x | x in Indices(a) + Indices(b) ensures x in Indices(a + b) {
      if x in Indices(a) {
        var k :| 0 <= k < |a| && x == Index(a[k]);
        assert (a + b)[k] == a[k];
      } else {
        var k :| 0 <= k < |b| && x == Index(b[k]);
        assert (a + b)[|a| + k] == b[k];
      }
    }
  }

  /** No letter occurs twice. */
  ghost predicate Distinct(s: seq<char>) {
    forall i, j :: 0 <= i < j < |s| ==> s[i] != s[j]
  }

  lemma DistinctConcat(a: seq<char>, b: seq<char>)
    requires Distinct(a) && Distinct(b) && Indices(a) !! Indices(b)
    ensures Distinct(a + b)
  {
    forall i, j | 0 <= i < j < |a + b| ensures (a + b)[i] != (a + b)[j] {
      if i < |a| && j >= |a| {
        assert Index(a[i]) in Indices(a) && Index(b[j - |a|]) in Indices(b);
      }
    }
  }

  /** Every child of every node is a neighbour of that node in g. */
  ghost predicate InGraph(g: seq<seq<char>>, t: Tree)
    decreases t
  {
    0 <= Index(t.name) < |g| &&
    forall c :: c in t.leaves ==> c.name in g[Index(t.name)] && InGraph(g, c)
  }

  /**
   * The facts create_subtree leaves about a tree it built, with v0 the
   * visited marks before the call and v1 those after: its vertices are the
   * ones the call marked, none twice, every child is a neighbour of its
   * parent, and every neighbour of a vertex in it is marked by now.
   */
  ghost predicate Built(g: seq<seq<char>>, t: Tree, v0: seq<bool>, v1: seq<bool>) {
    var p := Preorder(t);
    Distinct(p) && InGraph(g, t) &&
    Indices(p) !! Marked(v0) && Marked(v1) == Marked(v0) + Indices(p) &&
    forall i :: i in Indices(p) && 0 <= i < |g| ==> Succ(g, i) <= Marked(v1)
  }

  /**
   * The state of create_subtree's loop over the neighbours of vertex idx,
   * with v0 the marks before the call, kids the children built so far,
   * done the neighbours looked at so far and v the marks now.
   */
  ghost predicate Scan(g: seq<seq<char>>, v0: seq<bool>, idx: int, kids: seq<Tree>, done: seq<char>, v: seq<bool>)
    requires 0 <= idx < |g|
  {
    var p := Forest(kids);
    idx !in Marked(v0) && Indices(p) !! Marked(v0) + {idx} &&
    Marked(v) == Marked(v0) + {idx} + Indices(p) &&
    Distinct(p) && (forall c :: c in kids ==> c.name in g[idx] && InGraph(g, c)) &&
    (forall i :: i in Indices(p) && 0 <= i < |g| ==> Succ(g, i) <= Marked(v)) &&
    Indices(done) <= Marked(v)
  }

  lemma IndicesSingleton(c: char)
    ensures Indices([c]) == {Index(c)}
  {
    assert Index([c][0]) in Indices([c]);
  }

  /** Marking idx starts the loop. */
  lemma ScanStart(g: seq<seq<char>>, v0: seq<bool>, idx: int, v: seq<bool>)
    requires 0 <= idx < |g| && idx !in Marked(v0) && Marked(v) == Marked(v0) + {idx}
    ensures Scan(g, v0, idx, [], [], v)
  {
    assert Forest([]) == [];
  }

  /** A neighbour already marked is passed over. */
  lemma ScanSkip(g: seq<seq<char>>, v0: seq<bool>, idx: int, kids: seq<Tree>, done: seq<char>, a: char, v: seq<bool>)
    requires 0 <= idx < |g| && Scan(g, v0, idx, kids, done, v) && Index(a) in Marked(v)
    ensures Scan(g, v0, idx, kids, done + [a], v)
  {
    IndicesConcat(done, [a]);
    IndicesSingleton(a);
  }

  /** A neighbour create_subtree built a tree for becomes the next child. */
  lemma ScanChild(g: seq<seq<char>>, v0: seq<bool>, idx: int, kids: seq<Tree>, done: seq<char>,
                  child: Tree, v1: seq<bool>, v2: seq<bool>)
    requires 0 <= idx < |g| && Scan(g, v0, idx, kids, done, v1)
    requires child.name in g[idx] && Built(g, child, v1, v2)
    ensures Scan(g, v0, idx, kids + [child], done + [child.name], v2)
  {
    var p, q := Forest(kids), Preorder(child);
    ForestSnoc(kids, child);
    IndicesConcat(p, q);
    DistinctConcat(p, q);
    IndicesConcat(done, [child.name]);
    IndicesSingleton(child.name);
    assert Index(q[0]) in Indices(q);
    forall c | c in kids + [child] ensures c.name in g[idx] && InGraph(g, c) {
      if c != child {
        assert c in kids;
      }
    }
  }

  /** Once every neighbour is looked at, the node with the children built is a tree of the call. */
  lemma ScanEnd(g: seq<seq<char>>, v0: seq<bool>, name: char, kids: seq<Tree>, v: seq<bool>)
    requires 0 <= Index(name) < |g| && Scan(g, v0, Index(name), kids, g[Index(name)], v)
    ensures Built(g, Node(name, kids), v0, v)
  {
    var idx := Index(name);
    var t := Node(name, kids);
    assert Preorder(t) == [name] + Forest(kids);
    IndicesConcat([name], Forest(kids));
    IndicesSingleton(name);
    DistinctConcat([name], Forest(kids));
    assert Succ(g, idx) == Indices(g[idx]);
  }

  /**
   * create_subtree (super_tree.cpp:64-84). A vertex already visited gives
   * no tree (the source's nullptr) and changes nothing; otherwise it is
   * marked first, then each neighbour still unvisited when the loop reaches
   * it becomes a child, so no child is ever missing.
   */
  method CreateSubtree(g: seq<seq<char>>, visited: array<bool>, name: char) returns (t: Option<Tree>)
    requires WellFormed(g) && visited.Length == |g| && 0 <= Index(name) < |g|
    modifies visited
    ensures old(visited[Index(name)]) <==> t.None?
    ensures t.None? ==> visited[..] == old(visited[..])
    ensures Marked(old(visited[..])) <= Marked(visited[..])
    ensures t.Some? ==> t.value.name == name && Built(g, t.value, old(visited[..]), visited[..])
    decreases Unvisited(visited[..])
  {
    var idx := Index(name);
    if visited[idx] {
      return None;
    }
    ghost var v0 := visited[..];
    visited[idx] := true;
    MarkOne(v0, visited[..], idx);
    UnvisitedShrinks(v0, visited[..], idx);
    ScanStart(g, v0, idx, visited[..]);
    var adj := g[idx];
    var kids: seq<Tree> := [];
    var j := 0;
    while j < |adj|
      invariant 0 <= j <= |adj|
      invariant Scan(g, v0, idx, kids, adj[..j], visited[..])
      invariant Unvisited(visited[..]) < Unvisited(v0)
    {
      assert adj[..j + 1] == adj[..j] + [adj[j]];
      var w := Index(adj[j]);
      if !visited[w] {
        ghost var v1 := visited[..];
        var c := CreateSubtree(g, visited, adj[j]);
        UnvisitedShrinks(v1, visited[..], -1);
        ScanChild(g, v0, idx, kids, adj[..j], c.value, v1, visited[..]);
        kids := kids + [c.value];
      } else {
        MarkedAt(visited[..], w);
        ScanSkip(g, v0, idx, kids, adj[..j], adj[j], visited[..]);
      }
      j := j + 1;
    }
    assert adj[..j] == adj;
    ScanEnd(g, v0, name, kids, visited[..]);
    t := Some(Node(name, kids));
  }

  lemma ForestSnoc(ts: seq<Tree>, t: Tree)
    ensures Forest(ts + [t]) == Forest(ts) + Preorder(t)
  {
    assert (ts + [t])[..|ts|] == ts;
  }

  /** p is a walk along the edges of g. */
  ghost predicate IsPath(g: seq<seq<char>>, p: seq<int>) {
    |p| >= 1 && (forall k :: 0 <= k < |p| ==> 0 <= p[k] < |g|) &&
    forall k :: 0 <= k < |p| - 1 ==> p[k + 1] in Succ(g, p[k])
  }

  /** Some walk leads from r to v. */
  ghost predicate Reaches(g: seq<seq<char>>, r: int, v: int) {
    exists p :: IsPath(g, p) && p[0] == r && p[|p| - 1] == v
  }

  /** The vertices some walk from r reaches. */
  ghost function Reachable(g: seq<seq<char>>, r: int): set<int> {
    set v | 0 <= v < |g| && Reaches(g, r, v)
  }

  /** Every neighbour of a vertex of S is in S. */
  ghost predicate Closed(g: seq<seq<char>>, s: set<int>) {
    forall i :: i in s && 0 <= i < |g| ==> Succ(g, i) <= s
  }

  /** A walk that starts in a closed set never leaves it. */
  lemma {:induction false} PathStaysIn(g: seq<seq<char>>, s: set<int>, p: seq<int>)
    requires IsPath(g, p) && p[0] in s && Closed(g, s)
    ensures p[|p| - 1] in s
    decreases |p|
  {
    if |p| > 1 {
      var q := p[..|p| - 1];
      assert IsPath(g, q);
      PathStaysIn(g, s, q);
      assert p[|p| - 1] in Succ(g, p[|p| - 2]);
    }
  }

  /** A closed set holding r holds everything reachable from r. */
  lemma ClosedHoldsReachable(g: seq<seq<char>>, s: set<int>, r: int)
    requires r in s && Closed(g, s)
    ensures Reachable(g, r) <= s
  {
    forall v | v in Reachable(g, r) ensures v in s {
      var p :| IsPath(g, p) && p[0] == r && p[|p| - 1] == v;
      PathStaysIn(g, s, p);
    }
  }

  /** A walk from a neighbour of u, with u put in front, is a walk from u. */
  lemma Prepend(g: seq<seq<char>>, u: int, p: seq<int>)
    requires 0 <= u < |g| && IsPath(g, p) && p[0] in Succ(g, u)
    ensures IsPath(g, [u] + p) && ([u] + p)[0] == u && ([u] + p)[|p|] == p[|p| - 1]
  {
  }

  /** Every vertex of a tree whose edges are edges of g is reachable from its root. */
  lemma {:induction false} TreeReachable(g: seq<seq<char>>, t: Tree)
    requires InGraph(g, t)
    ensures Indices(Preorder(t)) <= Reachable(g, Index(t.name))
    decreases t, 1
  {
    var r := Index(t.name);
    assert IsPath(g, [r]);
    ForestReachable(g, t.leaves, r);
    IndicesConcat([t.name], Forest(t.leaves));
  }

  lemma {:induction false} ForestReachable(g: seq<seq<char>>, ts: seq<Tree>, r: int)
    requires 0 <= r < |g|
    requires forall c :: c in ts ==> Index(c.name) in Succ(g, r) && InGraph(g, c)
    ensures Indices(Forest(ts)) <= Reachable(g, r)
    decreases ts, 0
  {
    if ts != [] {
      var init, last := ts[..|ts| - 1], ts[|ts| - 1];
      assert forall c :: c in init ==> c in ts;
      ForestReachable(g, init, r);
      TreeReachable(g, last);
      IndicesConcat(Forest(init), Preorder(last));
      forall v | v in Reachable(g, Index(last.name)) ensures v in Reachable(g, r) {
        var p :| IsPath(g, p) && p[0] == Index(last.name) && p[|p| - 1] == v;
        Prepend(g, r, p);
      }
    }
  }

  /**
   * MyTree (super_tree.cpp:31-60): the tree create_subtree builds from the
   * root, over the visited array shared by every tree built.
   */
  class MyTree {
    var root: Option<Tree>

    /**
     * The constructor (super_tree.cpp:34-36). Over a visited array with
     * nothing marked, the tree exists, holds each vertex at most once, and
     * holds exactly the vertices reachable from the root.
     */
    constructor (g: seq<seq<char>>, visited: array<bool>, name: char)
      requires WellFormed(g) && visited.Length == |g| && 0 <= Index(name) < |g|
      modifies visited
      ensures root.None? <==> old(visited[Index(name)])
      ensures Marked(old(visited[..])) == {} ==>
        root.Some? && Distinct(Preorder(root.value)) && Indices(Preorder(root.value)) == Reachable(g, Index(name))
    {
      ghost var v0 := visited[..];
      assert Marked(v0) == {} ==> Index(name) !in Marked(v0);
      var t := CreateSubtree(g, visited, name);
      root := t;
      new;
      if Marked(v0) == {} {
        var p := Preorder(t.value);
        assert Index(name) in Indices(p) by { assert p[0] == name; }
        assert Closed(g, Indices(p));
        ClosedHoldsReachable(g, Indices(p), Index(name));
        TreeReachable(g, t.value);
      }
    }
  }
}
