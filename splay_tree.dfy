/**
 * The splay tree of splay_tree.cpp, as the tree its links describe.
 *
 * Keys are distinct: inner_insert stops at an equal key. A node reference is a
 * zipper: the node's subtree and the frames on the way up to the root, each
 * holding the parent's key, its other child and the side the node hangs on.
 * The class holds the whole tree; every rotation rebuilds it from the
 * zipper, so a rotation here always redirects the grandparent's child. The
 * links as the source writes them, including the moments where they
 * disagree, are modelled in module SplayLinks.
 */
module Splay {

  datatype Option<T> = None | Some(value: T)

  datatype Tree = Nil | Node(data: int, left: Tree, right: Tree)

  function InOrder(t: Tree): seq<int> {
    match t
    case Nil => []
    case Node(d, l, r) => InOrder(l) + [d] + InOrder(r)
  }

  /** Strictly increasing: the search-tree order with distinct keys. */
  ghost predicate Increasing(s: seq<int>) {
    forall i, j :: 0 <= i < j < |s| ==> s[i] < s[j]
  }

  lemma IncreasingSplit(a: seq<int>, x: int, b: seq<int>)
    requires Increasing(a + [x] + b)
    ensures Increasing(a) && Increasing(b)
    ensures (forall e | e in a :: e < x) && (forall e | e in b :: x < e)
  {
    var s := a + [x] + b;
    assert forall i | 0 <= i < |a| :: s[i] == a[i];
    assert forall i | 0 <= i < |b| :: s[|a| + 1 + i] == b[i];
    assert s[|a|] == x;
  }

  lemma IncreasingJoin(a: seq<int>, x: int, b: seq<int>)
    requires Increasing(a) && Increasing(b)
    requires (forall e | e in a :: e < x) && (forall e | e in b :: x < e)
    ensures Increasing(a + [x] + b)
  {
    var s := a + [x] + b;
    forall i, j | 0 <= i < j < |s|
      ensures s[i] < s[j]
    {
      if j < |a| {
      } else if i < |a| {
        assert a[i] in a;
        if j > |a| {
          assert s[j] == b[j - |a| - 1] && b[j - |a| - 1] in b;
        }
      } else if i > |a| {
      } else {
        assert s[j] == b[j - |a| - 1] && b[j - |a| - 1] in b;
      }
    }
  }

  lemma KeyInOrder(t: Tree)
    requires t.Node?
    ensures t.data in InOrder(t)
  {
    assert InOrder(t)[|InOrder(t.left)|] == t.data;
  }

  // ---------------------------------------------------------------------------
  // Positions in the tree

  datatype Side = Left | Right

  /** One step up from a node: the side it hangs on, its parent's key and the parent's other child. */
  datatype Frame = Frame(side: Side, data: int, other: Tree)

  function Attach(f: Frame, t: Tree): Tree {
    if f.side == Left then Node(f.data, t, f.other) else Node(f.data, f.other, t)
  }

  /** The whole tree, rebuilt from a subtree and the frames above it (the first frame is the parent). */
  function Plug(ctx: seq<Frame>, t: Tree): Tree
    decreases |ctx|
  {
    if ctx == [] then t else Plug(ctx[1..], Attach(ctx[0], t))
  }

  lemma PlugTwo(ctx: seq<Frame>, t: Tree)
    requires |ctx| >= 2
    ensures Plug(ctx, t) == Plug(ctx[2..], Attach(ctx[1], Attach(ctx[0], t)))
  {
    assert ctx[1..][1..] == ctx[2..];
  }

  lemma {:induction false} PlugInOrder(ctx: seq<Frame>, t: Tree, u: Tree)
    requires InOrder(t) == InOrder(u)
    ensures InOrder(Plug(ctx, t)) == InOrder(Plug(ctx, u))
    decreases |ctx|
  {
    if ctx != [] {
      PlugInOrder(ctx[1..], Attach(ctx[0], t), Attach(ctx[0], u));
    }
  }

  /** A child's key lies on its side of the parent's key. */
  lemma AttachOrder(f: Frame, t: Tree)
    requires Increasing(InOrder(Attach(f, t)))
    ensures Increasing(InOrder(t))
    ensures t.Node? ==> (f.side == Left <==> t.data < f.data) && t.data != f.data
  {
    if f.side == Left {
      IncreasingSplit(InOrder(t), f.data, InOrder(f.other));
    } else {
      IncreasingSplit(InOrder(f.other), f.data, InOrder(t));
    }
    if t.Node? {
      KeyInOrder(t);
    }
  }

  lemma {:induction false} PlugIncreasing(ctx: seq<Frame>, t: Tree)
    requires Increasing(InOrder(Plug(ctx, t)))
    ensures Increasing(InOrder(t))
    decreases |ctx|
  {
    if ctx != [] {
      PlugIncreasing(ctx[1..], Attach(ctx[0], t));
      AttachOrder(ctx[0], t);
    }
  }

  /**
   * splay (splay_tree.cpp:104-141) picks a rotation by comparing keys; with
   * distinct keys the comparisons find the sides the node and its parent
   * hang on.
   */
  lemma SideByKey(ctx: seq<Frame>, t: Tree)
    requires ctx != [] && t.Node? && Increasing(InOrder(Plug(ctx, t)))
    ensures ctx[0].side == Left <==> ctx[0].data > t.data
    ensures ctx[0].data != t.data
    ensures |ctx| >= 2 ==> (ctx[1].side == Left <==> ctx[1].data > ctx[0].data) && ctx[1].data != ctx[0].data
  {
    PlugIncreasing(ctx[1..], Attach(ctx[0], t));
    AttachOrder(ctx[0], t);
    if |ctx| >= 2 {
      PlugIncreasing(ctx[2..], Attach(ctx[1], Attach(ctx[0], t)));
      assert ctx[1..][1..] == ctx[2..];
      AttachOrder(ctx[1], Attach(ctx[0], t));
    }
  }

  // ---------------------------------------------------------------------------
  // Insertion

  /** Search-tree insertion that leaves the tree alone when the key is present. */
  function InsertTree(t: Tree, x: int): Tree {
    match t
    case Nil => Node(x, Nil, Nil)
    case Node(d, l, r) =>
      if d > x then Node(d, InsertTree(l, x), r)
      else if d < x then Node(d, l, InsertTree(r, x))
      else t
  }

  /** The keys after insertion are the old ones and the new one. */
  lemma {:induction false} InsertTreeKeys(t: Tree, x: int)
    ensures forall k :: k in InOrder(InsertTree(t, x)) <==> k in InOrder(t) || k == x
  {
    match t {
      case Nil =>
      case Node(d, l, r) =>
        if d > x {
          InsertTreeKeys(l, x);
        } else if d < x {
          InsertTreeKeys(r, x);
        } else {
          KeyInOrder(t);
        }
    }
  }

  /** Insertion keeps the keys strictly increasing. */
  lemma {:induction false} InsertTreeIncreasing(t: Tree, x: int)
    requires Increasing(InOrder(t))
    ensures Increasing(InOrder(InsertTree(t, x)))
  {
    match t {
      case Nil =>
      case Node(d, l, r) =>
        IncreasingSplit(InOrder(l), d, InOrder(r));
        if d > x {
          InsertTreeIncreasing(l, x);
          InsertTreeKeys(l, x);
          IncreasingJoin(InOrder(InsertTree(l, x)), d, InOrder(r));
        } else if d < x {
          InsertTreeIncreasing(r, x);
          InsertTreeKeys(r, x);
          IncreasingJoin(InOrder(l), d, InOrder(InsertTree(r, x)));
        }
    }
  }

  /** A key already present is not added again: the tree is unchanged. */
  lemma {:induction false} InsertPresent(t: Tree, x: int)
    requires Increasing(InOrder(t)) && x in InOrder(t)
    ensures InsertTree(t, x) == t
  {
    match t {
      case Nil =>
      case Node(d, l, r) =>
        IncreasingSplit(InOrder(l), d, InOrder(r));
        if d > x {
          InsertPresent(l, x);
        } else if d < x {
          InsertPresent(r, x);
        }
    }
  }

  /** A fresh key adds exactly one element. */
  lemma {:induction false} InsertFreshGrows(t: Tree, x: int)
    requires x !in InOrder(t)
    ensures |InOrder(InsertTree(t, x))| == |InOrder(t)| + 1
  {
    match t {
      case Nil =>
      case Node(d, l, r) =>
        KeyInOrder(t);
        if d > x {
          InsertFreshGrows(l, x);
        } else {
          InsertFreshGrows(r, x);
        }
    }
  }

  /**
   * inner_insert (splay_tree.cpp:370-389): the descent from a node whose
   * frames above are ctx. A missing child becomes a new node; an equal key
   * stops at the node that holds it. The result is the position of the
   * node holding the key in the tree after insertion.
   */
  function InnerInsert(ctx: seq<Frame>, t: Tree, x: int): (r: (seq<Frame>, Tree))
    ensures r.1.Node? && r.1.data == x
    ensures Plug(r.0, r.1) == Plug(ctx, InsertTree(t, x))
    decreases t
  {
    match t
    case Nil => (ctx, Node(x, Nil, Nil))
    case Node(d, l, r) =>
      if d > x then InnerInsert([Frame(Left, d, r)] + ctx, l, x)
      else if d < x then InnerInsert([Frame(Right, d, l)] + ctx, r, x)
      else (ctx, t)
  }

  // ---------------------------------------------------------------------------
  // Extremes

  /** inner_min (splay_tree.cpp:256-263): the leftmost node, which holds the first key in order. */
  function InnerMin(ctx: seq<Frame>, t: Tree): (r: (seq<Frame>, Tree))
    requires t.Node?
    ensures Plug(r.0, r.1) == Plug(ctx, t)
    ensures r.1.Node? && r.1.left == Nil && InOrder(t)[0] == r.1.data
    decreases t
  {
    if t.left == Nil then (ctx, t) else InnerMin([Frame(Left, t.data, t.right)] + ctx, t.left)
  }

  /** inner_max (splay_tree.cpp:276-283): the rightmost node, which holds the last key in order. */
  function InnerMax(ctx: seq<Frame>, t: Tree): (r: (seq<Frame>, Tree))
    requires t.Node?
    ensures Plug(r.0, r.1) == Plug(ctx, t)
    ensures r.1.Node? && r.1.right == Nil && InOrder(t)[|InOrder(t)| - 1] == r.1.data
    decreases t
  {
    if t.right == Nil then (ctx, t) else InnerMax([Frame(Right, t.data, t.left)] + ctx, t.right)
  }

  /** In increasing order the first key is the least and the last the greatest. */
  lemma EndsAreExtremesWhen(s: seq<int>)
    requires s != []
    ensures Increasing(s) ==> forall k | k in s :: s[0] <= k <= s[|s| - 1]
  {
  }

  // ---------------------------------------------------------------------------
  // Rotations

  /**
   * zig_rotation (splay_tree.cpp:145-163) on a left child: the node takes its
   * parent's place, the parent becomes its right child and the node's right
   * subtree the parent's left.
   */
  function Zig(f: Frame, t: Tree): (r: Tree)
    requires f.side == Left && t.Node?
    ensures r.Node? && r.data == t.data && r.left == t.left
    ensures InOrder(r) == InOrder(Attach(f, t))
  {
    Node(t.data, t.left, Node(f.data, t.right, f.other))
  }

  /** zag_rotation (splay_tree.cpp:165-183), the mirror image on a right child. */
  function Zag(f: Frame, t: Tree): (r: Tree)
    requires f.side == Right && t.Node?
    ensures r.Node? && r.data == t.data && r.right == t.right
    ensures InOrder(r) == InOrder(Attach(f, t))
  {
    Node(t.data, Node(f.data, f.other, t.left), t.right)
  }

  /** A tree whose last key in order is at the root has no right subtree. */
  lemma LastAtRoot(t: Tree)
    requires t.Node? && Increasing(InOrder(t))
    requires InOrder(t)[|InOrder(t)| - 1] == t.data
    ensures t.right == Nil
  {
    var s := InOrder(t);
    assert s[|InOrder(t.left)|] == t.data;
    assert |InOrder(t.left)| == |s| - 1;
  }

  class SplayTree {
    var root: Tree

    ghost predicate Valid()
      reads this
    {
      Increasing(InOrder(root))
    }

    constructor()
      ensures Valid() && root == Nil
    {
      root := Nil;
    }

    /** isEmpty (splay_tree.cpp:250-254). */
    function IsEmpty(): (b: bool)
      reads this
      ensures b <==> InOrder(root) == []
    {
      root.Nil?
    }

    /** min (splay_tree.cpp:265-274): None where the source throws on an empty tree, else the least key. */
    function Min(): (r: Option<int>)
      reads this
      ensures r.None? <==> InOrder(root) == []
      ensures r.Some? ==> r.value in InOrder(root)
      ensures r.Some? && Valid() ==> forall k | k in InOrder(root) :: r.value <= k
    {
      if IsEmpty() then None
      else
        var m := InnerMin([], root).1.data;
        EndsAreExtremesWhen(InOrder(root));
        Some(m)
    }

    /** max (splay_tree.cpp:285-294): None where the source throws on an empty tree, else the greatest key. */
    function Max(): (r: Option<int>)
      reads this
      ensures r.None? <==> InOrder(root) == []
      ensures r.Some? ==> r.value in InOrder(root)
      ensures r.Some? && Valid() ==> forall k | k in InOrder(root) :: k <= r.value
    {
      if IsEmpty() then None
      else
        var m := InnerMax([], root).1.data;
        EndsAreExtremesWhen(InOrder(root));
        Some(m)
    }

    method ZigRotation(ctx: seq<Frame>, node: Tree) returns (up: seq<Frame>, top: Tree)
      requires root == Plug(ctx, node) && ctx != [] && ctx[0].side == Left && node.Node?
      modifies this
      ensures up == ctx[1..] && top == Zig(ctx[0], node) && root == Plug(up, top)
      ensures InOrder(root) == old(InOrder(root))
    {
      var p := ctx[0];
      top := Node(node.data, node.left, Node(p.data, node.right, p.other));
      up := ctx[1..];
      PlugInOrder(up, Attach(p, node), top);
      root := Plug(up, top);
    }

    method ZagRotation(ctx: seq<Frame>, node: Tree) returns (up: seq<Frame>, top: Tree)
      requires root == Plug(ctx, node) && ctx != [] && ctx[0].side == Right && node.Node?
      modifies this
      ensures up == ctx[1..] && top == Zag(ctx[0], node) && root == Plug(up, top)
      ensures InOrder(root) == old(InOrder(root))
    {
      var p := ctx[0];
      top := Node(node.data, Node(p.data, p.other, node.left), node.right);
      up := ctx[1..];
      PlugInOrder(up, Attach(p, node), top);
      root := Plug(up, top);
    }

    /** zig_zig_rotation (splay_tree.cpp:185-190): first the parent over the grandparent, then the node over the parent. */
    method ZigZigRotation(ctx: seq<Frame>, node: Tree) returns (up: seq<Frame>, top: Tree)
      requires root == Plug(ctx, node) && |ctx| >= 2 && ctx[0].side == Left && ctx[1].side == Left && node.Node?
      modifies this
      ensures up == ctx[2..] && root == Plug(up, top)
      ensures top.Node? && top.data == node.data
      ensures InOrder(top) == InOrder(Attach(ctx[1], Attach(ctx[0], node)))
      ensures InOrder(root) == old(InOrder(root))
    {
      PlugTwo(ctx, node);
      up, top := ZigRotation(ctx[1..], Attach(ctx[0], node));
      assert ctx[1..][1..] == ctx[2..];
      var f := Frame(Left, top.data, top.right);
      assert Plug([f] + up, top.left) == Plug(up, top);
      up, top := ZigRotation([f] + up, top.left);
      assert ([f] + ctx[2..])[1..] == ctx[2..];
    }

    /** zag_zag_rotation (splay_tree.cpp:192-197), the mirror image. */
    method ZagZagRotation(ctx: seq<Frame>, node: Tree) returns (up: seq<Frame>, top: Tree)
      requires root == Plug(ctx, node) && |ctx| >= 2 && ctx[0].side == Right && ctx[1].side == Right && node.Node?
      modifies this
      ensures up == ctx[2..] && root == Plug(up, top)
      ensures top.Node? && top.data == node.data
      ensures InOrder(top) == InOrder(Attach(ctx[1], Attach(ctx[0], node)))
      ensures InOrder(root) == old(InOrder(root))
    {
      PlugTwo(ctx, node);
      up, top := ZagRotation(ctx[1..], Attach(ctx[0], node));
      assert ctx[1..][1..] == ctx[2..];
      var f := Frame(Right, top.data, top.left);
      assert Plug([f] + up, top.right) == Plug(up, top);
      up, top := ZagRotation([f] + up, top.right);
      assert ([f] + ctx[2..])[1..] == ctx[2..];
    }

    /** zig_zag_rotation (splay_tree.cpp:199-204): a right child of a left child rises twice, by zag then zig. */
    method ZigZagRotation(ctx: seq<Frame>, node: Tree) returns (up: seq<Frame>, top: Tree)
      requires root == Plug(ctx, node) && |ctx| >= 2 && ctx[0].side == Right && ctx[1].side == Left && node.Node?
      modifies this
      ensures up == ctx[2..] && root == Plug(up, top)
      ensures top.Node? && top.data == node.data
      ensures InOrder(top) == InOrder(Attach(ctx[1], Attach(ctx[0], node)))
      ensures InOrder(root) == old(InOrder(root))
    {
      up, top := ZagRotation(ctx, node);
      up, top := ZigRotation(up, top);
      assert ctx[1..][1..] == ctx[2..];
    }

    /** zag_zig_rotation (splay_tree.cpp:206-211): a left child of a right child rises twice, by zig then zag. */
    method ZagZigRotation(ctx: seq<Frame>, node: Tree) returns (up: seq<Frame>, top: Tree)
      requires root == Plug(ctx, node) && |ctx| >= 2 && ctx[0].side == Left && ctx[1].side == Right && node.Node?
      modifies this
      ensures up == ctx[2..] && root == Plug(up, top)
      ensures top.Node? && top.data == node.data
      ensures InOrder(top) == InOrder(Attach(ctx[1], Attach(ctx[0], node)))
      ensures InOrder(root) == old(InOrder(root))
    {
      up, top := ZigRotation(ctx, node);
      up, top := ZagRotation(up, top);
      assert ctx[1..][1..] == ctx[2..];
    }

    /**
     * splay (splay_tree.cpp:101-143): rotations chosen by comparing the keys
     * of the node, its parent and its grandparent, until the node is the
     * root. The node's key ends at the root and the keys keep their order.
     */
    method Splay(ctx: seq<Frame>, node: Tree)
      requires Valid() && root == Plug(ctx, node) && node.Node?
      modifies this
      ensures Valid() && root.Node? && root.data == node.data
      ensures InOrder(root) == old(InOrder(root))
    {
      var c, n := ctx, node;
      while c != []
        invariant root == Plug(c, n) && n.Node? && n.data == node.data
        invariant InOrder(root) == old(InOrder(root))
        decreases |c|
      {
        SideByKey(c, n);
        if |c| == 1 {
          if c[0].data > n.data {
            c, n := ZigRotation(c, n);
          } else {
            c, n := ZagRotation(c, n);
          }
        } else if c[1].data > c[0].data {
          if c[0].data > n.data {
            c, n := ZigZigRotation(c, n);
          } else {
            c, n := ZigZagRotation(c, n);
          }
        } else {
          if c[0].data < n.data {
            c, n := ZagZagRotation(c, n);
          } else {
            c, n := ZagZigRotation(c, n);
          }
        }
      }
    }

    /**
     * insert (splay_tree.cpp:362-368): the descent of inner_insert, then a
     * splay of the node holding the key. The key is at the root afterwards;
     * a present key adds nothing.
     */
    method Insert(x: int)
      requires Valid()
      modifies this
      ensures Valid() && root.Node? && root.data == x
      ensures forall k :: k in InOrder(root) <==> k in old(InOrder(root)) || k == x
      ensures x in old(InOrder(root)) ==> InOrder(root) == old(InOrder(root))
      ensures x !in old(InOrder(root)) ==> |InOrder(root)| == |old(InOrder(root))| + 1
    {
      InsertTreeKeys(root, x);
      InsertTreeIncreasing(root, x);
      if x in InOrder(root) {
        InsertPresent(root, x);
      } else {
        InsertFreshGrows(root, x);
      }
      var (ctx, node) := InnerInsert([], root, x);
      root := Plug(ctx, node);
      Splay(ctx, node);
    }

    /**
     * merge (splay_tree.cpp:296-304): the receiver's greatest key is splayed
     * to the root, the other tree becomes its right subtree and the other
     * tree is left empty. The receiver must hold a key (inner_max reads
     * through its root) and all its keys must be below the other tree's.
     */
    method Merge(other: SplayTree)
      requires Valid() && other.Valid() && other != this && root.Node?
      requires forall a, b | a in InOrder(root) && b in InOrder(other.root) :: a < b
      modifies this, other
      ensures Valid() && other.root == Nil
      ensures InOrder(root) == old(InOrder(root)) + old(InOrder(other.root))
      ensures root.Node? && root.data == old(InOrder(root))[|old(InOrder(root))| - 1]
      ensures root.right == old(other.root)
    {
      var (ctx, m) := InnerMax([], root);
      Splay(ctx, m);
      LastAtRoot(root);
      var left, key := root.left, root.data;
      IncreasingSplit(InOrder(left), key, []);
      KeyInOrder(root);
      IncreasingJoin(InOrder(left), key, InOrder(other.root));
      root := Node(key, left, other.root);
      other.root := Nil;
    }
  }

  /** A tree built by inserting the given keys in turn, as main does. */
  method Build(keys: seq<int>) returns (t: SplayTree)
    ensures fresh(t) && t.Valid()
    ensures forall k :: k in InOrder(t.root) <==> k in keys
  {
    t := new SplayTree();
    var i := 0;
    while i < |keys|
      invariant 0 <= i <= |keys| && t.Valid()
      invariant forall k :: k in InOrder(t.root) <==> k in keys[..i]
    {
      t.Insert(keys[i]);
      assert keys[..i + 1] == keys[..i] + [keys[i]];
      i := i + 1;
    }
    assert keys[..i] == keys;
  }

  /**
   * main (splay_tree.cpp:443-463): two trees built by insertion, then the
   * tree of smaller keys absorbs the other, which is left empty.
   */
  method Demonstration() returns (small: SplayTree, big: SplayTree)
    ensures small.Valid() && big.root == Nil
    ensures forall k :: k in InOrder(small.root) <==> k in {10, 15, 25, 33, 37, 40, 42}
    ensures small.root.Node? && small.root.data == 33
  {
    big := Build([42, 37, 40]);
    small := Build([15, 25, 33, 10]);
    ghost var before := InOrder(small.root);
    assert 33 in before;
    EndsAreExtremesWhen(before);
    small.Merge(big);
    assert before[|before| - 1] in before;
  }
}

/**
 * The links of splay_tree.cpp as the source writes them. Every node is a
 * cell of an arena, shared by all trees, holding its key and the indices
 * of its parent and children (Null where the link is null); a tree is
 * the index of its root. Here a rotation updates exactly the fields the
 * source assigns, so the moments where a child link and a parent link
 * disagree are visible, and so is a read through a null parent.
 */
module SplayLinks {

  datatype Option<T> = None | Some(value: T)

  const Null := -1

  datatype Cell = Cell(data: int, parent: int, left: int, right: int)

  /** The cells and the root index of the tree they hold. */
  datatype Links = Links(cells: seq<Cell>, root: int)

  predicate Ref(n: int, i: int) {
    i == Null || 0 <= i < n
  }

  /** Every link names a cell or is null. */
  predicate Closed(s: Links) {
    Ref(|s.cells|, s.root) &&
    forall i | 0 <= i < |s.cells| ::
      Ref(|s.cells|, s.cells[i].parent) && Ref(|s.cells|, s.cells[i].left) && Ref(|s.cells|, s.cells[i].right)
  }

  /** Child and parent links agree: a child names its parent, a parent names its child. */
  predicate Agree(cells: seq<Cell>) {
    forall i | 0 <= i < |cells| ::
      (0 <= cells[i].left < |cells| ==> cells[cells[i].left].parent == i) &&
      (0 <= cells[i].right < |cells| ==> cells[cells[i].right].parent == i) &&
      (0 <= cells[i].parent < |cells| ==> cells[cells[i].parent].left == i || cells[cells[i].parent].right == i)
  }

  /**
   * zig_rotation (splay_tree.cpp:145-163), field by field: the node's right
   * becomes its parent, its parent becomes the parent's parent, the parent's
   * parent becomes the node and its left the node's old right subtree, whose
   * parent is redirected; the root moves when the parent was the root.
   * Nothing is written into the grandparent. None where the node has no
   * parent, which the source would read through.
   */
  function Zig(s: Links, v: int): (r: Option<Links>)
    requires Closed(s) && 0 <= v < |s.cells|
    ensures r.None? <==> s.cells[v].parent == Null
    ensures r.Some? ==> Closed(r.value) && |r.value.cells| == |s.cells|
    ensures r.Some? ==> forall i | 0 <= i < |s.cells| && i != v && i != s.cells[v].parent && i != s.cells[v].right ::
      r.value.cells[i] == s.cells[i]
    ensures r.Some? ==> forall i | 0 <= i < |s.cells| :: r.value.cells[i].data == s.cells[i].data
  {
    var p := s.cells[v].parent;
    if p == Null then None
    else
      var tmp := s.cells[v].right;
      var c1 := s.cells[v := s.cells[v].(right := p)];
      var c2 := c1[v := c1[v].(parent := c1[p].parent)];
      var c3 := c2[p := c2[p].(parent := v)];
      var c4 := c3[p := c3[p].(left := tmp)];
      var c5 := if tmp != Null then c4[tmp := c4[tmp].(parent := p)] else c4;
      Some(Links(c5, if p == s.root then v else s.root))
  }

  /** zag_rotation (splay_tree.cpp:165-183), the mirror image, field by field. */
  function Zag(s: Links, v: int): (r: Option<Links>)
    requires Closed(s) && 0 <= v < |s.cells|
    ensures r.None? <==> s.cells[v].parent == Null
    ensures r.Some? ==> Closed(r.value) && |r.value.cells| == |s.cells|
    ensures r.Some? ==> forall i | 0 <= i < |s.cells| && i != v && i != s.cells[v].parent && i != s.cells[v].left ::
      r.value.cells[i] == s.cells[i]
    ensures r.Some? ==> forall i | 0 <= i < |s.cells| :: r.value.cells[i].data == s.cells[i].data
  {
    var p := s.cells[v].parent;
    if p == Null then None
    else
      var tmp := s.cells[v].left;
      var c1 := s.cells[v := s.cells[v].(left := p)];
      var c2 := c1[v := c1[v].(parent := c1[p].parent)];
      var c3 := c2[p := c2[p].(parent := v)];
      var c4 := c3[p := c3[p].(right := tmp)];
      var c5 := if tmp != Null then c4[tmp := c4[tmp].(parent := p)] else c4;
      Some(Links(c5, if p == s.root then v else s.root))
  }

  /** zig_zig_rotation (splay_tree.cpp:185-190): zig on the parent, then on the node. */
  function ZigZig(s: Links, v: int): (r: Option<Links>)
    requires Closed(s) && 0 <= v < |s.cells|
    ensures r.Some? ==> Closed(r.value) && |r.value.cells| == |s.cells|
    ensures r.Some? ==> forall i | 0 <= i < |s.cells| :: r.value.cells[i].data == s.cells[i].data
  {
    var p := s.cells[v].parent;
    if p == Null then None
    else
      match Zig(s, p)
      case None => None
      case Some(s1) => Zig(s1, v)
  }

  /** zag_zag_rotation (splay_tree.cpp:192-197): zag on the parent, then on the node. */
  function ZagZag(s: Links, v: int): (r: Option<Links>)
    requires Closed(s) && 0 <= v < |s.cells|
    ensures r.Some? ==> Closed(r.value) && |r.value.cells| == |s.cells|
    ensures r.Some? ==> forall i | 0 <= i < |s.cells| :: r.value.cells[i].data == s.cells[i].data
  {
    var p := s.cells[v].parent;
    if p == Null then None
    else
      match Zag(s, p)
      case None => None
      case Some(s1) => Zag(s1, v)
  }

  /** zig_zag_rotation (splay_tree.cpp:199-204): zag on the node, then zig on it. */
  function ZigZag(s: Links, v: int): (r: Option<Links>)
    requires Closed(s) && 0 <= v < |s.cells|
    ensures r.Some? ==> Closed(r.value) && |r.value.cells| == |s.cells|
    ensures r.Some? ==> forall i | 0 <= i < |s.cells| :: r.value.cells[i].data == s.cells[i].data
  {
    match Zag(s, v)
    case None => None
    case Some(s1) => Zig(s1, v)
  }

  /** zag_zig_rotation (splay_tree.cpp:206-211): zig on the node, then zag on it. */
  function ZagZig(s: Links, v: int): (r: Option<Links>)
    requires Closed(s) && 0 <= v < |s.cells|
    ensures r.Some? ==> Closed(r.value) && |r.value.cells| == |s.cells|
    ensures r.Some? ==> forall i | 0 <= i < |s.cells| :: r.value.cells[i].data == s.cells[i].data
  {
    match Zig(s, v)
    case None => None
    case Some(s1) => Zag(s1, v)
  }

  /**
   * How a run on the links ends: with the links it leaves, stopped at a
   * read through a null link (with the links as they were before the
   * step that reads it), or with the step bound spent.
   */
  datatype Outcome = Done(links: Links) | NullRead(links: Links) | OutOfSteps

  /**
   * splay (splay_tree.cpp:101-143) on the links: while the node is not the
   * root, the keys of the node, its parent and its grandparent pick a
   * rotation; a missing grandparent means a single one. A null parent of a
   * node that is not the root is read through. At most fuel steps are taken.
   */
  function SplayFrom(s: Links, v: int, fuel: nat): (r: Outcome)
    requires Closed(s) && 0 <= v < |s.cells|
    ensures r.Done? ==> Closed(r.links) && r.links.root == v && |r.links.cells| == |s.cells|
    ensures r.Done? ==> forall i | 0 <= i < |s.cells| :: r.links.cells[i].data == s.cells[i].data
    decreases fuel
  {
    if v == s.root then Done(s)
    else if fuel == 0 then OutOfSteps
    else
      var p := s.cells[v].parent;
      if p == Null then NullRead(s)
      else
        var g := s.cells[p].parent;
        var step :=
          if g == Null then
            (if s.cells[p].data > s.cells[v].data then Zig(s, v) else Zag(s, v))
          else if s.cells[g].data > s.cells[p].data then
            (if s.cells[p].data > s.cells[v].data then ZigZig(s, v) else ZigZag(s, v))
          else
            (if s.cells[p].data < s.cells[v].data then ZagZag(s, v) else ZagZig(s, v));
        match step
        case None => NullRead(s)
        case Some(s1) => SplayFrom(s1, v, fuel - 1)
  }

  /** A new cell for x hung below cell n, on its left or right. */
  function Hang(s: Links, n: int, x: int, onLeft: bool): (r: (Links, int))
    requires Closed(s) && 0 <= n < |s.cells|
    ensures Closed(r.0) && r.1 == |s.cells| && |r.0.cells| == |s.cells| + 1
    ensures r.0.cells[r.1] == Cell(x, n, Null, Null)
  {
    var k := |s.cells|;
    var c := s.cells[n];
    (Links(s.cells[n := if onLeft then c.(left := k) else c.(right := k)] + [Cell(x, n, Null, Null)], s.root), k)
  }

  /**
   * inner_insert (splay_tree.cpp:370-389) below cell n: smaller keys go
   * left, greater ones right, an equal key stops at its cell; a null child
   * receives a new cell whose parent is the last cell passed. The result
   * is the links and the cell holding x; None once fuel is spent.
   */
  function Descend(s: Links, n: int, x: int, fuel: nat): (r: Option<(Links, int)>)
    requires Closed(s) && 0 <= n < |s.cells|
    ensures r.Some? ==> Closed(r.value.0) && 0 <= r.value.1 < |r.value.0.cells|
    ensures r.Some? ==> r.value.0.cells[r.value.1].data == x && |r.value.0.cells| <= |s.cells| + 1
    decreases fuel
  {
    var c := s.cells[n];
    if c.data > x then
      if c.left == Null then Some(Hang(s, n, x, true))
      else if fuel == 0 then None
      else Descend(s, c.left, x, fuel - 1)
    else if c.data < x then
      if c.right == Null then Some(Hang(s, n, x, false))
      else if fuel == 0 then None
      else Descend(s, c.right, x, fuel - 1)
    else Some((s, n))
  }

  /** inner_insert from the root: an empty tree gets a root cell. */
  function InnerInsert(s: Links, x: int, fuel: nat): (r: Option<(Links, int)>)
    requires Closed(s)
    ensures r.Some? ==> Closed(r.value.0) && 0 <= r.value.1 < |r.value.0.cells|
    ensures r.Some? ==> r.value.0.cells[r.value.1].data == x
  {
    if s.root == Null then
      var k := |s.cells|;
      Some((Links(s.cells + [Cell(x, Null, Null, Null)], k), k))
    else Descend(s, s.root, x, fuel)
  }

  /** insert (splay_tree.cpp:362-368): inner_insert, then splay of the cell holding the key. */
  function Insert(s: Links, x: int, fuel: nat): (r: Outcome)
    requires Closed(s)
    ensures r.Done? ==> Closed(r.links) && 0 <= r.links.root < |r.links.cells| && r.links.cells[r.links.root].data == x
  {
    match InnerInsert(s, x, fuel)
    case None => OutOfSteps
    case Some((s1, v)) => SplayFrom(s1, v, fuel)
  }

  /** inner_max (splay_tree.cpp:276-283): right links followed from cell n to a cell without a right child. */
  function InnerMax(s: Links, n: int, fuel: nat): (r: Option<int>)
    requires Closed(s) && 0 <= n < |s.cells|
    ensures r.Some? ==> 0 <= r.value < |s.cells| && s.cells[r.value].right == Null
    decreases fuel
  {
    if s.cells[n].right == Null then Some(n)
    else if fuel == 0 then None
    else InnerMax(s, s.cells[n].right, fuel - 1)
  }

  /**
   * merge (splay_tree.cpp:296-304) as written: the receiver's greatest cell
   * is splayed to the root and the other tree's root becomes its right
   * child; the other tree's root link is then null. The attached root's
   * parent link is not written. An empty receiver is read through.
   */
  function Merge(s: Links, other: int, fuel: nat): (r: Outcome)
    requires Closed(s) && Ref(|s.cells|, other)
    ensures r.Done? ==> |r.links.cells| == |s.cells| && 0 <= r.links.root < |s.cells|
    ensures r.Done? ==> r.links.cells[r.links.root].right == other
  {
    if s.root == Null then NullRead(s)
    else
      match InnerMax(s, s.root, fuel)
      case None => OutOfSteps
      case Some(m) =>
        match SplayFrom(s, m, fuel)
        case Done(s1) => Done(Links(s1.cells[m := s1.cells[m].(right := other)], s1.root))
        case NullRead(s1) => NullRead(s1)
        case OutOfSteps => OutOfSteps
  }

  /** merge with the attached root's parent link set to the receiver's root, as the links need. */
  function MergeLinked(s: Links, other: int, fuel: nat): (r: Outcome)
    requires Closed(s) && Ref(|s.cells|, other)
    ensures r.Done? && other != Null ==>
      0 <= r.links.root < |r.links.cells| && other < |r.links.cells| && r.links.cells[r.links.root].right == other &&
      r.links.cells[other].parent == r.links.root
  {
    match Merge(s, other, fuel)
    case Done(s1) =>
      if other == Null then Done(s1)
      else Done(Links(s1.cells[other := s1.cells[other].(parent := s1.root)], s1.root))
    case NullRead(s1) => NullRead(s1)
    case OutOfSteps => OutOfSteps
  }

  /**
   * The attached root keeps a null parent. Merging the tree {b} into the
   * tree {a} and then inserting c > b: c hangs below b, one zag lifts it
   * over b (b has no parent, so this is taken for a single rotation below
   * the root), and c is left with a null parent although it is not the
   * root; the next step reads through that null. The root's links no
   * longer reach c.
   */
  lemma MergeLosesInsertedKey(a: int, b: int, c: int)
    requires a < b < c
    ensures var m := Merge(Links([Cell(a, Null, Null, Null), Cell(b, Null, Null, Null)], 0), 1, 2);
      m == Done(Links([Cell(a, Null, Null, 1), Cell(b, Null, Null, Null)], 0)) &&
      Insert(m.links, c, 2) ==
        NullRead(Links([Cell(a, Null, Null, 1), Cell(b, 2, Null, Null), Cell(c, Null, 1, Null)], 0))
  {
    var s := Links([Cell(a, Null, Null, Null), Cell(b, Null, Null, Null)], 0);
    assert InnerMax(s, 0, 2) == Some(0);
    assert SplayFrom(s, 0, 2) == Done(s);
    var m := Links([Cell(a, Null, Null, 1), Cell(b, Null, Null, Null)], 0);
    assert Merge(s, 1, 2) == Done(m);
    var h := Links([Cell(a, Null, Null, 1), Cell(b, Null, Null, 2), Cell(c, 1, Null, Null)], 0);
    assert m.cells[1 := Cell(b, Null, Null, 2)] + [Cell(c, 1, Null, Null)] == h.cells;
    assert Hang(m, 1, c, false) == (h, 2);
    assert Descend(m, 1, c, 1) == Some((h, 2));
    assert InnerInsert(m, c, 2) == Some((h, 2));
    var z := Links([Cell(a, Null, Null, 1), Cell(b, 2, Null, Null), Cell(c, Null, 1, Null)], 0);
    var z0 := Zag(h, 2).value;
    assert |z0.cells| == 3 && z0.cells[0] == z.cells[0] && z0.cells[1] == z.cells[1] && z0.cells[2] == z.cells[2];
    assert z0.cells == z.cells && z0.root == 0;
    assert Zag(h, 2) == Some(z);
    assert SplayFrom(h, 2, 2) == SplayFrom(z, 2, 1);
  }

  /**
   * The same merge and insertion with the attached root's parent link set:
   * c rises by a zag-zag to the root, and all links agree.
   */
  lemma MergeLinkedKeepsInsertedKey(a: int, b: int, c: int)
    requires a < b < c
    ensures var m := MergeLinked(Links([Cell(a, Null, Null, Null), Cell(b, Null, Null, Null)], 0), 1, 2);
      m == Done(Links([Cell(a, Null, Null, 1), Cell(b, 0, Null, Null)], 0)) &&
      Insert(m.links, c, 2) ==
        Done(Links([Cell(a, 1, Null, Null), Cell(b, 2, 0, Null), Cell(c, Null, 1, Null)], 2)) &&
      Agree(Insert(m.links, c, 2).links.cells)
  {
    var s := Links([Cell(a, Null, Null, Null), Cell(b, Null, Null, Null)], 0);
    assert InnerMax(s, 0, 2) == Some(0);
    assert SplayFrom(s, 0, 2) == Done(s);
    assert Merge(s, 1, 2) == Done(Links([Cell(a, Null, Null, 1), Cell(b, Null, Null, Null)], 0));
    InsertAfterLinkedMerge(a, b, c);
  }

  lemma InsertAfterLinkedMerge(a: int, b: int, c: int)
    requires a < b < c
    ensures var y := Links([Cell(a, 1, Null, Null), Cell(b, 2, 0, Null), Cell(c, Null, 1, Null)], 2);
      Insert(Links([Cell(a, Null, Null, 1), Cell(b, 0, Null, Null)], 0), c, 2) == Done(y) && Agree(y.cells)
  {
    var m := Links([Cell(a, Null, Null, 1), Cell(b, 0, Null, Null)], 0);
    var h := Links([Cell(a, Null, Null, 1), Cell(b, 0, Null, 2), Cell(c, 1, Null, Null)], 0);
    assert m.cells[1 := Cell(b, 0, Null, 2)] + [Cell(c, 1, Null, Null)] == h.cells;
    assert Hang(m, 1, c, false) == (h, 2);
    assert InnerInsert(m, c, 2) == Some((h, 2));
    var y2 := Links([Cell(a, 1, Null, Null), Cell(b, 2, 0, Null), Cell(c, Null, 1, Null)], 2);
    ZagZagExample(a, b, c);
    assert SplayFrom(h, 2, 2) == SplayFrom(y2, 2, 1);
  }

  lemma ZagZagExample(a: int, b: int, c: int)
    ensures ZagZag(Links([Cell(a, Null, Null, 1), Cell(b, 0, Null, 2), Cell(c, 1, Null, Null)], 0), 2) ==
      Some(Links([Cell(a, 1, Null, Null), Cell(b, 2, 0, Null), Cell(c, Null, 1, Null)], 2))
  {
    var h := Links([Cell(a, Null, Null, 1), Cell(b, 0, Null, 2), Cell(c, 1, Null, Null)], 0);
    var y1 := Links([Cell(a, 1, Null, Null), Cell(b, Null, 0, 2), Cell(c, 1, Null, Null)], 1);
    var z1 := Zag(h, 1).value;
    assert z1.cells[0] == y1.cells[0] && z1.cells[1] == y1.cells[1] && z1.cells[2] == y1.cells[2];
    assert z1.cells == y1.cells && z1.root == 1;
    var y2 := Links([Cell(a, 1, Null, Null), Cell(b, 2, 0, Null), Cell(c, Null, 1, Null)], 2);
    var z2 := Zag(y1, 2).value;
    assert z2.cells[0] == y2.cells[0] && z2.cells[1] == y2.cells[1] && z2.cells[2] == y2.cells[2];
    assert z2.cells == y2.cells && z2.root == 2;
  }

  /**
   * A zig-zig below the root leaves the great-grandparent's child link
   * stale. In the chain d > c > b with a inserted below b, the zig-zig at
   * a rotates b over c and then a over b; cell d still names c as its left
   * child, while c's parent is b and a's parent is d.
   */
  lemma ZigZigLeavesStaleLink(a: int, b: int, c: int, d: int)
    ensures var h := Links([Cell(d, Null, 1, Null), Cell(c, 0, 2, Null), Cell(b, 1, 3, Null), Cell(a, 2, Null, Null)], 0);
      var w := Links([Cell(d, Null, 1, Null), Cell(c, 2, Null, Null), Cell(b, 3, Null, 1), Cell(a, 0, Null, 2)], 0);
      Agree(h.cells) && ZigZig(h, 3) == Some(w) &&
      w.cells[0].left == 1 && w.cells[1].parent == 2 && w.cells[3].parent == 0 && !Agree(w.cells)
  {
    var h := Links([Cell(d, Null, 1, Null), Cell(c, 0, 2, Null), Cell(b, 1, 3, Null), Cell(a, 2, Null, Null)], 0);
    var w1 := Links([Cell(d, Null, 1, Null), Cell(c, 2, Null, Null), Cell(b, 0, 3, 1), Cell(a, 2, Null, Null)], 0);
    var z1 := Zig(h, 2).value;
    assert z1.cells[0] == w1.cells[0] && z1.cells[1] == w1.cells[1] && z1.cells[2] == w1.cells[2] && z1.cells[3] == w1.cells[3];
    assert z1.cells == w1.cells && z1.root == 0;
    var w := Links([Cell(d, Null, 1, Null), Cell(c, 2, Null, Null), Cell(b, 3, Null, 1), Cell(a, 0, Null, 2)], 0);
    var z2 := Zig(w1, 3).value;
    assert z2.cells[0] == w.cells[0] && z2.cells[1] == w.cells[1] && z2.cells[2] == w.cells[2] && z2.cells[3] == w.cells[3];
    assert z2.cells == w.cells && z2.root == 0;
    assert w.cells[w.cells[0].left].parent != 0;
  }

  /**
   * The stale link lasts one step: the next rotation is over the cell that
   * holds it and rewrites it. Inserting a into the chain d > c > b, splay
   * lifts a to the root in two steps and every link agrees again.
   */
  lemma SplayRepairsStaleLink(a: int, b: int, c: int, d: int)
    requires a < b < c < d
    ensures var s := Links([Cell(d, Null, 1, Null), Cell(c, 0, 2, Null), Cell(b, 1, Null, Null)], 0);
      var t := Links([Cell(d, 3, 2, Null), Cell(c, 2, Null, Null), Cell(b, 0, Null, 1), Cell(a, Null, Null, 0)], 3);
      Agree(s.cells) && Insert(s, a, 3) == Done(t) && Agree(t.cells)
  {
    var h := Links([Cell(d, Null, 1, Null), Cell(c, 0, 2, Null), Cell(b, 1, 3, Null), Cell(a, 2, Null, Null)], 0);
    ChainDescent(a, b, c, d);
    ZigZigLeavesStaleLink(a, b, c, d);
    var w := Links([Cell(d, Null, 1, Null), Cell(c, 2, Null, Null), Cell(b, 3, Null, 1), Cell(a, 0, Null, 2)], 0);
    assert SplayFrom(h, 3, 3) == SplayFrom(w, 3, 2);
    var t := Links([Cell(d, 3, 2, Null), Cell(c, 2, Null, Null), Cell(b, 0, Null, 1), Cell(a, Null, Null, 0)], 3);
    ZigToRoot(a, b, c, d);
    assert SplayFrom(w, 3, 2) == SplayFrom(t, 3, 1);
  }

  lemma ChainDescent(a: int, b: int, c: int, d: int)
    requires a < b < c < d
    ensures var s := Links([Cell(d, Null, 1, Null), Cell(c, 0, 2, Null), Cell(b, 1, Null, Null)], 0);
      Agree(s.cells) &&
      InnerInsert(s, a, 3) ==
        Some((Links([Cell(d, Null, 1, Null), Cell(c, 0, 2, Null), Cell(b, 1, 3, Null), Cell(a, 2, Null, Null)], 0), 3))
  {
    var s := Links([Cell(d, Null, 1, Null), Cell(c, 0, 2, Null), Cell(b, 1, Null, Null)], 0);
    var h := Links([Cell(d, Null, 1, Null), Cell(c, 0, 2, Null), Cell(b, 1, 3, Null), Cell(a, 2, Null, Null)], 0);
    assert s.cells[2 := Cell(b, 1, 3, Null)] + [Cell(a, 2, Null, Null)] == h.cells;
    assert Hang(s, 2, a, true) == (h, 3);
    assert Descend(s, 1, a, 2) == Descend(s, 2, a, 1);
  }

  lemma ZigToRoot(a: int, b: int, c: int, d: int)
    requires a < d
    ensures var w := Links([Cell(d, Null, 1, Null), Cell(c, 2, Null, Null), Cell(b, 3, Null, 1), Cell(a, 0, Null, 2)], 0);
      var t := Links([Cell(d, 3, 2, Null), Cell(c, 2, Null, Null), Cell(b, 0, Null, 1), Cell(a, Null, Null, 0)], 3);
      Zig(w, 3) == Some(t) && Agree(t.cells)
  {
    var w := Links([Cell(d, Null, 1, Null), Cell(c, 2, Null, Null), Cell(b, 3, Null, 1), Cell(a, 0, Null, 2)], 0);
    var t := Links([Cell(d, 3, 2, Null), Cell(c, 2, Null, Null), Cell(b, 0, Null, 1), Cell(a, Null, Null, 0)], 3);
    var z := Zig(w, 3).value;
    assert z.cells[0] == t.cells[0] && z.cells[1] == t.cells[1] && z.cells[2] == t.cells[2] && z.cells[3] == t.cells[3];
    assert z.cells == t.cells && z.root == 3;
  }
}
