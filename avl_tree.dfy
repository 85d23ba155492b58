/**
 * AVL tree of integers (avl_tree.cpp).
 *
 * A node stores its key, its height and two subtrees; a missing subtree
 * counts as height 0. The source rewrites `Node*&` links in place; here every
 * recursive routine returns the subtree that takes the old one's place, and
 * the class `AVLTree` holds the root and reassigns it.
 *
 * Smaller keys go left and equal or greater keys go right, so the in-order
 * key sequence is non-decreasing (`Ordered`). Stored heights are correct
 * (`HeightsOK`) and, for trees built from distinct keys, every node's balance
 * factor lies in [-1, 1] (`Balanced`).
 */
module AVL {

  datatype Tree = Nil | Node(data: int, height: nat, left: Tree, right: Tree)

  /** The restructuring balance_tree may perform at one node. */
  datatype Rotation = Keep | Right | Left | LeftRight | RightLeft

  function Max(a: int, b: int): int { if a >= b then a else b }

  function Leaf(x: int): Tree { Node(x, 1, Nil, Nil) }

  /** Stored height, with a missing node counting 0. */
  function H(t: Tree): nat { if t.Nil? then 0 else t.height }

  function Size(t: Tree): nat
  {
    match t
    case Nil => 0
    case Node(_, _, l, r) => Size(l) + 1 + Size(r)
  }

  /** Real height, computed from the shape alone. */
  function Height(t: Tree): nat
  {
    match t
    case Nil => 0
    case Node(_, _, l, r) => 1 + Max(Height(l), Height(r))
  }

  function InOrder(t: Tree): seq<int>
  {
    match t
    case Nil => []
    case Node(d, _, l, r) => InOrder(l) + [d] + InOrder(r)
  }

  function Keys(t: Tree): multiset<int>
  {
    match t
    case Nil => multiset{}
    case Node(d, _, l, r) => Keys(l) + multiset{d} + Keys(r)
  }

  ghost predicate Sorted(s: seq<int>)
  {
    forall i, j :: 0 <= i < j < |s| ==> s[i] <= s[j]
  }

  /** Search-tree order: left keys are at most the node's key, right keys at least. */
  ghost predicate Ordered(t: Tree)
  {
    match t
    case Nil => true
    case Node(d, _, l, r) =>
      Ordered(l) && Ordered(r) &&
      (forall k | k in Keys(l) :: k <= d) &&
      (forall k | k in Keys(r) :: d <= k)
  }

  ghost predicate HeightsOK(t: Tree)
  {
    match t
    case Nil => true
    case Node(_, h, l, r) => HeightsOK(l) && HeightsOK(r) && h == 1 + Max(H(l), H(r))
  }

  ghost predicate ChildrenOK(n: Tree)
  {
    n.Node? && HeightsOK(n.left) && HeightsOK(n.right)
  }

  ghost predicate Balanced(t: Tree)
  {
    match t
    case Nil => true
    case Node(_, _, l, r) => Balanced(l) && Balanced(r) && -1 <= H(l) - H(r) <= 1
  }

  ghost predicate AVLShape(t: Tree)
  {
    HeightsOK(t) && Balanced(t)
  }

  /** calculate_height: one more than the taller child, a missing child counting 0. */
  function CalculateHeight(n: Tree): (h: nat)
    requires n.Node?
    ensures h == 1 + Max(H(n.left), H(n.right))
  {
    if n.left.Nil? && n.right.Nil? then 1
    else if n.left.Nil? then n.right.height + 1
    else if n.right.Nil? then n.left.height + 1
    else Max(n.left.height, n.right.height) + 1
  }

  /** balance_factor: left height minus right height, a missing child counting 0. */
  function BalanceFactor(n: Tree): (b: int)
    requires n.Node?
    ensures b == H(n.left) - H(n.right)
  {
    if n.left.Nil? && n.right.Nil? then 0
    else if n.left.Nil? then n.right.height * -1
    else if n.right.Nil? then n.left.height
    else n.left.height - n.right.height
  }

  /** `node->height = calculate_height(node)`. */
  function Recalc(n: Tree): (r: Tree)
    requires n.Node?
    ensures r.Node? && InOrder(r) == InOrder(n) && Keys(r) == Keys(n)
    ensures ChildrenOK(n) ==> HeightsOK(r)
  {
    n.(height := CalculateHeight(n))
  }

  /**
   * rotate_right: the left child takes the node's place and the node becomes
   * its right child; both moved nodes get fresh heights. Rotating about a
   * missing left child dereferences null in the source; here it leaves the
   * node as it is.
   */
  function RotateRight(n: Tree): (r: Tree)
    requires n.Node?
    ensures r.Node? && InOrder(r) == InOrder(n) && Keys(r) == Keys(n)
    ensures ChildrenOK(n) ==> ChildrenOK(r)
  {
    if n.left.Nil? then n
    else
      var pivot := n.left;
      var moved := Recalc(n.(left := pivot.right));
      Recalc(pivot.(right := moved))
  }

  /** rotate_left, the mirror image of rotate_right. */
  function RotateLeft(n: Tree): (r: Tree)
    requires n.Node?
    ensures r.Node? && InOrder(r) == InOrder(n) && Keys(r) == Keys(n)
    ensures ChildrenOK(n) ==> ChildrenOK(r)
  {
    if n.right.Nil? then n
    else
      var pivot := n.right;
      var moved := Recalc(n.(right := pivot.left));
      Recalc(pivot.(left := moved))
  }

  /** rotate_left_right: rotate the left child left, then the node right. */
  function RotateLeftRight(n: Tree): (r: Tree)
    requires n.Node?
    ensures r.Node? && InOrder(r) == InOrder(n) && Keys(r) == Keys(n)
    ensures ChildrenOK(n) ==> ChildrenOK(r)
  {
    var c := if n.left.Nil? then Nil else RotateLeft(n.left);
    RotateRight(n.(left := c))
  }

  /** rotate_right_left: rotate the right child right, then the node left. */
  function RotateRightLeft(n: Tree): (r: Tree)
    requires n.Node?
    ensures r.Node? && InOrder(r) == InOrder(n) && Keys(r) == Keys(n)
    ensures ChildrenOK(n) ==> ChildrenOK(r)
  {
    var c := if n.right.Nil? then Nil else RotateRight(n.right);
    RotateLeft(n.(right := c))
  }

  function Apply(c: Rotation, n: Tree): (r: Tree)
    requires n.Node?
    ensures r.Node? && InOrder(r) == InOrder(n) && Keys(r) == Keys(n)
    ensures ChildrenOK(n) ==> ChildrenOK(r)
  {
    match c
    case Keep => n
    case Right => RotateRight(n)
    case Left => RotateLeft(n)
    case LeftRight => RotateLeftRight(n)
    case RightLeft => RotateRightLeft(n)
  }

  /** The rotation balance_tree picks for an unbalanced node, by comparing the key with the heavy child. */
  function Choice(n: Tree, x: int): (c: Rotation)
    requires n.Node?
    ensures -1 <= BalanceFactor(n) <= 1 ==> c == Keep
    ensures (c == Right || c == LeftRight) ==> n.left.Node? && BalanceFactor(n) > 1
    ensures (c == Left || c == RightLeft) ==> n.right.Node? && BalanceFactor(n) < -1
  {
    var b := BalanceFactor(n);
    if n.left.Node? && x < n.left.data && b > 1 then Right
    else if n.right.Node? && x > n.right.data && b < -1 then Left
    else if n.left.Node? && x > n.left.data && b > 1 then LeftRight
    else if n.right.Node? && x < n.right.data && b < -1 then RightLeft
    else Keep
  }

  /** balance_tree as written: nothing happens inside [-1, 1], otherwise the chosen rotation and a fresh height. */
  function BalanceTree(n: Tree, x: int): (r: Tree)
    requires n.Node?
    ensures r.Node? && InOrder(r) == InOrder(n) && Keys(r) == Keys(n)
    ensures -1 <= BalanceFactor(n) <= 1 ==> r == n
    ensures HeightsOK(n) ==> HeightsOK(r)
  {
    if -1 <= BalanceFactor(n) <= 1 then n
    else Recalc(Apply(Choice(n, x), n))
  }

  /** balance_tree would rotate about a child that is missing, i.e. dereference null. */
  predicate Dereferences(n: Tree, x: int)
    requires n.Node?
    ensures Dereferences(n, x) ==> n.left.Node? || n.right.Node?
  {
    !(-1 <= BalanceFactor(n) <= 1) &&
    ((Choice(n, x) == LeftRight && n.left.Node? && n.left.right.Nil?) ||
     (Choice(n, x) == RightLeft && n.right.Node? && n.right.left.Nil?))
  }

  /**
   * The standard rebalancing step: the rotation is chosen by the heavy
   * child's own balance factor, so no key is consulted.
   */
  function ChildChoice(n: Tree): Rotation
    requires n.Node?
  {
    if BalanceFactor(n) > 1 then
      (if n.left.Node? && BalanceFactor(n.left) < 0 then LeftRight else Right)
    else
      (if n.right.Node? && BalanceFactor(n.right) > 0 then RightLeft else Left)
  }

  function Rebalance(n: Tree): (r: Tree)
    requires n.Node?
    ensures r.Node? && InOrder(r) == InOrder(n) && Keys(r) == Keys(n)
    ensures -1 <= BalanceFactor(n) <= 1 ==> r == n
    ensures HeightsOK(n) ==> HeightsOK(r)
  {
    if -1 <= BalanceFactor(n) <= 1 then n
    else Recalc(Apply(ChildChoice(n), n))
  }

  /** inner_insert: smaller keys go left, equal or greater right; heights are refreshed and the node rebalanced. */
  function InnerInsert(t: Tree, x: int): (r: Tree)
    ensures r.Node?
    ensures HeightsOK(t) ==> HeightsOK(r)
  {
    match t
    case Nil => Leaf(x)
    case Node(d, _, l, r) =>
      var n := if x < d then t.(left := InnerInsert(l, x)) else t.(right := InnerInsert(r, x));
      BalanceTree(Recalc(n), x)
  }

  /** inner_find: a search-tree descent. */
  function InnerFind(t: Tree, x: int): (found: bool)
    ensures Ordered(t) ==> (found <==> x in Keys(t))
  {
    match t
    case Nil => false
    case Node(d, _, l, r) =>
      if x < d then InnerFind(l, x)
      else if x > d then InnerFind(r, x)
      else true
  }

  /** find_max: the key of the rightmost node. */
  function FindMax(t: Tree): (m: int)
    requires t.Node?
    ensures m in Keys(t)
    ensures Ordered(t) ==> forall k | k in Keys(t) :: k <= m
  {
    if t.right.Nil? then t.data else FindMax(t.right)
  }

  /** find_min: the key of the leftmost node. */
  function FindMin(t: Tree): (m: int)
    requires t.Node?
    ensures m in Keys(t)
    ensures Ordered(t) ==> forall k | k in Keys(t) :: m <= k
  {
    if t.left.Nil? then t.data else FindMin(t.left)
  }

  /** The write half of the swap with find_max's node: the rightmost key becomes v. */
  function SetMax(t: Tree, v: int): (r: Tree)
    requires t.Node?
    ensures r.Node? && Size(r) == Size(t) && H(r) == H(t)
    ensures HeightsOK(t) ==> HeightsOK(r)
    ensures Balanced(t) ==> Balanced(r)
  {
    if t.right.Nil? then t.(data := v) else t.(right := SetMax(t.right, v))
  }

  /** The write half of the swap with find_min's node: the leftmost key becomes v. */
  function SetMin(t: Tree, v: int): (r: Tree)
    requires t.Node?
    ensures r.Node? && Size(r) == Size(t) && H(r) == H(t)
    ensures HeightsOK(t) ==> HeightsOK(r)
    ensures Balanced(t) ==> Balanced(r)
  {
    if t.left.Nil? then t.(data := v) else t.(left := SetMin(t.left, v))
  }

  /**
   * inner_remove with the corrected rebalancing step: a leaf holding the key
   * is deleted; another node holding it takes its predecessor's key (or its
   * successor's when there is no left subtree), and the key, now in the
   * predecessor's place, is removed from that subtree.
   */
  function InnerRemove(t: Tree, x: int): (r: Tree)
    ensures HeightsOK(t) ==> HeightsOK(r)
    decreases Size(t)
  {
    match t
    case Nil => Nil
    case Node(d, h, l, r) =>
      if x < d then Rebalance(Recalc(t.(left := InnerRemove(l, x))))
      else if x > d then Rebalance(Recalc(t.(right := InnerRemove(r, x))))
      else if l.Nil? && r.Nil? then Nil
      else if l.Node? then Rebalance(Recalc(Node(FindMax(l), h, InnerRemove(SetMax(l, d), d), r)))
      else Rebalance(Recalc(Node(FindMin(r), h, l, InnerRemove(SetMin(r, d), d))))
  }

  // ---------------------------------------------------------------------------
  // Keys and order

  lemma {:induction false} KeysInOrder(t: Tree)
    ensures Keys(t) == multiset(InOrder(t))
  {
    match t
    case Nil =>
    case Node(d, _, l, r) =>
      KeysInOrder(l);
      KeysInOrder(r);
      assert InOrder(t) == InOrder(l) + [d] + InOrder(r);
  }

  lemma SortedJoin(a: seq<int>, d: int, b: seq<int>)
    requires Sorted(a) && Sorted(b)
    requires forall k | k in a :: k <= d
    requires forall k | k in b :: d <= k
    ensures Sorted(a + [d] + b)
  {
    var s := a + [d] + b;
    forall i, j | 0 <= i < j < |s| ensures s[i] <= s[j] {
      if j < |a| {
        assert s[i] == a[i] && s[j] == a[j];
      } else if i > |a| {
        assert s[i] == b[i - |a| - 1] && s[j] == b[j - |a| - 1];
      } else {
        if i < |a| {
          assert s[i] == a[i] && a[i] in a;
        }
        if j > |a| {
          assert s[j] == b[j - |a| - 1] && b[j - |a| - 1] in b;
        }
      }
    }
  }

  lemma SortedSplit(a: seq<int>, d: int, b: seq<int>)
    requires Sorted(a + [d] + b)
    ensures Sorted(a) && Sorted(b)
    ensures forall k | k in a :: k <= d
    ensures forall k | k in b :: d <= k
  {
    var s := a + [d] + b;
    forall i, j | 0 <= i < j < |a| ensures a[i] <= a[j] {
      assert a[i] == s[i] && a[j] == s[j];
    }
    forall i, j | 0 <= i < j < |b| ensures b[i] <= b[j] {
      assert b[i] == s[i + |a| + 1] && b[j] == s[j + |a| + 1];
    }
    forall k | k in a ensures k <= d {
      var i :| 0 <= i < |a| && a[i] == k;
      assert s[i] == k && s[|a|] == d;
    }
    forall k | k in b ensures d <= k {
      var i :| 0 <= i < |b| && b[i] == k;
      assert s[i + |a| + 1] == k && s[|a|] == d;
    }
  }

  lemma {:induction false} OrderedSorted(t: Tree)
    requires Ordered(t)
    ensures Sorted(InOrder(t))
  {
    match t
    case Nil =>
    case Node(d, _, l, r) =>
      OrderedSorted(l);
      OrderedSorted(r);
      KeysInOrder(l);
      KeysInOrder(r);
      forall k | k in InOrder(l) ensures k <= d {
        assert k in Keys(l);
      }
      forall k | k in InOrder(r) ensures d <= k {
        assert k in Keys(r);
      }
      SortedJoin(InOrder(l), d, InOrder(r));
  }

  lemma {:induction false} SortedOrdered(t: Tree)
    requires Sorted(InOrder(t))
    ensures Ordered(t)
  {
    match t
    case Nil =>
    case Node(d, _, l, r) =>
      assert InOrder(t) == InOrder(l) + [d] + InOrder(r);
      SortedSplit(InOrder(l), d, InOrder(r));
      SortedOrdered(l);
      SortedOrdered(r);
      KeysInOrder(l);
      KeysInOrder(r);
      forall k | k in Keys(l) ensures k <= d {
        assert k in InOrder(l);
      }
      forall k | k in Keys(r) ensures d <= k {
        assert k in InOrder(r);
      }
  }

  /** The search-tree order is exactly a non-decreasing in-order sequence. */
  lemma OrderedIffSorted(t: Tree)
    ensures Ordered(t) <==> Sorted(InOrder(t))
  {
    if Ordered(t) {
      OrderedSorted(t);
    }
    if Sorted(InOrder(t)) {
      SortedOrdered(t);
    }
  }

  /** Trees with the same in-order sequence are ordered alike. */
  lemma SameOrder(a: Tree, b: Tree)
    requires InOrder(a) == InOrder(b)
    ensures Ordered(a) <==> Ordered(b)
  {
    OrderedIffSorted(a);
    OrderedIffSorted(b);
  }

  /** Stored heights of a tree with correct heights are its real heights. */
  lemma {:induction false} StoredHeightIsHeight(t: Tree)
    requires HeightsOK(t)
    ensures H(t) == Height(t)
  {
    match t
    case Nil =>
    case Node(_, _, l, r) =>
      StoredHeightIsHeight(l);
      StoredHeightIsHeight(r);
  }

  /** The in-order sequence inner_insert leaves at a node: the subtree that received the key, rebalanced. */
  lemma InsertStep(t: Tree, x: int)
    requires t.Node?
    ensures x < t.data ==> InOrder(InnerInsert(t, x)) == InOrder(InnerInsert(t.left, x)) + [t.data] + InOrder(t.right)
    ensures x >= t.data ==> InOrder(InnerInsert(t, x)) == InOrder(t.left) + [t.data] + InOrder(InnerInsert(t.right, x))
  {
  }

  /** inner_insert adds exactly the key. */
  lemma {:induction false} InsertKeys(t: Tree, x: int)
    ensures Keys(InnerInsert(t, x)) == Keys(t) + multiset{x}
  {
    if t.Node? {
      if x < t.data {
        InsertKeys(t.left, x);
      } else {
        InsertKeys(t.right, x);
      }
    }
  }

  /** inner_insert keeps the search-tree order: smaller keys left, equal or greater right. */
  lemma {:induction false} InsertOrdered(t: Tree, x: int)
    requires Ordered(t)
    ensures Ordered(InnerInsert(t, x))
  {
    match t
    case Nil =>
    case Node(d, _, l, r) =>
      if x < d {
        InsertOrdered(l, x);
        InsertKeys(l, x);
        InsertOrderedLeft(t, x);
      } else {
        InsertOrdered(r, x);
        InsertKeys(r, x);
        InsertOrderedRight(t, x);
      }
  }

  lemma InsertOrderedLeft(t: Tree, x: int)
    requires t.Node? && Ordered(t) && x < t.data
    requires Ordered(InnerInsert(t.left, x)) && Keys(InnerInsert(t.left, x)) == Keys(t.left) + multiset{x}
    ensures Ordered(InnerInsert(t, x))
  {
    var n := t.(left := InnerInsert(t.left, x));
    GraftOrderedLeft(t, InnerInsert(t.left, x), x);
    InsertStep(t, x);
    SameOrder(n, InnerInsert(t, x));
  }

  lemma InsertOrderedRight(t: Tree, x: int)
    requires t.Node? && Ordered(t) && x >= t.data
    requires Ordered(InnerInsert(t.right, x)) && Keys(InnerInsert(t.right, x)) == Keys(t.right) + multiset{x}
    ensures Ordered(InnerInsert(t, x))
  {
    var n := t.(right := InnerInsert(t.right, x));
    GraftOrderedRight(t, InnerInsert(t.right, x), x);
    InsertStep(t, x);
    SameOrder(n, InnerInsert(t, x));
  }

  /** An ordered subtree holding one more key, on the correct side of the root, keeps the tree ordered. */
  lemma GraftOrderedLeft(t: Tree, l: Tree, x: int)
    requires t.Node? && Ordered(t) && Ordered(l) && x <= t.data
    requires Keys(l) == Keys(t.left) + multiset{x}
    ensures Ordered(t.(left := l))
  {
    forall k | k in Keys(l)
      ensures k <= t.data
    {
      assert k in Keys(t.left) || k == x;
    }
  }

  lemma GraftOrderedRight(t: Tree, r: Tree, x: int)
    requires t.Node? && Ordered(t) && Ordered(r) && t.data <= x
    requires Keys(r) == Keys(t.right) + multiset{x}
    ensures Ordered(t.(right := r))
  {
    forall k | k in Keys(r)
      ensures t.data <= k
    {
      assert k in Keys(t.right) || k == x;
    }
  }

  // ---------------------------------------------------------------------------
  // Rotations repair a two-level imbalance

  lemma RotateRightRepairs(n: Tree)
    requires n.Node? && n.left.Node? && AVLShape(n.left) && AVLShape(n.right)
    requires H(n.left) == H(n.right) + 2 && BalanceFactor(n.left) >= 0
    ensures var r := Recalc(RotateRight(n));
      AVLShape(r) && H(r) == H(n.left) + (if BalanceFactor(n.left) == 0 then 1 else 0)
  {
  }

  lemma RotateLeftRepairs(n: Tree)
    requires n.Node? && n.right.Node? && AVLShape(n.left) && AVLShape(n.right)
    requires H(n.right) == H(n.left) + 2 && BalanceFactor(n.right) <= 0
    ensures var r := Recalc(RotateLeft(n));
      AVLShape(r) && H(r) == H(n.right) + (if BalanceFactor(n.right) == 0 then 1 else 0)
  {
  }

  lemma RotateLeftRightRepairs(n: Tree)
    requires n.Node? && n.left.Node? && AVLShape(n.left) && AVLShape(n.right)
    requires H(n.left) == H(n.right) + 2 && BalanceFactor(n.left) < 0
    ensures var r := Recalc(RotateLeftRight(n));
      AVLShape(r) && H(r) == H(n.left)
  {
    var l := n.left;
    var m := l.right;
    assert HeightsOK(l) && Balanced(l);
    assert -1 <= H(l.left) - H(m) < 0 && H(l) == 1 + Max(H(l.left), H(m));
    assert m.Node? && HeightsOK(m) && Balanced(m);
    assert H(l) == H(m) + 1 && H(l.left) == H(m) - 1;
    assert H(m.left) >= H(m) - 2 && H(m.right) >= H(m) - 2;
    var a := Recalc(Node(l.data, l.height, l.left, m.left));
    var b := Recalc(Node(n.data, n.height, m.right, n.right));
    assert RotateLeft(l) == Recalc(Node(m.data, m.height, a, m.right));
    assert RotateLeftRight(n) == Recalc(Node(m.data, H(RotateLeft(l)), a, b));
    assert AVLShape(a) && H(a) == H(m);
    assert AVLShape(b) && H(b) == H(m);
  }

  lemma RotateRightLeftRepairs(n: Tree)
    requires n.Node? && n.right.Node? && AVLShape(n.left) && AVLShape(n.right)
    requires H(n.right) == H(n.left) + 2 && BalanceFactor(n.right) > 0
    ensures var r := Recalc(RotateRightLeft(n));
      AVLShape(r) && H(r) == H(n.right)
  {
    var rt := n.right;
    var m := rt.left;
    assert HeightsOK(rt) && Balanced(rt);
    assert -1 <= H(rt.right) - H(m) < 0 && H(rt) == 1 + Max(H(m), H(rt.right));
    assert m.Node? && HeightsOK(m) && Balanced(m);
    assert H(rt) == H(m) + 1 && H(rt.right) == H(m) - 1;
    assert H(m.left) >= H(m) - 2 && H(m.right) >= H(m) - 2;
    var a := Recalc(Node(n.data, n.height, n.left, m.left));
    var b := Recalc(Node(rt.data, rt.height, m.right, rt.right));
    assert RotateRight(rt) == Recalc(Node(m.data, m.height, m.left, b));
    assert RotateRightLeft(n) == Recalc(Node(m.data, H(RotateRight(rt)), a, b));
    assert AVLShape(a) && H(a) == H(m);
    assert AVLShape(b) && H(b) == H(m);
  }

  // ---------------------------------------------------------------------------
  // Insertion keeps the tree balanced when the key is new

  /**
   * How one insertion changes a subtree: its height grows by at most one, and
   * when it grows, its root is the old root leaning towards the new key.
   */
  ghost predicate Grew(t: Tree, x: int, r: Tree)
  {
    r.Node? && (H(r) == H(t) || H(r) == H(t) + 1) &&
    (t.Node? && H(r) == H(t) + 1 ==>
      r.data == t.data &&
      (x < t.data ==> H(r.left) == H(r.right) + 1) &&
      (x > t.data ==> H(r.right) == H(r.left) + 1))
  }

  /** For a key not yet present, insertion into an AVL tree leaves every balance factor in [-1, 1]. */
  lemma {:induction false} InsertBalanced(t: Tree, x: int)
    requires AVLShape(t) && x !in Keys(t)
    ensures AVLShape(InnerInsert(t, x)) && Grew(t, x, InnerInsert(t, x))
    decreases t, 1
  {
    if t.Node? {
      if x < t.data {
        InsertBalanced(t.left, x);
        InsertLeftBalanced(t, x);
      } else {
        InsertBalanced(t.right, x);
        InsertRightBalanced(t, x);
      }
    }
  }

  lemma InsertLeftBalanced(t: Tree, x: int)
    requires t.Node? && AVLShape(t) && x !in Keys(t) && x < t.data
    requires AVLShape(InnerInsert(t.left, x)) && Grew(t.left, x, InnerInsert(t.left, x))
    ensures AVLShape(InnerInsert(t, x)) && Grew(t, x, InnerInsert(t, x))
  {
    var l := t.left;
    var grown := InnerInsert(l, x);
    var n := Recalc(t.(left := grown));
    assert InnerInsert(t, x) == BalanceTree(n, x);
    if BalanceFactor(n) > 1 {
      assert l.Node? && H(grown) == H(l) + 1;
      assert x != l.data;
      if x < l.data {
        assert Choice(n, x) == Right;
        RotateRightRepairs(n);
      } else {
        assert Choice(n, x) == LeftRight;
        RotateLeftRightRepairs(n);
      }
    }
  }

  lemma InsertRightBalanced(t: Tree, x: int)
    requires t.Node? && AVLShape(t) && x !in Keys(t) && x >= t.data
    requires AVLShape(InnerInsert(t.right, x)) && Grew(t.right, x, InnerInsert(t.right, x))
    ensures AVLShape(InnerInsert(t, x)) && Grew(t, x, InnerInsert(t, x))
  {
    var r := t.right;
    var grown := InnerInsert(r, x);
    var n := Recalc(t.(right := grown));
    assert InnerInsert(t, x) == BalanceTree(n, x);
    if BalanceFactor(n) < -1 {
      assert r.Node? && H(grown) == H(r) + 1;
      assert x != r.data;
      if x > r.data {
        assert Choice(n, x) == Left;
        RotateLeftRepairs(n);
      } else {
        assert Choice(n, x) == RightLeft;
        RotateRightLeftRepairs(n);
      }
    }
  }

  // ---------------------------------------------------------------------------
  // Removal

  // Multiset algebra, kept apart from the tree functions.

  lemma ExchangeUnder(p: multiset<int>, q: multiset<int>, x: multiset<int>, y: multiset<int>, b: multiset<int>)
    requires x + q == y + p
    ensures b + x + q == b + y + p
  {
    forall o ensures (b + x + q)[o] == (b + y + p)[o] {
      assert (x + q)[o] == (y + p)[o];
    }
  }

  lemma ExchangeOver(p: multiset<int>, q: multiset<int>, x: multiset<int>, y: multiset<int>, c: multiset<int>, b: multiset<int>)
    requires x + q == y + p
    ensures x + c + b + q == y + c + b + p
  {
    forall o ensures (x + c + b + q)[o] == (y + c + b + p)[o] {
      assert (x + q)[o] == (y + p)[o];
    }
  }

  lemma SwapCancels(rest: multiset<int>, mid: multiset<int>, orig: multiset<int>, b: multiset<int>, d: int, m: int)
    requires rest + multiset{d} == mid && mid + multiset{m} == orig + multiset{d}
    ensures rest + multiset{m} + b + multiset{d} == orig + multiset{d} + b
    ensures b + multiset{m} + rest + multiset{d} == b + multiset{d} + orig
  {
    forall o ensures (rest + multiset{m} + b + multiset{d})[o] == (orig + multiset{d} + b)[o] {
      assert (rest + multiset{d})[o] == mid[o];
      assert (mid + multiset{m})[o] == (orig + multiset{d})[o];
    }
    forall o ensures (b + multiset{m} + rest + multiset{d})[o] == (b + multiset{d} + orig)[o] {
      assert (rest + multiset{d})[o] == mid[o];
      assert (mid + multiset{m})[o] == (orig + multiset{d})[o];
    }
  }

  /** After the swap, what remains of the predecessor's subtree still lies below the new key m. */
  lemma SwapBoundBelow(rest: multiset<int>, mid: multiset<int>, orig: multiset<int>, d: int, m: int)
    requires rest + multiset{d} == mid && mid + multiset{m} == orig + multiset{d}
    requires m <= d && forall k | k in orig :: k <= m
    ensures forall k | k in rest :: k <= m
  {
    forall k | k in rest ensures k <= m {
      assert (rest + multiset{d})[k] == mid[k];
      assert (mid + multiset{m})[k] == (orig + multiset{d})[k];
      if k != m {
        assert orig[k] >= 1;
      }
    }
  }

  /** After the swap, what remains of the successor's subtree still lies above the new key m. */
  lemma SwapBoundAbove(rest: multiset<int>, mid: multiset<int>, orig: multiset<int>, d: int, m: int)
    requires rest + multiset{d} == mid && mid + multiset{m} == orig + multiset{d}
    requires d <= m && forall k | k in orig :: m <= k
    ensures forall k | k in rest :: m <= k
  {
    forall k | k in rest ensures m <= k {
      assert (rest + multiset{d})[k] == mid[k];
      assert (mid + multiset{m})[k] == (orig + multiset{d})[k];
      if k != m {
        assert orig[k] >= 1;
      }
    }
  }

  /** The swap with find_max's node trades the largest key for v. */
  lemma {:induction false} SetMaxKeys(t: Tree, v: int)
    requires t.Node?
    ensures Keys(SetMax(t, v)) + multiset{FindMax(t)} == Keys(t) + multiset{v}
    ensures v in Keys(SetMax(t, v))
  {
    match t
    case Node(d, h, l, r) =>
      if r.Nil? {
        assert SetMax(t, v) == Node(v, h, l, Nil);
      } else {
        SetMaxKeys(r, v);
        assert SetMax(t, v) == Node(d, h, l, SetMax(r, v));
        ExchangeUnder(multiset{v}, multiset{FindMax(r)}, Keys(SetMax(r, v)), Keys(r), Keys(l) + multiset{d});
      }
  }

  /** When v bounds every key, writing it over the largest key keeps the order. */
  lemma {:induction false} SetMaxOrdered(t: Tree, v: int)
    requires t.Node? && Ordered(t)
    requires forall k | k in Keys(t) :: k <= v
    ensures Ordered(SetMax(t, v))
  {
    match t
    case Node(d, h, l, r) =>
      assert d in Keys(t);
      if r.Nil? {
        assert SetMax(t, v) == Node(v, h, l, Nil);
      } else {
        forall k | k in Keys(r) ensures k <= v {
          assert k in Keys(t);
        }
        SetMaxOrdered(r, v);
        SetMaxKeys(r, v);
        forall k | k in Keys(SetMax(r, v)) ensures d <= k {
          assert k in Keys(r) + multiset{v};
        }
        assert SetMax(t, v) == Node(d, h, l, SetMax(r, v));
      }
  }

  /** The swap with find_min's node trades the smallest key for v. */
  lemma {:induction false} SetMinKeys(t: Tree, v: int)
    requires t.Node?
    ensures Keys(SetMin(t, v)) + multiset{FindMin(t)} == Keys(t) + multiset{v}
    ensures v in Keys(SetMin(t, v))
  {
    match t
    case Node(d, h, l, r) =>
      if l.Nil? {
        assert SetMin(t, v) == Node(v, h, Nil, r);
      } else {
        SetMinKeys(l, v);
        assert SetMin(t, v) == Node(d, h, SetMin(l, v), r);
        ExchangeOver(multiset{v}, multiset{FindMin(l)}, Keys(SetMin(l, v)), Keys(l), multiset{d}, Keys(r));
      }
  }

  /** When every key bounds v, writing it over the smallest key keeps the order. */
  lemma {:induction false} SetMinOrdered(t: Tree, v: int)
    requires t.Node? && Ordered(t)
    requires forall k | k in Keys(t) :: v <= k
    ensures Ordered(SetMin(t, v))
  {
    match t
    case Node(d, h, l, r) =>
      assert d in Keys(t);
      if l.Nil? {
        assert SetMin(t, v) == Node(v, h, Nil, r);
      } else {
        forall k | k in Keys(l) ensures v <= k {
          assert k in Keys(t);
        }
        SetMinOrdered(l, v);
        SetMinKeys(l, v);
        forall k | k in Keys(SetMin(l, v)) ensures k <= d {
          assert k in Keys(l) + multiset{v};
        }
        assert SetMin(t, v) == Node(d, h, SetMin(l, v), r);
      }
  }

  /** inner_remove takes out exactly one occurrence of a present key and leaves the keys alone otherwise. */
  lemma {:induction false} RemoveKeys(t: Tree, x: int)
    requires Ordered(t)
    ensures x in Keys(t) ==> Keys(InnerRemove(t, x)) + multiset{x} == Keys(t)
    ensures x !in Keys(t) ==> Keys(InnerRemove(t, x)) == Keys(t)
    decreases Size(t)
  {
    match t
    case Nil =>
    case Node(d, h, l, r) =>
      if x < d {
        RemoveKeys(l, x);
        RemoveKeysLeft(t, x);
      } else if x > d {
        RemoveKeys(r, x);
        RemoveKeysRight(t, x);
      } else if l.Nil? && r.Nil? {
      } else if l.Node? {
        SetMaxKeys(l, d);
        SetMaxOrdered(l, d);
        RemoveKeys(SetMax(l, d), d);
        RemoveKeysSwapMax(t);
      } else {
        SetMinKeys(r, d);
        SetMinOrdered(r, d);
        RemoveKeys(SetMin(r, d), d);
        RemoveKeysSwapMin(t);
      }
  }

  lemma RemoveKeysLeft(t: Tree, x: int)
    requires t.Node? && Ordered(t) && x < t.data
    requires x in Keys(t.left) ==> Keys(InnerRemove(t.left, x)) + multiset{x} == Keys(t.left)
    requires x !in Keys(t.left) ==> Keys(InnerRemove(t.left, x)) == Keys(t.left)
    ensures x in Keys(t) ==> Keys(InnerRemove(t, x)) + multiset{x} == Keys(t)
    ensures x !in Keys(t) ==> Keys(InnerRemove(t, x)) == Keys(t)
  {
    var n := t.(left := InnerRemove(t.left, x));
    assert InnerRemove(t, x) == Rebalance(Recalc(n));
    assert x !in Keys(t.right);
    if x in Keys(t.left) {
      ExchangeOver(Keys(t.left), multiset{x}, Keys(InnerRemove(t.left, x)), multiset{}, multiset{t.data}, Keys(t.right));
    }
  }

  lemma RemoveKeysRight(t: Tree, x: int)
    requires t.Node? && Ordered(t) && x > t.data
    requires x in Keys(t.right) ==> Keys(InnerRemove(t.right, x)) + multiset{x} == Keys(t.right)
    requires x !in Keys(t.right) ==> Keys(InnerRemove(t.right, x)) == Keys(t.right)
    ensures x in Keys(t) ==> Keys(InnerRemove(t, x)) + multiset{x} == Keys(t)
    ensures x !in Keys(t) ==> Keys(InnerRemove(t, x)) == Keys(t)
  {
    var n := t.(right := InnerRemove(t.right, x));
    assert InnerRemove(t, x) == Rebalance(Recalc(n));
    assert x !in Keys(t.left);
    if x in Keys(t.right) {
      ExchangeUnder(Keys(t.right), multiset{x}, Keys(InnerRemove(t.right, x)), multiset{}, Keys(t.left) + multiset{t.data});
    }
  }

  /** The rebuilt node after trading the key for its predecessor's holds every key but one occurrence of it. */
  lemma RemoveKeysSwapMax(t: Tree)
    requires t.Node? && t.left.Node?
    requires Keys(SetMax(t.left, t.data)) + multiset{FindMax(t.left)} == Keys(t.left) + multiset{t.data}
    requires Keys(InnerRemove(SetMax(t.left, t.data), t.data)) + multiset{t.data} == Keys(SetMax(t.left, t.data))
    ensures Keys(InnerRemove(t, t.data)) + multiset{t.data} == Keys(t)
  {
    var rest := InnerRemove(SetMax(t.left, t.data), t.data);
    var n := Node(FindMax(t.left), t.height, rest, t.right);
    assert InnerRemove(t, t.data) == Rebalance(Recalc(n));
    SwapCancels(Keys(rest), Keys(SetMax(t.left, t.data)), Keys(t.left), Keys(t.right), t.data, FindMax(t.left));
  }

  /** The rebuilt node after trading the key for its successor's holds every key but one occurrence of it. */
  lemma RemoveKeysSwapMin(t: Tree)
    requires t.Node? && t.left.Nil? && t.right.Node?
    requires Keys(SetMin(t.right, t.data)) + multiset{FindMin(t.right)} == Keys(t.right) + multiset{t.data}
    requires Keys(InnerRemove(SetMin(t.right, t.data), t.data)) + multiset{t.data} == Keys(SetMin(t.right, t.data))
    ensures Keys(InnerRemove(t, t.data)) + multiset{t.data} == Keys(t)
  {
    var rest := InnerRemove(SetMin(t.right, t.data), t.data);
    var n := Node(FindMin(t.right), t.height, Nil, rest);
    assert InnerRemove(t, t.data) == Rebalance(Recalc(n));
    SwapCancels(Keys(rest), Keys(SetMin(t.right, t.data)), Keys(t.right), multiset{}, t.data, FindMin(t.right));
  }

  /** inner_remove keeps the search-tree order. */
  lemma {:induction false} RemoveOrdered(t: Tree, x: int)
    requires Ordered(t)
    ensures Ordered(InnerRemove(t, x))
    decreases Size(t)
  {
    match t
    case Nil =>
    case Node(d, h, l, r) =>
      if x < d {
        RemoveOrdered(l, x);
        RemoveSubset(l, x);
        RemoveOrderedLeft(t, x);
      } else if x > d {
        RemoveOrdered(r, x);
        RemoveSubset(r, x);
        RemoveOrderedRight(t, x);
      } else if l.Nil? && r.Nil? {
      } else if l.Node? {
        SetMaxOrdered(l, d);
        RemoveOrdered(SetMax(l, d), d);
        SwapMaxOrdered(t);
      } else {
        SetMinOrdered(r, d);
        RemoveOrdered(SetMin(r, d), d);
        SwapMinOrdered(t);
      }
  }

  lemma RemoveSubset(t: Tree, x: int)
    requires Ordered(t)
    ensures Keys(InnerRemove(t, x)) <= Keys(t)
  {
    RemoveKeys(t, x);
  }

  lemma RemoveOrderedLeft(t: Tree, x: int)
    requires t.Node? && Ordered(t) && x < t.data
    requires Ordered(InnerRemove(t.left, x)) && Keys(InnerRemove(t.left, x)) <= Keys(t.left)
    ensures Ordered(InnerRemove(t, x))
  {
    var n := t.(left := InnerRemove(t.left, x));
    assert InnerRemove(t, x) == Rebalance(Recalc(n));
    forall k | k in Keys(n.left) ensures k <= t.data {
      assert k in Keys(t.left);
    }
    RebuiltOrdered(n);
  }

  lemma RemoveOrderedRight(t: Tree, x: int)
    requires t.Node? && Ordered(t) && x > t.data
    requires Ordered(InnerRemove(t.right, x)) && Keys(InnerRemove(t.right, x)) <= Keys(t.right)
    ensures Ordered(InnerRemove(t, x))
  {
    var n := t.(right := InnerRemove(t.right, x));
    assert InnerRemove(t, x) == Rebalance(Recalc(n));
    forall k | k in Keys(n.right) ensures t.data <= k {
      assert k in Keys(t.right);
    }
    RebuiltOrdered(n);
  }

  lemma RebuiltOrdered(n: Tree)
    requires n.Node? && Ordered(n)
    ensures Ordered(Rebalance(Recalc(n)))
  {
    SameOrder(n, Rebalance(Recalc(n)));
  }

  /** The node inner_remove rebuilds after trading its key for its predecessor's. */
  lemma SwapMaxOrdered(t: Tree)
    requires t.Node? && t.left.Node? && Ordered(t)
    requires Ordered(InnerRemove(SetMax(t.left, t.data), t.data))
    ensures Ordered(InnerRemove(t, t.data))
  {
    var d, l := t.data, t.left;
    var m := FindMax(l);
    var l0 := SetMax(l, d);
    var rest := InnerRemove(l0, d);
    SetMaxKeys(l, d);
    SetMaxOrdered(l, d);
    RemoveKeys(l0, d);
    SwapBoundBelow(Keys(rest), Keys(l0), Keys(l), d, m);
    var n := Node(m, t.height, rest, t.right);
    assert InnerRemove(t, d) == Rebalance(Recalc(n));
    RebuiltOrdered(n);
  }

  /** The node inner_remove rebuilds after trading its key for its successor's. */
  lemma SwapMinOrdered(t: Tree)
    requires t.Node? && t.left.Nil? && t.right.Node? && Ordered(t)
    requires Ordered(InnerRemove(SetMin(t.right, t.data), t.data))
    ensures Ordered(InnerRemove(t, t.data))
  {
    var d, r := t.data, t.right;
    var m := FindMin(r);
    var r0 := SetMin(r, d);
    var rest := InnerRemove(r0, d);
    SetMinKeys(r, d);
    SetMinOrdered(r, d);
    RemoveKeys(r0, d);
    SwapBoundAbove(Keys(rest), Keys(r0), Keys(r), d, m);
    var n := Node(m, t.height, Nil, rest);
    assert InnerRemove(t, d) == Rebalance(Recalc(n));
    RebuiltOrdered(n);
  }

  /** The rebalancing step repairs any imbalance of at most two levels, losing at most one level of height. */
  lemma RebalanceRepairs(n: Tree)
    requires n.Node? && AVLShape(n.left) && AVLShape(n.right)
    requires -2 <= H(n.left) - H(n.right) <= 2
    ensures var r := Rebalance(Recalc(n)); var m := 1 + Max(H(n.left), H(n.right));
      AVLShape(r) && m - 1 <= H(r) <= m &&
      (-1 <= H(n.left) - H(n.right) <= 1 ==> H(r) == m)
  {
    var c := Recalc(n);
    if H(n.left) - H(n.right) == 2 {
      if BalanceFactor(n.left) < 0 {
        RotateLeftRightRepairs(c);
      } else {
        RotateRightRepairs(c);
      }
    } else if H(n.left) - H(n.right) == -2 {
      if BalanceFactor(n.right) > 0 {
        RotateRightLeftRepairs(c);
      } else {
        RotateLeftRepairs(c);
      }
    }
  }

  /** Replacing the left subtree by one at most a level shorter, then rebalancing, keeps the AVL shape. */
  lemma ShrinkLeft(t: Tree, n: Tree)
    requires t.Node? && AVLShape(t) && n.Node? && n.right == t.right && AVLShape(n.left)
    requires H(t.left) - 1 <= H(n.left) <= H(t.left)
    ensures var r := Rebalance(Recalc(n)); AVLShape(r) && H(t) - 1 <= H(r) <= H(t)
  {
    RebalanceRepairs(n);
  }

  /** Replacing the right subtree by one at most a level shorter, then rebalancing, keeps the AVL shape. */
  lemma ShrinkRight(t: Tree, n: Tree)
    requires t.Node? && AVLShape(t) && n.Node? && n.left == t.left && AVLShape(n.right)
    requires H(t.right) - 1 <= H(n.right) <= H(t.right)
    ensures var r := Rebalance(Recalc(n)); AVLShape(r) && H(t) - 1 <= H(r) <= H(t)
  {
    RebalanceRepairs(n);
  }

  /** Removal keeps the AVL shape and lowers the height by at most one. */
  lemma {:induction false} RemoveBalanced(t: Tree, x: int)
    requires AVLShape(t)
    ensures AVLShape(InnerRemove(t, x)) && H(t) - 1 <= H(InnerRemove(t, x)) <= H(t)
    decreases Size(t)
  {
    match t
    case Nil =>
    case Node(d, h, l, r) =>
      if x < d {
        RemoveBalanced(l, x);
        ShrinkLeft(t, t.(left := InnerRemove(l, x)));
      } else if x > d {
        RemoveBalanced(r, x);
        ShrinkRight(t, t.(right := InnerRemove(r, x)));
      } else if l.Nil? && r.Nil? {
      } else if l.Node? {
        RemoveBalanced(SetMax(l, d), d);
        ShrinkLeft(t, Node(FindMax(l), h, InnerRemove(SetMax(l, d), d), r));
      } else {
        RemoveBalanced(SetMin(r, d), d);
        ShrinkRight(t, Node(FindMin(r), h, l, InnerRemove(SetMin(r, d), d)));
      }
  }

  /** Removing an absent key from an AVL tree changes nothing. */
  lemma {:induction false} RemoveAbsent(t: Tree, x: int)
    requires AVLShape(t) && x !in Keys(t)
    ensures InnerRemove(t, x) == t
  {
    match t
    case Nil =>
    case Node(d, _, l, r) =>
      assert x != d && AVLShape(l) && AVLShape(r);
      if x < d {
        assert InnerRemove(t, x) == Rebalance(Recalc(t.(left := InnerRemove(l, x))));
        RemoveAbsent(l, x);
      } else {
        assert InnerRemove(t, x) == Rebalance(Recalc(t.(right := InnerRemove(r, x))));
        RemoveAbsent(r, x);
      }
      SettledNode(t);
  }

  /** At an AVL node the height refresh and the rebalancing step change nothing. */
  lemma SettledNode(t: Tree)
    requires t.Node? && AVLShape(t)
    ensures Rebalance(Recalc(t)) == t
  {
    assert Recalc(t) == t;
  }

  // ---------------------------------------------------------------------------
  // Concrete behaviour

  /**
   * remove(d) on the AVL tree c(b(a), d), for any keys a < b < c < d (for
   * instance 2(1(0), 3) and remove(3)): once the leaf d is gone, the root
   * leans two levels left, and balance_tree, comparing d with the left
   * child's key b, picks rotate_left_right, whose rotate_left needs node b's
   * right child, which is missing.
   */
  lemma RemoveReachesNullRotation(a: int, b: int, c: int, d: int)
    requires a < b < c < d
    ensures var t := Node(c, 3, Node(b, 2, Leaf(a), Nil), Leaf(d));
      AVLShape(t) && Ordered(t) && InnerRemove(t.right, d) == Nil &&
      Dereferences(Recalc(t.(right := Nil)), d)
  {
    var l := Node(b, 2, Leaf(a), Nil);
    var t := Node(c, 3, l, Leaf(d));
    assert InOrder(Nil) == [] && [] + [a] + [] == [a] && [] + [d] + [] == [d];
    assert InOrder(Leaf(a)) == [a] && InOrder(Leaf(d)) == [d];
    assert InOrder(l) == [a, b];
    assert InOrder(t) == [a, b] + [c] + [d];
    assert HeightsOK(Nil) && Balanced(Nil) && H(Nil) == 0 && Max(0, 0) == 0;
    assert AVLShape(Leaf(a)) && H(Leaf(a)) == 1 && AVLShape(Leaf(d)) && H(Leaf(d)) == 1;
    assert AVLShape(l) && H(l) == 2;
    assert InOrder(t) == [a, b, c, d];
    OrderedIffSorted(t);
    var n := Recalc(t.(right := Nil));
    assert n == Node(c, 3, l, Nil);
    assert BalanceFactor(n) == 2;
    assert Choice(n, d) == LeftRight;
  }

  /** The corrected step on the same tree: a single right rotation gives b(a, c). */
  lemma RemoveRebalancesExample(a: int, b: int, c: int, d: int)
    requires a < b < c < d
    ensures InnerRemove(Node(c, 3, Node(b, 2, Leaf(a), Nil), Leaf(d)), d) == Node(b, 2, Leaf(a), Leaf(c))
  {
    var t := Node(c, 3, Node(b, 2, Leaf(a), Nil), Leaf(d));
    var n := Recalc(t.(right := Nil));
    assert InnerRemove(t, d) == Rebalance(n);
    assert ChildChoice(n) == Right;
  }

  /**
   * Inserting the key k into the leaf k twice: equal keys go right, the root
   * ends two levels right-heavy, and no branch of balance_tree applies, since
   * k is neither greater nor smaller than the right child's key.
   */
  lemma RepeatedKeyUnbalanced(k: int)
    ensures var t := InnerInsert(InnerInsert(Leaf(k), k), k);
      t == Node(k, 3, Nil, Node(k, 2, Nil, Leaf(k))) && !Balanced(t)
  {
    var m := Node(k, 1, Nil, Leaf(k));
    assert InnerInsert(Leaf(k), k) == BalanceTree(Recalc(m), k);
    assert CalculateHeight(m) == 2;
    assert BalanceFactor(Recalc(m)) == -1;
    var once := InnerInsert(Leaf(k), k);
    assert once == Node(k, 2, Nil, Leaf(k));
    var n := Recalc(Node(k, 2, Nil, InnerInsert(once.right, k)));
    assert InnerInsert(once.right, k) == once;
    assert Choice(n, k) == Keep;
  }

  // ---------------------------------------------------------------------------
  // The tree object

  class AVLTree {
    var root: Tree

    ghost predicate Valid()
      reads this
    {
      Ordered(root) && HeightsOK(root)
    }

    /** AVL_Tree(data): a single node. */
    constructor(data: int)
      ensures Valid() && AVLShape(root) && Keys(root) == multiset{data}
    {
      root := Leaf(data);
    }

    /** insert: the key is added; an AVL tree stays AVL when the key is new. */
    method Insert(data: int)
      requires Valid()
      modifies this
      ensures Valid() && root == InnerInsert(old(root), data)
      ensures Keys(root) == old(Keys(root)) + multiset{data}
      ensures old(AVLShape(root)) && data !in old(Keys(root)) ==> AVLShape(root)
    {
      InsertKeys(root, data);
      InsertOrdered(root, data);
      if AVLShape(root) && data !in Keys(root) {
        InsertBalanced(root, data);
      }
      root := InnerInsert(root, data);
    }

    /** remove: one occurrence of the key goes; an absent key leaves an AVL tree as it was. */
    method Remove(data: int)
      requires Valid()
      modifies this
      ensures Valid() && root == InnerRemove(old(root), data)
      ensures data in old(Keys(root)) ==> Keys(root) + multiset{data} == old(Keys(root))
      ensures data !in old(Keys(root)) ==> Keys(root) == old(Keys(root))
      ensures old(AVLShape(root)) ==> AVLShape(root)
      ensures old(AVLShape(root)) && data !in old(Keys(root)) ==> root == old(root)
    {
      RemoveKeys(root, data);
      RemoveOrdered(root, data);
      if AVLShape(root) {
        RemoveBalanced(root, data);
        if data !in Keys(root) {
          RemoveAbsent(root, data);
        }
      }
      root := InnerRemove(root, data);
    }

    /** find: whether the key is stored. */
    method Find(data: int) returns (found: bool)
      requires Valid()
      ensures found <==> data in Keys(root)
    {
      found := InnerFind(root, data);
    }
  }

  /** main: nine fresh keys keep the tree AVL; after removing 42, 5 is absent until it is inserted. */
  method Demonstration() returns (found: seq<bool>)
    ensures found == [false, true]
  {
    var tree := new AVLTree(42);
    tree.Insert(56);
    assert 5 !in Keys(tree.root);
    tree.Insert(37);
    assert 5 !in Keys(tree.root);
    tree.Insert(65);
    assert 5 !in Keys(tree.root);
    tree.Insert(39);
    assert 5 !in Keys(tree.root);
    tree.Insert(15);
    assert 5 !in Keys(tree.root);
    tree.Insert(10);
    assert 5 !in Keys(tree.root);
    tree.Insert(8);
    assert 5 !in Keys(tree.root);
    tree.Insert(83);
    assert 5 !in Keys(tree.root);
    tree.Remove(42);
    var before := tree.Find(5);
    tree.Insert(5);
    var after := tree.Find(5);
    found := [before, after];
  }
}
