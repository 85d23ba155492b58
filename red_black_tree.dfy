/**
 * The red-black tree of red_black_tree.cpp: insertion as a plain search-tree
 * descent that hangs a red node in an empty slot (inner_insert), followed by
 * the fix-up validate_tree, which recolours or rotates on the way up.
 *
 * The linked nodes are modelled as a tree value held by the class. A node
 * link becomes a zipper: the node's subtree together with the frames on
 * the way up to the root, each holding the parent's colour, key and other
 * child and the side the node hangs on. The parent link of the source is the
 * first frame.
 */
module RedBlack {

  datatype Option<T> = None | Some(value: T)

  datatype Color = Red | Black

  datatype Tree = Nil | Node(color: Color, data: int, left: Tree, right: Tree)

  /** A missing child counts as black. */
  function ColorOf(t: Tree): Color {
    if t.Nil? then Black else t.color
  }

  function Blacken(t: Tree): Tree {
    if t.Nil? then Nil else t.(color := Black)
  }

  function InOrder(t: Tree): seq<int> {
    match t
    case Nil => []
    case Node(_, d, l, r) => InOrder(l) + [d] + InOrder(r)
  }

  ghost predicate Sorted(s: seq<int>) {
    forall i, j :: 0 <= i < j < |s| ==> s[i] <= s[j]
  }

  ghost predicate StrictlySorted(s: seq<int>) {
    forall i, j :: 0 <= i < j < |s| ==> s[i] < s[j]
  }

  /** Black nodes on the leftmost path. */
  function BH(t: Tree): nat {
    match t
    case Nil => 0
    case Node(c, _, l, _) => BH(l) + (if c == Black then 1 else 0)
  }

  /** Every path from a node down to a missing child meets the same number of black nodes. */
  ghost predicate BlackBalanced(t: Tree) {
    match t
    case Nil => true
    case Node(_, _, l, r) => BlackBalanced(l) && BlackBalanced(r) && BH(l) == BH(r)
  }

  /** No red node has a red child. */
  ghost predicate RedOK(t: Tree) {
    match t
    case Nil => true
    case Node(c, _, l, r) =>
      RedOK(l) && RedOK(r) && (c == Red ==> ColorOf(l) == Black && ColorOf(r) == Black)
  }

  ghost predicate IsRedBlack(t: Tree) {
    ColorOf(t) == Black && RedOK(t) && BlackBalanced(t)
  }

  // ---------------------------------------------------------------------------
  // Positions in the tree

  datatype Side = Left | Right

  /** One step up from a node: the side it hangs on and its parent's colour, key and other child. */
  datatype Frame = Frame(side: Side, color: Color, data: int, other: Tree)

  function Attach(f: Frame, t: Tree): Tree {
    if f.side == Left then Node(f.color, f.data, t, f.other) else Node(f.color, f.data, f.other, t)
  }

  /** The whole tree, rebuilt from a subtree and the frames above it (the first frame is the parent). */
  function Plug(ctx: seq<Frame>, t: Tree): Tree
    decreases |ctx|
  {
    if ctx == [] then t else Plug(ctx[1..], Attach(ctx[0], t))
  }

  lemma PlugTwo(ctx: seq<Frame>, t: Tree)
    requires |ctx| >= 2
    ensures Plug(ctx, t) == Plug(ctx[2..], Attach(ctx[1], Attach(ctx[0], t)))
  {
    assert ctx[1..][1..] == ctx[2..];
  }

  lemma {:induction false} PlugInOrder(ctx: seq<Frame>, t: Tree, u: Tree)
    requires InOrder(t) == InOrder(u)
    ensures InOrder(Plug(ctx, t)) == InOrder(Plug(ctx, u))
    decreases |ctx|
  {
    if ctx != [] {
      PlugInOrder(ctx[1..], Attach(ctx[0], t), Attach(ctx[0], u));
    }
  }

  /** A subtree of a balanced, or red-correct, tree is one too. */
  lemma {:induction false} PlugSub(ctx: seq<Frame>, t: Tree)
    ensures BlackBalanced(Plug(ctx, t)) ==> BlackBalanced(t)
    ensures RedOK(Plug(ctx, t)) ==> RedOK(t)
    decreases |ctx|
  {
    if ctx != [] {
      PlugSub(ctx[1..], Attach(ctx[0], t));
    }
  }

  /** Swapping a subtree for a balanced one of the same black height keeps the tree balanced. */
  lemma {:induction false} PlugBalanced(ctx: seq<Frame>, t: Tree, u: Tree)
    requires BlackBalanced(Plug(ctx, t)) && BlackBalanced(u) && BH(u) == BH(t)
    ensures BlackBalanced(Plug(ctx, u))
    decreases |ctx|
  {
    if ctx != [] {
      var f := ctx[0];
      PlugSub(ctx[1..], Attach(f, t));
      assert BlackBalanced(Attach(f, u)) && BH(Attach(f, u)) == BH(Attach(f, t));
      PlugBalanced(ctx[1..], Attach(f, t), Attach(f, u));
    }
  }

  /** Swapping a subtree for a red-correct one that is black, or of the same colour, keeps the tree red-correct. */
  lemma {:induction false} PlugRed(ctx: seq<Frame>, t: Tree, u: Tree)
    requires RedOK(Plug(ctx, t)) && RedOK(u) && (ColorOf(u) == Black || ColorOf(u) == ColorOf(t))
    ensures RedOK(Plug(ctx, u))
    decreases |ctx|
  {
    if ctx != [] {
      var f := ctx[0];
      PlugSub(ctx[1..], Attach(f, t));
      assert RedOK(Attach(f, u));
      PlugRed(ctx[1..], Attach(f, t), Attach(f, u));
    }
  }

  /** Below the root, a subtree does not decide the root's colour. */
  lemma {:induction false} PlugColor(ctx: seq<Frame>, t: Tree, u: Tree)
    requires ctx != []
    ensures ColorOf(Plug(ctx, t)) == ColorOf(Plug(ctx, u))
    decreases |ctx|
  {
    if |ctx| > 1 {
      PlugColor(ctx[1..], Attach(ctx[0], t), Attach(ctx[0], u));
    }
  }

  // ---------------------------------------------------------------------------
  // Order

  lemma SortedSplit(a: seq<int>, x: int, b: seq<int>)
    requires Sorted(a + [x] + b)
    ensures Sorted(a) && Sorted(b)
    ensures (forall e | e in a :: e <= x) && (forall e | e in b :: x <= e)
  {
    var s := a + [x] + b;
    assert forall i | 0 <= i < |a| :: s[i] == a[i];
    assert forall i | 0 <= i < |b| :: s[|a| + 1 + i] == b[i];
    assert s[|a|] == x;
  }

  lemma SortedJoin(a: seq<int>, x: int, b: seq<int>)
    requires Sorted(a) && Sorted(b)
    requires (forall e | e in a :: e <= x) && (forall e | e in b :: x <= e)
    ensures Sorted(a + [x] + b)
  {
    var s := a + [x] + b;
    forall i, j | 0 <= i < j < |s|
      ensures s[i] <= s[j]
    {
      if j < |a| {
      } else if i < |a| {
        assert a[i] in a;
        if j > |a| {
          assert s[j] == b[j - |a| - 1] && b[j - |a| - 1] in b;
        }
      } else if i > |a| {
      } else {
        assert s[j] == b[j - |a| - 1] && b[j - |a| - 1] in b;
      }
    }
  }

  lemma StrictSplit(a: seq<int>, x: int, b: seq<int>)
    requires StrictlySorted(a + [x] + b)
    ensures StrictlySorted(a) && StrictlySorted(b)
    ensures (forall e | e in a :: e < x) && (forall e | e in b :: x < e)
  {
    var s := a + [x] + b;
    assert forall i | 0 <= i < |a| :: s[i] == a[i];
    assert forall i | 0 <= i < |b| :: s[|a| + 1 + i] == b[i];
    assert s[|a|] == x;
  }

  lemma KeyInOrder(t: Tree)
    requires t.Node?
    ensures t.data in InOrder(t)
  {
    assert InOrder(t)[|InOrder(t.left)|] == t.data;
  }

  /** Where distinct keys are in search-tree order, a child's key lies on its side of the parent's. */
  lemma AttachOrder(f: Frame, t: Tree)
    requires StrictlySorted(InOrder(Attach(f, t)))
    ensures StrictlySorted(InOrder(t))
    ensures t.Node? && f.side == Left ==> t.data < f.data
    ensures t.Node? && f.side == Right ==> f.data < t.data
  {
    if f.side == Left {
      StrictSplit(InOrder(t), f.data, InOrder(f.other));
    } else {
      StrictSplit(InOrder(f.other), f.data, InOrder(t));
    }
    if t.Node? {
      KeyInOrder(t);
    }
  }

  lemma {:induction false} PlugStrict(ctx: seq<Frame>, t: Tree)
    requires StrictlySorted(InOrder(Plug(ctx, t)))
    ensures StrictlySorted(InOrder(t))
    decreases |ctx|
  {
    if ctx != [] {
      PlugStrict(ctx[1..], Attach(ctx[0], t));
      AttachOrder(ctx[0], t);
    }
  }

  // ---------------------------------------------------------------------------
  // Insertion

  /** Search-tree insertion without any fix-up: smaller keys go left, equal or greater right. */
  function InsertTree(t: Tree, x: int): Tree {
    match t
    case Nil => Node(Red, x, Nil, Nil)
    case Node(c, d, l, r) =>
      if d > x then Node(c, d, InsertTree(l, x), r) else Node(c, d, l, InsertTree(r, x))
  }

  lemma {:induction false} InsertTreeKeys(t: Tree, x: int)
    ensures multiset(InOrder(InsertTree(t, x))) == multiset(InOrder(t)) + multiset{x}
  {
    match t
    case Nil =>
    case Node(c, d, l, r) =>
      if d > x {
        InsertTreeKeys(l, x);
        assert InOrder(InsertTree(t, x)) == InOrder(InsertTree(l, x)) + [d] + InOrder(r);
        assert multiset(InOrder(InsertTree(t, x)))
            == multiset(InOrder(InsertTree(l, x))) + multiset{d} + multiset(InOrder(r));
      } else {
        InsertTreeKeys(r, x);
        assert InOrder(InsertTree(t, x)) == InOrder(l) + [d] + InOrder(InsertTree(r, x));
        assert multiset(InOrder(InsertTree(t, x)))
            == multiset(InOrder(l)) + multiset{d} + multiset(InOrder(InsertTree(r, x)));
      }
  }

  lemma InsertTreeMember(t: Tree, x: int, e: int)
    requires e in InOrder(InsertTree(t, x))
    ensures e in InOrder(t) || e == x
  {
    InsertTreeKeys(t, x);
    assert e in multiset(InOrder(InsertTree(t, x)));
  }

  lemma {:induction false} InsertTreeSorted(t: Tree, x: int)
    requires Sorted(InOrder(t))
    ensures Sorted(InOrder(InsertTree(t, x)))
  {
    match t
    case Nil =>
    case Node(c, d, l, r) =>
      SortedSplit(InOrder(l), d, InOrder(r));
      if d > x {
        var a := InOrder(InsertTree(l, x));
        InsertTreeSorted(l, x);
        forall e | e in a
          ensures e <= d
        {
          InsertTreeMember(l, x, e);
        }
        SortedJoin(a, d, InOrder(r));
      } else {
        var b := InOrder(InsertTree(r, x));
        InsertTreeSorted(r, x);
        forall e | e in b
          ensures d <= e
        {
          InsertTreeMember(r, x, e);
        }
        SortedJoin(InOrder(l), d, b);
      }
  }

  /**
   * inner_insert (red_black_tree.cpp:325-335): the descent from a node whose
   * frames above are ctx; a missing child becomes a red node whose parent is
   * the last node passed. The result is the new node's position: it fills an
   * empty slot of the old tree, and the tree it completes is the search-tree
   * insertion of the key.
   */
  function InnerInsert(ctx: seq<Frame>, t: Tree, x: int): (r: (seq<Frame>, Tree))
    ensures r.1 == Node(Red, x, Nil, Nil)
    ensures Plug(r.0, Nil) == Plug(ctx, t)
    ensures Plug(r.0, r.1) == Plug(ctx, InsertTree(t, x))
    ensures |r.0| > |ctx| || t == Nil
    decreases t
  {
    match t
    case Nil => (ctx, Node(Red, x, Nil, Nil))
    case Node(c, d, l, r) =>
      if d > x then InnerInsert([Frame(Left, c, d, r)] + ctx, l, x)
      else InnerInsert([Frame(Right, c, d, l)] + ctx, r, x)
  }

  // ---------------------------------------------------------------------------
  // The fix-up

  /**
   * The state validate_tree works on: the node is red with black children,
   * the tree is balanced, the only red node that may have a red child is the
   * node's parent, and the root is black unless the node is the root.
   */
  ghost predicate FixInv(ctx: seq<Frame>, z: Tree) {
    z.Node? && z.color == Red && ColorOf(z.left) == Black && ColorOf(z.right) == Black && RedOK(z) &&
    BlackBalanced(Plug(ctx, z)) && RedOK(Plug(ctx, Blacken(z))) &&
    (ctx != [] ==> ColorOf(Plug(ctx, z)) == Black)
  }

  /** A fresh red node hung in an empty slot of a red-black tree starts the fix-up. */
  lemma FixStart(ctx: seq<Frame>, x: int)
    requires IsRedBlack(Plug(ctx, Nil))
    ensures FixInv(ctx, Node(Red, x, Nil, Nil))
  {
    var z := Node(Red, x, Nil, Nil);
    PlugBalanced(ctx, Nil, z);
    PlugRed(ctx, Nil, Blacken(z));
    if ctx != [] {
      PlugColor(ctx, Nil, z);
    }
  }

  /** The node is the root: blackening it gives a red-black tree (red_black_tree.cpp:285-289). */
  lemma FixAtRoot(z: Tree)
    requires FixInv([], z)
    ensures IsRedBlack(Blacken(z))
  {
  }

  /** A black parent: nothing is left to repair (red_black_tree.cpp:291-292). */
  lemma FixBlackParent(ctx: seq<Frame>, z: Tree)
    requires FixInv(ctx, z) && ctx != [] && ctx[0].color == Black
    ensures IsRedBlack(Plug(ctx, z))
  {
    var f := ctx[0];
    PlugSub(ctx[1..], Attach(f, Blacken(z)));
    assert RedOK(Attach(f, z));
    PlugRed(ctx[1..], Attach(f, Blacken(z)), Attach(f, z));
  }

  /** A red parent is not the root, since the root is black. */
  lemma RedParentHasParent(ctx: seq<Frame>, z: Tree)
    ensures |ctx| == 1 ==> ColorOf(Plug(ctx, z)) == ctx[0].color
  {
  }

  /** What the invariant says about the parent, the grandparent and the uncle of a node with a red parent. */
  lemma GrandFacts(ctx: seq<Frame>, z: Tree)
    requires FixInv(ctx, z) && |ctx| >= 2 && ctx[0].color == Red
    ensures var p, g := ctx[0], ctx[1];
      g.color == Black && ColorOf(p.other) == Black &&
      RedOK(p.other) && RedOK(g.other) && BlackBalanced(p.other) && BlackBalanced(g.other) &&
      BlackBalanced(z) && BH(p.other) == BH(z) && BH(g.other) == BH(z)
  {
    var p, g := ctx[0], ctx[1];
    PlugTwo(ctx, z);
    PlugTwo(ctx, Blacken(z));
    PlugSub(ctx[2..], Attach(g, Attach(p, z)));
    PlugSub(ctx[2..], Attach(g, Attach(p, Blacken(z))));
    assert RedOK(Attach(p, Blacken(z)));
    assert BlackBalanced(Attach(p, z)) && BH(Attach(p, z)) == BH(z);
  }

  /** A balanced, red-correct, black subtree of the grandparent's black height may take the grandparent's place. */
  lemma ReplaceGrand(ctx: seq<Frame>, z: Tree, n: Tree)
    requires FixInv(ctx, z) && |ctx| >= 2
    requires BlackBalanced(n) && RedOK(n) && ColorOf(n) == Black
    requires BH(n) == BH(Attach(ctx[1], Attach(ctx[0], z)))
    ensures IsRedBlack(Plug(ctx[2..], n))
  {
    var g := Attach(ctx[1], Attach(ctx[0], z));
    var g' := Attach(ctx[1], Attach(ctx[0], Blacken(z)));
    PlugTwo(ctx, z);
    PlugTwo(ctx, Blacken(z));
    PlugBalanced(ctx[2..], g, n);
    PlugRed(ctx[2..], g', n);
    if |ctx| > 2 {
      PlugColor(ctx[2..], g, n);
    }
  }

  /** The red-uncle step: parent and uncle turn black and the grandparent takes the colour c. */
  function Recoloured(ctx: seq<Frame>, z: Tree, c: Color): (n: Tree)
    requires |ctx| >= 2
    ensures n.Node? && n.color == c && InOrder(n) == InOrder(Attach(ctx[1], Attach(ctx[0], z)))
  {
    Attach(ctx[1].(other := Blacken(ctx[1].other), color := c), Attach(ctx[0].(color := Black), z))
  }

  /**
   * With a red uncle (red_black_tree.cpp:301-314), the recoloured
   * grandparent's subtree is a red-black tree when the grandparent is the
   * root, and otherwise, the grandparent turned red, the fix-up can go on
   * from it.
   */
  lemma RecolourRepairs(ctx: seq<Frame>, z: Tree)
    requires FixInv(ctx, z) && |ctx| >= 2 && ctx[0].color == Red && ColorOf(ctx[1].other) == Red
    ensures |ctx| == 2 ==> IsRedBlack(Recoloured(ctx, z, ctx[1].color))
    ensures |ctx| > 2 ==> FixInv(ctx[2..], Recoloured(ctx, z, Red))
  {
    GrandFacts(ctx, z);
    var p, g := ctx[0], ctx[1];
    var n := Recoloured(ctx, z, Black);
    var pb := Attach(p.(color := Black), z);
    assert BlackBalanced(pb) && RedOK(pb) && BH(pb) == BH(z) + 1;
    assert BlackBalanced(Blacken(g.other)) && RedOK(Blacken(g.other)) && BH(Blacken(g.other)) == BH(z) + 1;
    assert BlackBalanced(n) && RedOK(n) && n.color == Black && BH(n) == BH(z) + 2;
    assert BH(Attach(p, z)) == BH(z) && BH(Attach(g, Attach(p, z))) == BH(z) + 1;
    PlugTwo(ctx, z);
    if |ctx| > 2 {
      var nr := Recoloured(ctx, z, Red);
      assert Blacken(nr) == n;
      PlugTwo(ctx, Blacken(z));
      PlugRed(ctx[2..], Attach(g, Attach(p, Blacken(z))), n);
      PlugBalanced(ctx[2..], Attach(g, Attach(p, z)), nr);
      PlugColor(ctx[2..], Attach(g, Attach(p, z)), nr);
    }
  }

  /** rotate_right's rewrite: the node, the left child of the parent f, takes the parent's place. */
  function RotR(f: Frame, t: Tree, recolor: bool): (n: Tree)
    requires t.Node?
    ensures f.side == Left ==> InOrder(n) == InOrder(Attach(f, t))
  {
    Node(if recolor then Black else t.color, t.data, t.left,
         Node(if recolor then Red else f.color, f.data, t.right, f.other))
  }

  /** rotate_left's rewrite: the node, the right child of the parent f, takes the parent's place. */
  function RotL(f: Frame, t: Tree, recolor: bool): (n: Tree)
    requires t.Node?
    ensures f.side == Right ==> InOrder(n) == InOrder(Attach(f, t))
  {
    Node(if recolor then Black else t.color, t.data,
         Node(if recolor then Red else f.color, f.data, f.other, t.left), t.right)
  }

  /** The four cases of rotate, named by the rotation the source calls. */
  datatype Case = SingleRight | RightLeft | SingleLeft | LeftRight

  /** The case the shape calls for: the sides the node and its parent hang on. */
  function ShapeCase(ctx: seq<Frame>): Case
    requires |ctx| >= 2
  {
    if ctx[0].side == Left then (if ctx[1].side == Left then SingleRight else RightLeft)
    else (if ctx[1].side == Right then SingleLeft else LeftRight)
  }

  /** rotate's choice as written (red_black_tree.cpp:106-119): by comparing the keys. */
  function RotateChoice(ctx: seq<Frame>, z: Tree): (c: Case)
    requires |ctx| >= 2 && z.Node?
    ensures z.data == ctx[0].data == ctx[1].data ==> c == LeftRight
  {
    if z.data < ctx[0].data then (if ctx[0].data < ctx[1].data then SingleRight else RightLeft)
    else (if ctx[0].data > ctx[1].data then SingleLeft else LeftRight)
  }

  /** With distinct keys, comparing keys finds the shape. */
  lemma ChoiceMatchesShape(ctx: seq<Frame>, z: Tree)
    requires |ctx| >= 2 && z.Node? && StrictlySorted(InOrder(Plug(ctx, z)))
    ensures RotateChoice(ctx, z) == ShapeCase(ctx)
  {
    PlugTwo(ctx, z);
    PlugStrict(ctx[2..], Attach(ctx[1], Attach(ctx[0], z)));
    AttachOrder(ctx[1], Attach(ctx[0], z));
    AttachOrder(ctx[0], z);
  }

  /**
   * Three equal keys k: the third hangs right of the second, which hangs
   * right of the root, with no uncle; rotate's key comparisons read this as
   * the left-right case, while the shape is right-right.
   */
  lemma RepeatedKeyMisread(k: int)
    ensures var t := Node(Black, k, Nil, Node(Red, k, Nil, Nil));
      var (ctx, z) := InnerInsert([], t, k);
      IsRedBlack(t) && Sorted(InOrder(t)) &&
      ctx == [Frame(Right, Red, k, Nil), Frame(Right, Black, k, Nil)] &&
      FixInv(ctx, z) && ctx[0].color == Red && ColorOf(ctx[1].other) == Black &&
      RotateChoice(ctx, z) == LeftRight && ShapeCase(ctx) == SingleLeft
  {
    var t := Node(Black, k, Nil, Node(Red, k, Nil, Nil));
    var ctx := [Frame(Right, Red, k, Nil), Frame(Right, Black, k, Nil)];
    var z := Node(Red, k, Nil, Nil);
    assert [Frame(Right, Black, k, Nil)] + [] == [Frame(Right, Black, k, Nil)];
    assert InnerInsert([], t, k) == InnerInsert([Frame(Right, Black, k, Nil)], t.right, k);
    assert [Frame(Right, Red, k, Nil)] + [Frame(Right, Black, k, Nil)] == ctx;
    assert InOrder(t) == [k, k];
    FixStart(ctx, k);
  }

  /** The subtree rotate leaves in the grandparent's place, the case chosen by the shape. */
  function Rotated(ctx: seq<Frame>, z: Tree): (n: Tree)
    requires |ctx| >= 2 && z.Node?
    ensures InOrder(n) == InOrder(Attach(ctx[1], Attach(ctx[0], z)))
  {
    var p, g := ctx[0], ctx[1];
    match ShapeCase(ctx)
    case SingleRight => RotR(g, Attach(p, z), true)
    case SingleLeft => RotL(g, Attach(p, z), true)
    case LeftRight => RotR(g, RotL(p, z, false), true)
    case RightLeft => RotL(g, RotR(p, z, false), true)
  }

  /** With a black or missing uncle, one rotation repairs the tree (red_black_tree.cpp:297-300). */
  lemma RotateRepairs(ctx: seq<Frame>, z: Tree)
    requires FixInv(ctx, z) && |ctx| >= 2 && ctx[0].color == Red && ColorOf(ctx[1].other) == Black
    ensures IsRedBlack(Plug(ctx[2..], Rotated(ctx, z)))
  {
    GrandFacts(ctx, z);
    var p, g := ctx[0], ctx[1];
    var n := Rotated(ctx, z);
    assert BlackBalanced(Attach(g, Attach(p, z))) by {
      PlugTwo(ctx, z);
      PlugSub(ctx[2..], Attach(g, Attach(p, z)));
    }
    assert BH(Attach(p, z)) == BH(z) && BH(Attach(g, Attach(p, z))) == BH(z) + 1;
    assert BlackBalanced(z.left) && BlackBalanced(z.right) && BH(z.left) == BH(z) && BH(z.right) == BH(z);
    match ShapeCase(ctx) {
      case SingleRight =>
        var b := Node(Red, g.data, p.other, g.other);
        assert BlackBalanced(b) && RedOK(b) && BH(b) == BH(z);
        assert n == Node(Black, p.data, z, b);
      case SingleLeft =>
        var a := Node(Red, g.data, g.other, p.other);
        assert BlackBalanced(a) && RedOK(a) && BH(a) == BH(z);
        assert n == Node(Black, p.data, a, z);
      case LeftRight =>
        var a, b := Node(Red, p.data, p.other, z.left), Node(Red, g.data, z.right, g.other);
        assert BlackBalanced(a) && RedOK(a) && BH(a) == BH(z);
        assert BlackBalanced(b) && RedOK(b) && BH(b) == BH(z);
        assert n == Node(Black, z.data, a, b);
      case RightLeft =>
        var a, b := Node(Red, g.data, g.other, z.left), Node(Red, p.data, z.right, p.other);
        assert BlackBalanced(a) && RedOK(a) && BH(a) == BH(z);
        assert BlackBalanced(b) && RedOK(b) && BH(b) == BH(z);
        assert n == Node(Black, z.data, a, b);
    }
    assert BlackBalanced(n) && RedOK(n) && ColorOf(n) == Black && BH(n) == BH(z) + 1;
    ReplaceGrand(ctx, z, n);
  }

  /**
   * sibling (red_black_tree.cpp:218-230): no answer (the source throws) for
   * the root, since the root has no parent; otherwise the parent's child on
   * the side the key comparison says the node is not on.
   */
  function Sibling(ctx: seq<Frame>, t: Tree): (r: Option<Tree>)
    requires t.Node?
    ensures r.None? <==> ctx == []
    ensures ctx != [] && StrictlySorted(InOrder(Plug(ctx, t))) ==> r == Some(ctx[0].other)
  {
    if ctx == [] then None
    else
      ParentSide(ctx, t);
      var parent := Attach(ctx[0], t);
      if ctx[0].data > t.data then Some(parent.right) else Some(parent.left)
  }

  /** Where distinct keys are in search-tree order, the key comparison tells the side a node hangs on. */
  lemma ParentSide(ctx: seq<Frame>, t: Tree)
    requires ctx != [] && t.Node?
    ensures StrictlySorted(InOrder(Plug(ctx, t))) ==> (ctx[0].side == Left <==> ctx[0].data > t.data)
  {
    if StrictlySorted(InOrder(Plug(ctx, t))) {
      PlugStrict(ctx[1..], Attach(ctx[0], t));
      AttachOrder(ctx[0], t);
    }
  }

  // ---------------------------------------------------------------------------
  // The tree object

  class RedBlackTree {
    var root: Tree

    ghost predicate Valid()
      reads this
    {
      IsRedBlack(root) && Sorted(InOrder(root))
    }

    constructor()
      ensures Valid() && root == Nil
    {
      root := Nil;
    }

    /** isEmpty: no keys are stored. */
    function IsEmpty(): (b: bool)
      reads this
      ensures b <==> InOrder(root) == []
    {
      root.Nil?
    }

    /** insert: the search-tree descent, then the fix-up from the new node. */
    method Insert(x: int)
      requires Valid()
      modifies this
      ensures Valid()
      ensures InOrder(root) == InOrder(InsertTree(old(root), x))
      ensures multiset(InOrder(root)) == multiset(old(InOrder(root))) + multiset{x}
    {
      InsertTreeKeys(root, x);
      InsertTreeSorted(root, x);
      var (ctx, node) := InnerInsert([], root, x);
      FixStart(ctx, x);
      root := Plug(ctx, node);
      ValidateTree(ctx, node);
    }

    /** validate_tree (red_black_tree.cpp:282-315). */
    method ValidateTree(ctx: seq<Frame>, node: Tree)
      requires root == Plug(ctx, node) && FixInv(ctx, node)
      modifies this
      ensures IsRedBlack(root) && InOrder(root) == old(InOrder(root))
      decreases |ctx|
    {
      if ctx == [] {
        FixAtRoot(node);
        root := Blacken(node);
        return;
      }
      if ctx[0].color == Black {
        FixBlackParent(ctx, node);
        return;
      }
      RedParentHasParent(ctx, node);
      var parentSibling := ctx[1].other;
      if ColorOf(parentSibling) == Black {
        RotateRepairs(ctx, node);
        Rotate(ctx, node);
      } else {
        RecolourRepairs(ctx, node);
        PlugTwo(ctx, node);
        var lifted := Recoloured(ctx, node, ctx[1].color);
        PlugInOrder(ctx[2..], Attach(ctx[1], Attach(ctx[0], node)), lifted);
        root := Plug(ctx[2..], lifted);
        if |ctx| > 2 {
          lifted := Recoloured(ctx, node, Red);
          PlugInOrder(ctx[2..], Attach(ctx[1], Attach(ctx[0], node)), lifted);
          root := Plug(ctx[2..], lifted);
          ValidateTree(ctx[2..], lifted);
        } else {
          assert ctx[2..] == [];
        }
      }
    }

    /** rotate (red_black_tree.cpp:100-120), choosing by the shape. */
    method Rotate(ctx: seq<Frame>, node: Tree)
      requires root == Plug(ctx, node) && |ctx| >= 2 && node.Node?
      modifies this
      ensures root == Plug(ctx[2..], Rotated(ctx, node))
      ensures InOrder(root) == old(InOrder(root))
    {
      PlugTwo(ctx, node);
      PlugInOrder(ctx[2..], Attach(ctx[1], Attach(ctx[0], node)), Rotated(ctx, node));
      match ShapeCase(ctx)
      case SingleRight =>
        var _, _ := RotateRight(ctx[1..], Attach(ctx[0], node), true);
      case RightLeft =>
        RotateRightLeft(ctx, node);
      case SingleLeft =>
        var _, _ := RotateLeft(ctx[1..], Attach(ctx[0], node), true);
      case LeftRight =>
        RotateLeftRight(ctx, node);
    }

    /**
     * rotate_right (red_black_tree.cpp:122-161): the node, a left child,
     * takes its parent's place, the parent becomes its right child and the
     * node's right subtree the parent's left; with recolouring the node turns
     * black and the parent red. The result is the node's new position.
     */
    method RotateRight(ctx: seq<Frame>, node: Tree, recolor: bool) returns (up: seq<Frame>, top: Tree)
      requires root == Plug(ctx, node) && |ctx| >= 1 && ctx[0].side == Left && node.Node?
      modifies this
      ensures up == ctx[1..] && top == RotR(ctx[0], node, recolor) && root == Plug(up, top)
      ensures up == [] ==> root == top
      ensures InOrder(root) == old(InOrder(root))
    {
      var parent := ctx[0];
      var n := node;
      if recolor {
        n := n.(color := Black);
        parent := parent.(color := Red);
      }
      var lowered := Node(parent.color, parent.data, n.right, parent.other);
      top := n.(right := lowered);
      up := ctx[1..];
      PlugInOrder(up, Attach(ctx[0], node), top);
      root := Plug(up, top);
    }

    /** rotate_left (red_black_tree.cpp:163-202), the mirror image. */
    method RotateLeft(ctx: seq<Frame>, node: Tree, recolor: bool) returns (up: seq<Frame>, top: Tree)
      requires root == Plug(ctx, node) && |ctx| >= 1 && ctx[0].side == Right && node.Node?
      modifies this
      ensures up == ctx[1..] && top == RotL(ctx[0], node, recolor) && root == Plug(up, top)
      ensures up == [] ==> root == top
      ensures InOrder(root) == old(InOrder(root))
    {
      var parent := ctx[0];
      var n := node;
      if recolor {
        n := n.(color := Black);
        parent := parent.(color := Red);
      }
      var lowered := Node(parent.color, parent.data, parent.other, n.left);
      top := n.(left := lowered);
      up := ctx[1..];
      PlugInOrder(up, Attach(ctx[0], node), top);
      root := Plug(up, top);
    }

    /** rotate_left_right (red_black_tree.cpp:204-209): the node moves up twice. */
    method RotateLeftRight(ctx: seq<Frame>, node: Tree)
      requires root == Plug(ctx, node) && |ctx| >= 2 && ctx[0].side == Right && ctx[1].side == Left && node.Node?
      modifies this
      ensures root == Plug(ctx[2..], RotR(ctx[1], RotL(ctx[0], node, false), true))
      ensures InOrder(root) == old(InOrder(root))
    {
      var up, top := RotateLeft(ctx, node, false);
      up, top := RotateRight(up, top, true);
      assert ctx[1..][1..] == ctx[2..];
    }

    /** rotate_right_left (red_black_tree.cpp:211-216), the mirror image. */
    method RotateRightLeft(ctx: seq<Frame>, node: Tree)
      requires root == Plug(ctx, node) && |ctx| >= 2 && ctx[0].side == Left && ctx[1].side == Right && node.Node?
      modifies this
      ensures root == Plug(ctx[2..], RotL(ctx[1], RotR(ctx[0], node, false), true))
      ensures InOrder(root) == old(InOrder(root))
    {
      var up, top := RotateRight(ctx, node, false);
      up, top := RotateLeft(up, top, true);
      assert ctx[1..][1..] == ctx[2..];
    }
  }
}
