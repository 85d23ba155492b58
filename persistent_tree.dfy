/**
 * The persistent sum segment tree of persistent_tree.cpp. A version is an
 * immutable tree over slots 0 .. SIZE-1: a leaf holds one slot's value and an
 * inner node the sum of its two halves, split at the midpoint (l + r) / 2.
 * `set` copies the nodes on the path to one leaf and shares every other
 * subtree with the old version, which it never changes. Nodes are values
 * here, so sharing shows as equality of the subtrees hanging off the path.
 */
module PersistentTree {
  import opened Sums

  datatype Node =
    | Leaf(data: int)
    | Branch(data: int, left: Node, right: Node)

  /** The split point of the range [l, r] (size_t arithmetic, never negative). */
  function Mid(l: nat, r: nat): nat { (l + r) / 2 }

  /** The number of leaves. */
  function Width(t: Node): (w: nat)
    ensures w >= 1
  {
    match t
    case Leaf(_) => 1
    case Branch(_, a, b) => Width(a) + Width(b)
  }

  /** The values of the leaves, left to right. */
  function Leaves(t: Node): (s: seq<int>)
    ensures |s| == Width(t)
  {
    match t
    case Leaf(d) => [d]
    case Branch(_, a, b) => Leaves(a) + Leaves(b)
  }

  /**
   * Splitting [l, r] at the midpoint gives the left half the larger share:
   * in every inner node the left subtree has as many leaves as the right one
   * or one more.
   */
  ghost predicate Balanced(t: Node) {
    match t
    case Leaf(_) => true
    case Branch(_, a, b) => 0 <= Width(a) - Width(b) <= 1 && Balanced(a) && Balanced(b)
  }

  /** t has the shape inner_create_tree gives the range [l, r]: one leaf per slot, halves split at the midpoint. */
  ghost predicate Spans(t: Node, l: nat, r: nat) {
    l <= r && Width(t) == r - l + 1 && Balanced(t)
  }

  /** The halves of a spanning inner node span the two halves of its range. */
  lemma SpansHalves(t: Node, l: nat, r: nat)
    requires Spans(t, l, r) && l < r
    ensures t.Branch? && Spans(t.left, l, Mid(l, r)) && Spans(t.right, Mid(l, r) + 1, r)
  {
  }

  /** And two spanning halves under a fresh inner node span the whole range. */
  lemma SpansJoin(d: int, a: Node, b: Node, l: nat, r: nat)
    requires l < r && Spans(a, l, Mid(l, r)) && Spans(b, Mid(l, r) + 1, r)
    ensures Spans(Branch(d, a, b), l, r)
  {
  }

  /** Every inner node holds the sum of its two children. */
  ghost predicate Summed(t: Node) {
    match t
    case Leaf(_) => true
    case Branch(d, a, b) => d == a.data + b.data && Summed(a) && Summed(b)
  }

  /** So every node holds the sum of the leaves below it. */
  lemma {:induction false} SummedTotal(t: Node)
    requires Summed(t)
    ensures t.data == Sum(Leaves(t))
  {
    if t.Branch? {
      SummedTotal(t.left);
      SummedTotal(t.right);
      SumConcat(Leaves(t.left), Leaves(t.right));
    }
  }

  /** inner_create_tree (persistent_tree.cpp:111-127) over values[l..r]. */
  function CreateTree(values: seq<int>, l: nat, r: nat): (t: Node)
    requires l <= r < |values|
    ensures Spans(t, l, r) && Summed(t) && Leaves(t) == values[l..r + 1]
    decreases r - l
  {
    if l == r then
      Leaf(values[l])
    else
      var a := CreateTree(values, l, Mid(l, r));
      var b := CreateTree(values, Mid(l, r) + 1, r);
      SpansJoin(a.data + b.data, a, b, l, r);
      assert values[l..r + 1] == values[l..Mid(l, r) + 1] + values[Mid(l, r) + 1..r + 1];
      Branch(a.data + b.data, a, b)
  }

  /** The leaf inner_set reaches for `index` in [l, r]: an index left of the range ends at l, one right of it at r. */
  function Target(index: nat, l: nat, r: nat): (p: nat)
    requires l <= r
    ensures l <= p <= r
    ensures l <= index <= r ==> p == index
  {
    if index <= l then l else if index >= r then r else index
  }

  /** Going left at the midpoint or right of it lands on the same leaf as going to the half the target is in. */
  lemma TargetHalves(index: nat, l: nat, r: nat)
    requires l < r
    ensures index <= Mid(l, r) ==> Target(index, l, r) == Target(index, l, Mid(l, r))
    ensures index > Mid(l, r) ==> Target(index, l, r) == Target(index, Mid(l, r) + 1, r)
  {
  }

  /** The subtrees hanging off the path from the root of t (over [l, r]) to the leaf at slot p, top down. */
  function OffPath(t: Node, p: nat, l: nat, r: nat): seq<Node>
    decreases t
  {
    match t
    case Leaf(_) => []
    case Branch(_, a, b) =>
      if p <= Mid(l, r) then [b] + OffPath(a, p, l, Mid(l, r)) else [a] + OffPath(b, p, Mid(l, r) + 1, r)
  }

  /** Replacing an entry of the first part of a concatenation. */
  lemma UpdateFront(a: seq<int>, b: seq<int>, k: nat, x: int)
    requires k < |a|
    ensures (a + b)[k := x] == a[k := x] + b
  {
  }

  /** Replacing an entry of the second part of a concatenation. */
  lemma UpdateBack(a: seq<int>, b: seq<int>, k: nat, x: int)
    requires |a| <= k < |a| + |b|
    ensures (a + b)[k := x] == a + b[k - |a| := x]
  {
  }

  /**
   * inner_set (persistent_tree.cpp:78-102): a fresh node for every range on
   * the path to the target leaf, which takes `value`; the sibling of each
   * fresh node is the old version's subtree. What it keeps and changes is
   * stated by the four lemmas that follow.
   */
  function InnerSet(t: Node, index: nat, value: int, l: nat, r: nat): (u: Node)
    requires Spans(t, l, r)
    ensures u.Leaf? <==> l == r
    decreases r - l
  {
    if l == r then
      Leaf(value)
    else
      var m := Mid(l, r);
      SpansHalves(t, l, r);
      if index <= m then
        var a := InnerSet(t.left, index, value, l, m);
        Branch(a.data + t.right.data, a, t.right)
      else
        var b := InnerSet(t.right, index, value, m + 1, r);
        Branch(t.left.data + b.data, t.left, b)
  }

  /** The new version has the old one's shape. */
  lemma {:induction false} InnerSetSpans(t: Node, index: nat, value: int, l: nat, r: nat)
    requires Spans(t, l, r)
    ensures Spans(InnerSet(t, index, value, l, r), l, r)
    decreases r - l
  {
    if l < r {
      SpansHalves(t, l, r);
      var m := Mid(l, r);
      var t' := InnerSet(t, index, value, l, r);
      if index <= m {
        InnerSetSpans(t.left, index, value, l, m);
        SpansJoin(t'.data, t'.left, t.right, l, r);
      } else {
        InnerSetSpans(t.right, index, value, m + 1, r);
        SpansJoin(t'.data, t.left, t'.right, l, r);
      }
    }
  }

  /** The new version's leaves are the old ones with the target leaf replaced by `value`. */
  lemma InnerSetLeaves(t: Node, index: nat, value: int, l: nat, r: nat)
    requires Spans(t, l, r)
    ensures Leaves(InnerSet(t, index, value, l, r)) == Leaves(t)[Target(index, l, r) - l := value]
  {
    SetsLeavesEverywhere(t, index, value, l, r);
  }

  /** InnerSetLeaves by induction on the range, with the fact kept folded in SetsLeaves. */
  lemma {:induction false} SetsLeavesEverywhere(t: Node, index: nat, value: int, l: nat, r: nat)
    requires Spans(t, l, r)
    ensures SetsLeaves(t, index, value, l, r)
    decreases r - l
  {
    if l == r {
      LeafSetsLeaves(t, index, value, l);
    } else if index <= Mid(l, r) {
      SpansHalves(t, l, r);
      SetsLeavesEverywhere(t.left, index, value, l, Mid(l, r));
      LeavesLeft(t, index, value, l, r);
    } else {
      SpansHalves(t, l, r);
      SetsLeavesEverywhere(t.right, index, value, Mid(l, r) + 1, r);
      LeavesRight(t, index, value, l, r);
    }
  }

  /** A one-slot range: the leaf is replaced by value. */
  lemma LeafSetsLeaves(t: Node, index: nat, value: int, l: nat)
    requires Spans(t, l, l)
    ensures SetsLeaves(t, index, value, l, l)
  {
    assert t.Leaf?;
  }

  /** InnerSetLeaves for one tree and range, as a single fact. */
  ghost predicate SetsLeaves(t: Node, index: nat, value: int, l: nat, r: nat) {
    Spans(t, l, r) && Leaves(InnerSet(t, index, value, l, r)) == Leaves(t)[Target(index, l, r) - l := value]
  }

  /** One step of InnerSetLeaves when the target lies in the left half. */
  lemma LeavesLeft(t: Node, index: nat, value: int, l: nat, r: nat)
    requires l < r && t.Branch? && Spans(t, l, r) && index <= Mid(l, r)
    requires SetsLeaves(t.left, index, value, l, Mid(l, r))
    ensures SetsLeaves(t, index, value, l, r)
  {
    TargetHalves(index, l, r);
    var t' := InnerSet(t, index, value, l, r);
    assert t'.left == InnerSet(t.left, index, value, l, Mid(l, r)) && t'.right == t.right;
    UpdateFront(Leaves(t.left), Leaves(t.right), Target(index, l, r) - l, value);
  }

  /** One step of InnerSetLeaves when the target lies in the right half. */
  lemma LeavesRight(t: Node, index: nat, value: int, l: nat, r: nat)
    requires l < r && t.Branch? && Spans(t, l, r) && index > Mid(l, r)
    requires SetsLeaves(t.right, index, value, Mid(l, r) + 1, r)
    ensures SetsLeaves(t, index, value, l, r)
  {
    TargetHalves(index, l, r);
    var t' := InnerSet(t, index, value, l, r);
    assert t'.left == t.left && t'.right == InnerSet(t.right, index, value, Mid(l, r) + 1, r);
    UpdateBack(Leaves(t.left), Leaves(t.right), Target(index, l, r) - l, value);
  }

  /** Every subtree off the path to the target is the old version's own: inner_set shares it, never copies it. */
  lemma {:induction false} InnerSetShares(t: Node, index: nat, value: int, l: nat, r: nat)
    requires Spans(t, l, r)
    ensures OffPath(InnerSet(t, index, value, l, r), Target(index, l, r), l, r) == OffPath(t, Target(index, l, r), l, r)
    decreases r - l
  {
    if l < r {
      SpansHalves(t, l, r);
      TargetHalves(index, l, r);
      if index <= Mid(l, r) {
        InnerSetShares(t.left, index, value, l, Mid(l, r));
      } else {
        InnerSetShares(t.right, index, value, Mid(l, r) + 1, r);
      }
    }
  }

  /** Every fresh inner node is the sum of its children, so sums everywhere survive a set. */
  lemma {:induction false} InnerSetSums(t: Node, index: nat, value: int, l: nat, r: nat)
    requires Spans(t, l, r) && Summed(t)
    ensures Summed(InnerSet(t, index, value, l, r))
    decreases r - l
  {
    if l < r {
      SpansHalves(t, l, r);
      if index <= Mid(l, r) {
        InnerSetSums(t.left, index, value, l, Mid(l, r));
      } else {
        InnerSetSums(t.right, index, value, Mid(l, r) + 1, r);
      }
    }
  }

  /** A PerTree version: its root spans the slots 0 .. size-1 and every inner node is a sum. */
  datatype PerTree = PerTree(root: Node, size: nat) {
    ghost predicate Valid() {
      size >= 1 && Spans(root, 0, size - 1) && Summed(root)
    }

    /** The logical array this version stands for. */
    function Values(): seq<int> { Leaves(root) }
  }

  /** The PerTree constructor with create_tree (persistent_tree.cpp:14-18, 104-108): the version holds the given values. */
  function Create(values: seq<int>): (v: PerTree)
    requires |values| >= 1
    ensures v.Valid() && v.size == |values| && v.Values() == values
  {
    PerTree(CreateTree(values, 0, |values| - 1), |values|)
  }

  /**
   * set (persistent_tree.cpp:67-75): a new version in which the slot `index`
   * holds `value` and every other slot is as before; an index at or past
   * SIZE is not refused but overwrites the last slot. The old version, a
   * value, is unchanged, and the new one shares all its off-path subtrees.
   */
  function Set(v: PerTree, index: nat, value: int): (w: PerTree)
    requires v.Valid()
    ensures w.Valid() && w.size == v.size
    ensures index < v.size ==> w.Values() == v.Values()[index := value]
    ensures index >= v.size ==> w.Values() == v.Values()[v.size - 1 := value]
    ensures OffPath(w.root, Target(index, 0, v.size - 1), 0, v.size - 1) == OffPath(v.root, Target(index, 0, v.size - 1), 0, v.size - 1)
  {
    var r := v.size - 1;
    var u := InnerSet(v.root, index, value, 0, r);
    InnerSetSpans(v.root, index, value, 0, r);
    InnerSetSums(v.root, index, value, 0, r);
    InnerSetLeaves(v.root, index, value, 0, r);
    InnerSetShares(v.root, index, value, 0, r);
    assert Target(index, 0, r) == if index < v.size then index else r;
    PerTree(u, v.size)
  }

  /** The root of every valid version holds the total of its values. */
  lemma RootTotal(v: PerTree)
    requires v.Valid()
    ensures v.root.data == Sum(v.Values())
  {
    SummedTotal(v.root);
  }

  /** So a set changes the root total by the difference between the new and the old value. */
  lemma SetTotal(v: PerTree, index: nat, value: int)
    requires v.Valid() && index < v.size
    ensures Set(v, index, value).root.data == v.root.data - v.Values()[index] + value
  {
    RootTotal(v);
    RootTotal(Set(v, index, value));
    SumUpdate(v.Values(), index, value);
  }

  lemma SumOfFour(a: int, b: int, c: int, d: int)
    ensures Sum([a, b, c, d]) == a + b + c + d
  {
    assert [a][..0] == [];
    assert Sum([a]) == a;
    assert [a, b][..1] == [a];
    assert Sum([a, b]) == a + b;
    assert [a, b, c][..2] == [a, b];
    assert Sum([a, b, c]) == a + b + c;
    assert [a, b, c, d][..3] == [a, b, c];
  }

  /** The demonstration's first version: {3, 5, 1, 6}, whose root holds 15. */
  lemma DemonstrationCreate(values: seq<int>)
    requires values == [3, 5, 1, 6]
    ensures Create(values).Values() == [3, 5, 1, 6] && Create(values).root.data == 15
  {
    RootTotal(Create(values));
    SumOfFour(3, 5, 1, 6);
  }

  /** Then set(2, 4) on any version holding {3, 5, 1, 6} gives {3, 5, 4, 6}, whose root holds 18. */
  lemma DemonstrationSet(v: PerTree)
    requires v.Valid() && v.Values() == [3, 5, 1, 6]
    ensures Set(v, 2, 4).Values() == [3, 5, 4, 6] && Set(v, 2, 4).root.data == 18
  {
    RootTotal(Set(v, 2, 4));
    SumOfFour(3, 5, 4, 6);
  }
}
