/**
 * The Cartesian tree (treap) of cartesian_tree.cpp: a search tree on keys
 * that is at the same time a max-heap on node priorities. Split and merge
 * are structural recursions over the links and are modelled as functions on
 * tree values; the class holds the root and reassigns it the way insert,
 * erase and the static merge and split do.
 *
 * A node's priority is drawn at random in the source; here it is data
 * handed in with the key.
 */
module Cartesian {

  datatype Tree = Nil | Node(data: int, priority: int, left: Tree, right: Tree)

  /** A key with the priority it was given: what create_tree takes out of its heap. */
  datatype Item = Item(data: int, priority: int)

  function InOrder(t: Tree): seq<int> {
    match t
    case Nil => []
    case Node(d, _, l, r) => InOrder(l) + [d] + InOrder(r)
  }

  function Size(t: Tree): nat {
    match t
    case Nil => 0
    case Node(_, _, l, r) => Size(l) + Size(r) + 1
  }

  ghost predicate Sorted(s: seq<int>) {
    forall i, j :: 0 <= i < j < |s| ==> s[i] <= s[j]
  }

  ghost predicate Increasing(s: seq<int>) {
    forall i, j :: 0 <= i < j < |s| ==> s[i] < s[j]
  }

  /** No priority in the tree exceeds p. */
  ghost predicate Below(t: Tree, p: int) {
    match t
    case Nil => true
    case Node(_, q, l, r) => q <= p && Below(l, p) && Below(r, p)
  }

  /** No priority in the tree is under p. */
  ghost predicate Above(t: Tree, p: int) {
    match t
    case Nil => true
    case Node(_, q, l, r) => p <= q && Above(l, p) && Above(r, p)
  }

  /** Heap order on priorities: no node has a priority above its parent's. */
  ghost predicate HeapOrdered(t: Tree) {
    match t
    case Nil => true
    case Node(_, p, l, r) => Below(l, p) && Below(r, p) && HeapOrdered(l) && HeapOrdered(r)
  }

  ghost predicate IsTreap(t: Tree) {
    HeapOrdered(t) && Sorted(InOrder(t))
  }

  // ---------------------------------------------------------------------------
  // Facts about order and priorities

  lemma SortedSplit(a: seq<int>, x: int, b: seq<int>)
    requires Sorted(a + [x] + b)
    ensures Sorted(a) && Sorted(b)
    ensures (forall e | e in a :: e <= x) && (forall e | e in b :: x <= e)
  {
    var s := a + [x] + b;
    assert forall i | 0 <= i < |a| :: s[i] == a[i];
    assert forall i | 0 <= i < |b| :: s[|a| + 1 + i] == b[i];
    assert s[|a|] == x;
  }

  lemma SortedConcat(a: seq<int>, b: seq<int>)
    requires Sorted(a) && Sorted(b)
    requires forall e, f | e in a && f in b :: e <= f
    ensures Sorted(a + b)
  {
    var s := a + b;
    forall i, j | 0 <= i < j < |s|
      ensures s[i] <= s[j]
    {
      if j < |a| {
      } else if i >= |a| {
        assert s[i] == b[i - |a|] && s[j] == b[j - |a|];
      } else {
        assert s[i] == a[i] && a[i] in a;
        assert s[j] == b[j - |a|] && b[j - |a|] in b;
      }
    }
  }

  lemma SortedParts(a: seq<int>, b: seq<int>)
    requires Sorted(a + b)
    ensures Sorted(a) && Sorted(b)
  {
    assert forall i | 0 <= i < |a| :: (a + b)[i] == a[i];
    assert forall i | 0 <= i < |b| :: (a + b)[|a| + i] == b[i];
  }

  lemma {:induction false} BelowWeaken(t: Tree, p: int, q: int)
    requires Below(t, p) && p <= q
    ensures Below(t, q)
  {
    match t {
      case Nil =>
      case Node(_, _, l, r) =>
        BelowWeaken(l, p, q);
        BelowWeaken(r, p, q);
    }
  }

  /** In a heap-ordered tree the root's priority is the greatest. */
  lemma RootIsGreatest(t: Tree)
    requires t.Node? && HeapOrdered(t)
    ensures Below(t, t.priority)
  {
  }

  // ---------------------------------------------------------------------------
  // Merge and split

  /**
   * inner_merge (cartesian_tree.cpp:161-175): the root of higher priority
   * stays on top, the left one on a tie (the node order of lines 66-69
   * compares priorities), and the other tree is merged into its inner
   * side. Keys keep their order: the result lists the left tree's keys,
   * then the right tree's.
   */
  function InnerMerge(left: Tree, right: Tree): (r: Tree)
    ensures InOrder(r) == InOrder(left) + InOrder(right)
    ensures left.Nil? ==> r == right
    ensures right.Nil? ==> r == left
    ensures left.Node? && right.Node? ==>
      r.Node? && (if left.priority < right.priority then r.priority == right.priority && r.data == right.data
                  else r.priority == left.priority && r.data == left.data)
    decreases Size(left) + Size(right)
  {
    if left.Nil? || right.Nil? then (if right.Nil? then left else right)
    else if left.priority < right.priority then
      Node(right.data, right.priority, InnerMerge(left, right.left), right.right)
    else
      Node(left.data, left.priority, left.left, InnerMerge(left.right, right))
  }

  /** Merging keeps every priority under a bound both trees keep. */
  lemma {:induction false} MergeBelow(left: Tree, right: Tree, p: int)
    requires Below(left, p) && Below(right, p)
    ensures Below(InnerMerge(left, right), p)
    decreases Size(left) + Size(right)
  {
    if left.Nil? || right.Nil? {
    } else if left.priority < right.priority {
      MergeBelow(left, right.left, p);
    } else {
      MergeBelow(left.right, right, p);
    }
  }

  /** Merging two heap-ordered trees gives a heap-ordered tree. */
  lemma {:induction false} MergeHeap(left: Tree, right: Tree)
    requires HeapOrdered(left) && HeapOrdered(right)
    ensures HeapOrdered(InnerMerge(left, right))
    decreases Size(left) + Size(right)
  {
    if left.Nil? || right.Nil? {
    } else if left.priority < right.priority {
      MergeHeap(left, right.left);
      RootIsGreatest(left);
      BelowWeaken(left, left.priority, right.priority);
      MergeBelow(left, right.left, right.priority);
    } else {
      MergeHeap(left.right, right);
      RootIsGreatest(right);
      BelowWeaken(right, right.priority, left.priority);
      MergeBelow(left.right, right, left.priority);
    }
  }

  /** Merging two treaps whose keys do not interleave gives a treap. */
  lemma MergeTreap(left: Tree, right: Tree)
    requires IsTreap(left) && IsTreap(right)
    requires forall a, b | a in InOrder(left) && b in InOrder(right) :: a <= b
    ensures IsTreap(InnerMerge(left, right))
  {
    MergeHeap(left, right);
    SortedConcat(InOrder(left), InOrder(right));
  }

  /**
   * inner_split (cartesian_tree.cpp:185-208): a node with a key below the
   * split key goes to the small side together with its left subtree, and
   * its right subtree is split further; otherwise the mirror image. The
   * two results list the tree's keys in order, the small side first.
   */
  function InnerSplit(t: Tree, key: int): (r: (Tree, Tree))
    ensures InOrder(r.0) + InOrder(r.1) == InOrder(t)
    decreases t
  {
    match t
    case Nil => (Nil, Nil)
    case Node(d, p, l, rt) =>
      if d < key then
        var (s, g) := InnerSplit(rt, key);
        (Node(d, p, l, s), g)
      else
        var (s, g) := InnerSplit(l, key);
        (s, Node(d, p, g, rt))
  }

  /** In a search tree the small side holds exactly the keys below the split key. */
  lemma {:induction false} SplitKeys(t: Tree, key: int)
    requires Sorted(InOrder(t))
    ensures forall k | k in InOrder(InnerSplit(t, key).0) :: k < key
    ensures forall k | k in InOrder(InnerSplit(t, key).1) :: key <= k
  {
    match t {
      case Nil =>
      case Node(d, p, l, rt) =>
        SortedSplit(InOrder(l), d, InOrder(rt));
        if d < key {
          SplitKeys(rt, key);
          var (s, g) := InnerSplit(rt, key);
          assert InnerSplit(t, key) == (Node(d, p, l, s), g);
          forall k | k in InOrder(l) + [d] + InOrder(s)
            ensures k < key
          {
            assert k in InOrder(l) || k == d || k in InOrder(s);
          }
        } else {
          SplitKeys(l, key);
          var (s, g) := InnerSplit(l, key);
          assert InnerSplit(t, key) == (s, Node(d, p, g, rt));
          forall k | k in InOrder(g) + [d] + InOrder(rt)
            ensures key <= k
          {
            assert k in InOrder(g) || k == d || k in InOrder(rt);
          }
        }
    }
  }

  /** Splitting keeps every priority under a bound the tree keeps. */
  lemma {:induction false} SplitBelow(t: Tree, key: int, p: int)
    requires Below(t, p)
    ensures Below(InnerSplit(t, key).0, p) && Below(InnerSplit(t, key).1, p)
  {
    match t {
      case Nil =>
      case Node(d, q, l, rt) =>
        if d < key {
          SplitBelow(rt, key, p);
        } else {
          SplitBelow(l, key, p);
        }
    }
  }

  /** Splitting a heap-ordered tree gives two heap-ordered trees. */
  lemma {:induction false} SplitHeap(t: Tree, key: int)
    requires HeapOrdered(t)
    ensures HeapOrdered(InnerSplit(t, key).0) && HeapOrdered(InnerSplit(t, key).1)
  {
    match t {
      case Nil =>
      case Node(d, q, l, rt) =>
        if d < key {
          SplitHeap(rt, key);
          SplitBelow(rt, key, q);
        } else {
          SplitHeap(l, key);
          SplitBelow(l, key, q);
        }
    }
  }

  /** Both sides of a split treap are treaps. */
  lemma SplitTreap(t: Tree, key: int)
    requires IsTreap(t)
    ensures IsTreap(InnerSplit(t, key).0) && IsTreap(InnerSplit(t, key).1)
    ensures forall k | k in InOrder(InnerSplit(t, key).0) :: k < key
    ensures forall k | k in InOrder(InnerSplit(t, key).1) :: key <= k
  {
    SplitHeap(t, key);
    SplitKeys(t, key);
    SortedParts(InOrder(InnerSplit(t, key).0), InOrder(InnerSplit(t, key).1));
  }

  // ---------------------------------------------------------------------------
  // Building from a heap

  /**
   * insert_node (cartesian_tree.cpp:263-281): a search-tree descent that
   * hangs a new node with the item's key and priority in an empty slot and
   * leaves the tree alone when the key is present.
   */
  function InsertNode(t: Tree, item: Item): (r: Tree)
    ensures forall k :: k in InOrder(r) <==> k in InOrder(t) || k == item.data
    decreases t
  {
    match t
    case Nil => Node(item.data, item.priority, Nil, Nil)
    case Node(d, p, l, rt) =>
      if d > item.data then Node(d, p, InsertNode(l, item), rt)
      else if d < item.data then Node(d, p, l, InsertNode(rt, item))
      else t
  }

  lemma IncreasingJoin(a: seq<int>, x: int, b: seq<int>)
    requires Increasing(a) && Increasing(b)
    requires (forall e | e in a :: e < x) && (forall e | e in b :: x < e)
    ensures Increasing(a + [x] + b)
  {
    var s := a + [x] + b;
    forall i, j | 0 <= i < j < |s|
      ensures s[i] < s[j]
    {
      if j < |a| {
      } else if i < |a| {
        assert a[i] in a;
        if j > |a| {
          assert s[j] == b[j - |a| - 1] && b[j - |a| - 1] in b;
        }
      } else if i > |a| {
      } else {
        assert s[j] == b[j - |a| - 1] && b[j - |a| - 1] in b;
      }
    }
  }

  lemma IncreasingSplit(a: seq<int>, x: int, b: seq<int>)
    requires Increasing(a + [x] + b)
    ensures Increasing(a) && Increasing(b)
    ensures (forall e | e in a :: e < x) && (forall e | e in b :: x < e)
  {
    var s := a + [x] + b;
    assert forall i | 0 <= i < |a| :: s[i] == a[i];
    assert forall i | 0 <= i < |b| :: s[|a| + 1 + i] == b[i];
    assert s[|a|] == x;
  }

  /** Insertion keeps the keys strictly increasing: no key is stored twice. */
  lemma {:induction false} InsertNodeIncreasing(t: Tree, item: Item)
    requires Increasing(InOrder(t))
    ensures Increasing(InOrder(InsertNode(t, item)))
  {
    match t {
      case Nil =>
      case Node(d, p, l, rt) =>
        IncreasingSplit(InOrder(l), d, InOrder(rt));
        if d > item.data {
          InsertNodeIncreasing(l, item);
          IncreasingJoin(InOrder(InsertNode(l, item)), d, InOrder(rt));
        } else if d < item.data {
          InsertNodeIncreasing(rt, item);
          IncreasingJoin(InOrder(l), d, InOrder(InsertNode(rt, item)));
        }
    }
  }

  /** A node whose priority is at or below every priority in the tree keeps it heap-ordered. */
  lemma {:induction false} InsertNodeHeap(t: Tree, item: Item)
    requires HeapOrdered(t) && Above(t, item.priority)
    ensures HeapOrdered(InsertNode(t, item))
  {
    match t {
      case Nil =>
      case Node(d, p, l, rt) =>
        if d > item.data {
          InsertNodeHeap(l, item);
          InsertNodeBounds(l, item, p, item.priority);
        } else if d < item.data {
          InsertNodeHeap(rt, item);
          InsertNodeBounds(rt, item, p, item.priority);
        }
    }
  }

  /** Priorities after insertion: the old ones and the item's. */
  lemma {:induction false} InsertNodeBounds(t: Tree, item: Item, hi: int, lo: int)
    ensures Below(t, hi) && item.priority <= hi ==> Below(InsertNode(t, item), hi)
    ensures Above(t, lo) && lo <= item.priority ==> Above(InsertNode(t, item), lo)
  {
    match t {
      case Nil =>
      case Node(d, p, l, rt) =>
        if d > item.data {
          InsertNodeBounds(l, item, hi, lo);
        } else if d < item.data {
          InsertNodeBounds(rt, item, hi, lo);
        }
    }
  }

  /** Priorities that never increase along a sequence of items. */
  ghost predicate NonIncreasing(items: seq<Item>) {
    forall i, j :: 0 <= i < j < |items| ==> items[j].priority <= items[i].priority
  }

  lemma {:induction false} AboveWeaken(t: Tree, p: int, q: int)
    requires Above(t, p) && q <= p
    ensures Above(t, q)
  {
    match t {
      case Nil =>
      case Node(_, _, l, r) =>
        AboveWeaken(l, p, q);
        AboveWeaken(r, p, q);
    }
  }

  // ---------------------------------------------------------------------------
  // The tree object

  class CartesianTree {
    var root: Tree

    ghost predicate Valid()
      reads this
    {
      IsTreap(root)
    }

    /**
     * The constructor with create_tree (cartesian_tree.cpp:24-28, 235-249):
     * the items in the order the heap hands them out, each inserted with
     * insert_node. Repeated keys are kept once; when the priorities never
     * increase, the result is heap-ordered.
     */
    constructor(drained: seq<Item>)
      ensures Increasing(InOrder(root))
      ensures forall k :: k in InOrder(root) <==> exists j | 0 <= j < |drained| :: drained[j].data == k
      ensures NonIncreasing(drained) ==> Valid()
    {
      root := Nil;
      new;
      var i := 0;
      while i < |drained|
        invariant 0 <= i <= |drained|
        invariant i == 0 ==> root == Nil
        invariant Increasing(InOrder(root))
        invariant forall k :: k in InOrder(root) <==> exists j | 0 <= j < i :: drained[j].data == k
        invariant NonIncreasing(drained) ==> HeapOrdered(root) && (i > 0 ==> Above(root, drained[i - 1].priority))
      {
        InsertNodeIncreasing(root, drained[i]);
        if NonIncreasing(drained) {
          if i > 0 {
            assert drained[i].priority <= drained[i - 1].priority;
            AboveWeaken(root, drained[i - 1].priority, drained[i].priority);
          }
          InsertNodeHeap(root, drained[i]);
          InsertNodeBounds(root, drained[i], drained[i].priority, drained[i].priority);
        }
        root := InsertNode(root, drained[i]);
        i := i + 1;
      }
    }

    /** The private constructor from a root (cartesian_tree.cpp:80-82). */
    constructor FromRoot(r: Tree)
      ensures root == r
    {
      root := r;
    }

    /** isEmpty (cartesian_tree.cpp:105-109). */
    function IsEmpty(): (b: bool)
      reads this
      ensures b <==> InOrder(root) == []
    {
      root.Nil?
    }

    /**
     * insert (cartesian_tree.cpp:111-132): split at the key, merge the small
     * side with a new node, then with the large side. A key already present
     * is added again, in front of the equal ones.
     */
    method Insert(x: int, priority: int)
      requires Valid()
      modifies this
      ensures Valid()
      ensures multiset(InOrder(root)) == multiset(old(InOrder(root))) + multiset{x}
    {
      var (small, large) := InnerSplit(root, x);
      var node := Node(x, priority, Nil, Nil);
      InsertParts(root, x, priority);
      small := InnerMerge(small, node);
      root := InnerMerge(small, large);
    }

    /**
     * erase (cartesian_tree.cpp:134-148): split at the key and at the key
     * plus one; the middle part, the nodes holding the key, is dropped and
     * the outer parts merged.
     */
    method Erase(x: int)
      requires Valid()
      modifies this
      ensures Valid()
      ensures forall k :: multiset(InOrder(root))[k] == if k == x then 0 else multiset(old(InOrder(root)))[k]
    {
      var (small, large) := InnerSplit(root, x);
      var (equal, rest) := InnerSplit(large, x + 1);
      EraseParts(root, x);
      root := InnerMerge(small, rest);
    }

    /**
     * The static merge (cartesian_tree.cpp:150-159): a new tree holding the
     * merge of both roots; both trees are left empty.
     */
    static method Merge(smallTree: CartesianTree, largeTree: CartesianTree) returns (merged: CartesianTree)
      requires smallTree != largeTree
      modifies smallTree, largeTree
      ensures fresh(merged)
      ensures InOrder(merged.root) == old(InOrder(smallTree.root)) + old(InOrder(largeTree.root))
      ensures smallTree.root == Nil && largeTree.root == Nil
      ensures (old(smallTree.Valid()) && old(largeTree.Valid()) &&
               forall a, b | a in old(InOrder(smallTree.root)) && b in old(InOrder(largeTree.root)) :: a <= b)
              ==> merged.Valid()
    {
      if smallTree.Valid() && largeTree.Valid() &&
        (forall a, b | a in InOrder(smallTree.root) && b in InOrder(largeTree.root) :: a <= b) {
        MergeTreap(smallTree.root, largeTree.root);
      }
      var r := InnerMerge(smallTree.root, largeTree.root);
      smallTree.root := Nil;
      largeTree.root := Nil;
      merged := new CartesianTree.FromRoot(r);
    }

    /**
     * The static split (cartesian_tree.cpp:177-183): the small tree receives
     * the keys below the key, the large tree the others, and the split tree
     * is left empty; what the receiving trees held before is dropped.
     */
    static method Split(tree: CartesianTree, key: int, small: CartesianTree, large: CartesianTree)
      requires small != large
      modifies tree, small, large
      ensures tree.root == Nil
      ensures small != tree ==> small.root == InnerSplit(old(tree.root), key).0
      ensures large != tree ==> large.root == InnerSplit(old(tree.root), key).1
      ensures old(tree.Valid()) && small != tree ==> small.Valid() && forall k | k in InOrder(small.root) :: k < key
      ensures old(tree.Valid()) && large != tree ==> large.Valid() && forall k | k in InOrder(large.root) :: key <= k
    {
      var t := tree.root;
      if tree.Valid() {
        SplitTreap(t, key);
      }
      var (s, l) := InnerSplit(t, key);
      small.root := s;
      large.root := l;
      tree.root := Nil;
    }
  }

  /**
   * The value insert computes: the parts of the split around a new node,
   * merged back. It is a treap again and holds the key once more.
   */
  lemma InsertParts(t: Tree, x: int, priority: int)
    requires IsTreap(t)
    ensures var r := InnerMerge(InnerMerge(InnerSplit(t, x).0, Node(x, priority, Nil, Nil)), InnerSplit(t, x).1);
      IsTreap(r) && multiset(InOrder(r)) == multiset(InOrder(t)) + multiset{x}
  {
    var small, large := InnerSplit(t, x).0, InnerSplit(t, x).1;
    SplitTreap(t, x);
    var m := InnerMerge(small, Node(x, priority, Nil, Nil));
    NodeAfter(small, x, priority);
    MergeAfter(m, large, x);
    InsertCount(InOrder(small), x, InOrder(large));
  }

  lemma InsertCount(s: seq<int>, x: int, l: seq<int>)
    ensures multiset(s + [x] + l) == multiset(s + l) + multiset{x}
  {
    assert s + [x] + l == s + ([x] + l);
  }

  /** Two treaps separated by a key merge into a treap. */
  lemma MergeAfter(m: Tree, large: Tree, x: int)
    requires IsTreap(m) && IsTreap(large)
    requires forall k | k in InOrder(m) :: k <= x
    requires forall k | k in InOrder(large) :: x <= k
    ensures IsTreap(InnerMerge(m, large))
  {
    MergeTreap(m, large);
  }

  /** Merging a node after smaller keys: the small side with the node appended. */
  lemma NodeAfter(small: Tree, x: int, priority: int)
    requires IsTreap(small) && forall k | k in InOrder(small) :: k < x
    ensures IsTreap(InnerMerge(small, Node(x, priority, Nil, Nil)))
    ensures forall k | k in InOrder(InnerMerge(small, Node(x, priority, Nil, Nil))) :: k <= x
    ensures InOrder(InnerMerge(small, Node(x, priority, Nil, Nil))) == InOrder(small) + [x]
  {
    var node := Node(x, priority, Nil, Nil);
    assert InOrder(node) == [x];
    MergeTreap(small, node);
  }

  /**
   * The value erase computes: the keys under x and the keys from x + 1 on,
   * merged. It is a treap again with every copy of x gone.
   */
  lemma EraseParts(t: Tree, x: int)
    requires IsTreap(t)
    ensures var (small, large) := InnerSplit(t, x);
      var r := InnerMerge(small, InnerSplit(large, x + 1).1);
      IsTreap(r) &&
      forall k :: multiset(InOrder(r))[k] == if k == x then 0 else multiset(InOrder(t))[k]
  {
    var (small, large) := InnerSplit(t, x);
    SplitTreap(t, x);
    var (equal, rest) := InnerSplit(large, x + 1);
    SplitTreap(large, x + 1);
    assert InOrder(equal) + InOrder(rest) == InOrder(large);
    forall k | k in InOrder(equal)
      ensures x <= k < x + 1
    {
      assert k in InOrder(large);
    }
    forall k | k in InOrder(rest)
      ensures x + 1 <= k
    {
    }
    MergeTreap(small, rest);
    EraseCounts(InOrder(small), InOrder(equal), InOrder(rest), x);
    assert InOrder(small) + (InOrder(equal) + InOrder(rest)) == InOrder(t);
  }

  /** The counts left by erase: the parts below and above the key, without the part that equals it. */
  lemma EraseCounts(small: seq<int>, equal: seq<int>, rest: seq<int>, x: int)
    requires forall k | k in small :: k < x
    requires forall k | k in equal :: x <= k < x + 1
    requires forall k | k in rest :: x + 1 <= k
    ensures forall k :: multiset(small + rest)[k] == if k == x then 0 else multiset(small + (equal + rest))[k]
  {
    forall k
      ensures multiset(small + rest)[k] == if k == x then 0 else multiset(small + (equal + rest))[k]
    {
      if k == x {
        assert k !in small && k !in rest;
      } else {
        assert k !in equal;
      }
    }
  }
}
