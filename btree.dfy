/**
 * The B-tree of btree.cpp with minimum degree t: every node holds at most
 * 2t - 1 ascending keys, an inner node one child more than it has keys.
 * Insertion goes down first and splits an overfull child on the way back up;
 * an overfull root is split under a fresh root. A tree stands for its
 * in-order key sequence (InOrder), which stays strictly ascending.
 */
module BTree {

  /** Node: `keys`, `children` (empty for a leaf) and `is_leaf`. */
  datatype Node = Node(keys: seq<int>, children: seq<Node>, leaf: bool)

  /** The keys of a subtree in order: a leaf's own keys, or its children's keys woven with its own. */
  function InOrder(n: Node): seq<int>
    decreases n, 1
  {
    if n.leaf then n.keys else Weave(n.children, n.keys)
  }

  /** The keys of cs[0], then ks[0], then those of cs[1], and so on. */
  function Weave(cs: seq<Node>, ks: seq<int>): seq<int>
    decreases cs, 0
  {
    if cs == [] then []
    else InOrder(cs[0]) + if ks == [] then [] else [ks[0]] + Weave(cs[1..], ks[1..])
  }

  /** A leaf has no children and an inner node one more child than keys, all the way down. */
  ghost predicate WF(n: Node)
    decreases n
  {
    if n.leaf then n.children == []
    else |n.children| == |n.keys| + 1 && forall c :: c in n.children ==> WF(c)
  }

  /** No node of the subtree holds more than 2t - 1 keys. */
  ghost predicate Bounded(n: Node, t: nat)
    decreases n
  {
    |n.keys| <= 2 * t - 1 && forall c :: c in n.children ==> Bounded(c, t)
  }

  ghost predicate Sorted(s: seq<int>) {
    forall i, j :: 0 <= i < j < |s| ==> s[i] < s[j]
  }

  ghost function Elems(s: seq<int>): set<int> {
    set x | x in s
  }

  /** std::lower_bound: the first position whose key is not below key. */
  function LowerBound(s: seq<int>, key: int): (i: nat)
    ensures i <= |s| && (forall j :: 0 <= j < i ==> s[j] < key) && (i < |s| ==> key <= s[i])
  {
    if s == [] || key <= s[0] then 0 else 1 + LowerBound(s[1..], key)
  }

  /** In a sorted sequence, key is present exactly when it sits at its lower bound. */
  lemma LowerBoundFinds(s: seq<int>, key: int)
    requires Sorted(s)
    ensures var i := LowerBound(s, key); key in s <==> i < |s| && s[i] == key
  {
    var i := LowerBound(s, key);
    if key in s {
      var k :| 0 <= k < |s| && s[k] == key;
      assert !(k < i);
      assert !(k > i);
    }
  }

  /** Any position with smaller keys before it and no smaller key at it is the lower bound. */
  lemma LowerBoundUnique(s: seq<int>, key: int, i: nat)
    requires i <= |s| && (forall j :: 0 <= j < i ==> s[j] < key) && (i < |s| ==> key <= s[i])
    ensures LowerBound(s, key) == i
  {
    var b := LowerBound(s, key);
    if b < i {
      assert false;
    } else if i < b {
      assert false;
    }
  }

  /** s with key put in at its lower bound, as `keys.insert(it, key)` does for a leaf. */
  function InsertSorted(s: seq<int>, key: int): (u: seq<int>)
    ensures |u| == |s| + 1 && u[LowerBound(s, key)] == key
    ensures multiset(u) == multiset(s) + multiset{key}
  {
    var i := LowerBound(s, key);
    assert s == s[..i] + s[i..];
    s[..i] + [key] + s[i..]
  }

  /** Putting a new key into a strictly ascending sequence keeps it strictly ascending and adds just that key. */
  lemma InsertSortedSorted(s: seq<int>, key: int)
    requires Sorted(s) && key !in s
    ensures Sorted(InsertSorted(s, key)) && Elems(InsertSorted(s, key)) == Elems(s) + {key}
  {
    var i := LowerBound(s, key);
    assert i < |s| ==> s[i] != key;
    SpliceSorted(s, key, i);
    SpliceElems(s, key, i);
  }

  /** A key above everything before position i and below everything from i on, put in at i, keeps the order. */
  lemma SpliceSorted(s: seq<int>, key: int, i: nat)
    requires Sorted(s) && i <= |s| && (forall j :: 0 <= j < i ==> s[j] < key) && (i < |s| ==> key < s[i])
    ensures Sorted(s[..i] + [key] + s[i..])
  {
    var u := s[..i] + [key] + s[i..];
    forall a, b | 0 <= a < b < |u| ensures u[a] < u[b] {
      if a < i && b > i {
        assert u[b] == s[b - 1];
      }
    }
  }

  /** Putting key in anywhere adds just that key. */
  lemma SpliceElems(s: seq<int>, key: int, i: nat)
    requires i <= |s|
    ensures Elems(s[..i] + [key] + s[i..]) == Elems(s) + {key}
  {
    assert s == s[..i] + s[i..];
  }

  /** Inserting into the middle stretch of a sequence whose outer stretches are below and above the key. */
  lemma InsertSortedMiddle(pre: seq<int>, x: seq<int>, post: seq<int>, key: int)
    requires forall a :: a in pre ==> a < key
    requires forall b :: b in post ==> key < b
    ensures InsertSorted(pre + x + post, key) == pre + InsertSorted(x, key) + post
  {
    MiddleLowerBound(pre, x, post, key);
    InsertMiddleAt(pre, x, post, key);
  }

  /** Putting the key in at the middle stretch's lower bound, shifted, is putting it into the middle stretch. */
  lemma InsertMiddleAt(pre: seq<int>, x: seq<int>, post: seq<int>, key: int)
    requires LowerBound(pre + x + post, key) == |pre| + LowerBound(x, key)
    ensures InsertSorted(pre + x + post, key) == pre + InsertSorted(x, key) + post
  {
    Splice(pre, x, post, key, LowerBound(x, key));
  }

  /** Cutting pre + x + post at position i of x and putting key there. */
  lemma Splice(pre: seq<int>, x: seq<int>, post: seq<int>, key: int, i: nat)
    requires i <= |x|
    ensures (pre + x + post)[..|pre| + i] + [key] + (pre + x + post)[|pre| + i..] == pre + (x[..i] + [key] + x[i..]) + post
  {
    var s := pre + x + post;
    assert s[..|pre| + i] == pre + x[..i];
    assert s[|pre| + i..] == x[i..] + post;
  }

  /** The lower bound of the key in the whole sequence is its lower bound in the middle stretch, shifted. */
  lemma MiddleLowerBound(pre: seq<int>, x: seq<int>, post: seq<int>, key: int)
    requires forall a :: a in pre ==> a < key
    requires forall b :: b in post ==> key < b
    ensures LowerBound(pre + x + post, key) == |pre| + LowerBound(x, key)
  {
    var s := pre + x + post;
    var i := LowerBound(x, key);
    forall j | 0 <= j < |pre| + i ensures s[j] < key {
      if j < |pre| {
        assert s[j] in pre;
      } else {
        assert s[j] == x[j - |pre|];
      }
    }
    if |pre| + i < |s| {
      if i < |x| {
        assert s[|pre| + i] == x[i];
      } else {
        assert s[|pre| + i] in post;
      }
    }
    LowerBoundUnique(s, key, |pre| + i);
  }

  /** One step of the weave: the first child, the first key, then the weave of the rest. */
  lemma WeaveCons(cs: seq<Node>, ks: seq<int>)
    requires |cs| >= 1 && |ks| >= 1
    ensures Weave(cs, ks) == InOrder(cs[0]) + [ks[0]] + Weave(cs[1..], ks[1..])
  {
  }

  /** The part of the weave that comes before child i. */
  function Before(cs: seq<Node>, ks: seq<int>, i: nat): seq<int>
    decreases i
  {
    if i == 0 || cs == [] || ks == [] then [] else InOrder(cs[0]) + [ks[0]] + Before(cs[1..], ks[1..], i - 1)
  }

  /** The part of the weave that comes after child i. */
  function After(cs: seq<Node>, ks: seq<int>, i: nat): seq<int>
    decreases i
  {
    if cs == [] || ks == [] then []
    else if i == 0 then [ks[0]] + Weave(cs[1..], ks[1..])
    else After(cs[1..], ks[1..], i - 1)
  }

  /**
   * The in-order sequence around child i, with c in that child's place:
   * what comes before c ends with key i - 1 and what comes after starts
   * with key i, whatever c is.
   */
  lemma {:induction false} WeaveAround(cs: seq<Node>, ks: seq<int>, i: nat, c: Node)
    requires |cs| == |ks| + 1 && i < |cs|
    ensures var pre, post := Before(cs, ks, i), After(cs, ks, i);
      Weave(cs[i := c], ks) == pre + InOrder(c) + post &&
      (i == 0 ==> pre == []) && (i > 0 ==> |pre| > 0 && pre[|pre| - 1] == ks[i - 1]) &&
      (i == |ks| ==> post == []) && (i < |ks| ==> |post| > 0 && post[0] == ks[i])
  {
    if i == 0 {
      WeaveAroundFirst(cs, ks, c);
    } else {
      WeaveAround(cs[1..], ks[1..], i - 1, c);
      WeaveAroundNext(cs, ks, i, c);
    }
  }

  /** WeaveAround at the first child. */
  lemma WeaveAroundFirst(cs: seq<Node>, ks: seq<int>, c: Node)
    requires |cs| == |ks| + 1
    ensures Weave(cs[0 := c], ks) == InOrder(c) + After(cs, ks, 0) && Before(cs, ks, 0) == []
    ensures ks == [] ==> After(cs, ks, 0) == []
    ensures ks != [] ==> |After(cs, ks, 0)| > 0 && After(cs, ks, 0)[0] == ks[0]
  {
    if ks != [] {
      var cs' := cs[0 := c];
      WeaveCons(cs', ks);
      assert cs'[1..] == cs[1..];
    }
  }

  /** The inductive step of WeaveAround: child i of cs is child i - 1 of cs[1..]. */
  lemma WeaveAroundNext(cs: seq<Node>, ks: seq<int>, i: nat, c: Node)
    requires |cs| == |ks| + 1 && 0 < i < |cs|
    requires Weave(cs[1..][i - 1 := c], ks[1..]) ==
      Before(cs[1..], ks[1..], i - 1) + InOrder(c) + After(cs[1..], ks[1..], i - 1)
    ensures Weave(cs[i := c], ks) == Before(cs, ks, i) + InOrder(c) + After(cs, ks, i)
    ensures Before(cs, ks, i) == InOrder(cs[0]) + [ks[0]] + Before(cs[1..], ks[1..], i - 1)
    ensures After(cs, ks, i) == After(cs[1..], ks[1..], i - 1)
  {
    var cs' := cs[i := c];
    WeaveCons(cs', ks);
    assert cs'[1..] == cs[1..][i - 1 := c];
  }

  /** The in-order sequence around child i of cs itself. */
  lemma WeaveAt(cs: seq<Node>, ks: seq<int>, i: nat)
    requires |cs| == |ks| + 1 && i < |cs|
    ensures Weave(cs, ks) == Before(cs, ks, i) + InOrder(cs[i]) + After(cs, ks, i)
  {
    WeaveAround(cs, ks, i, cs[i]);
    assert cs[i := cs[i]] == cs;
  }

  /** The in-order sequence of cs splits at key j - 1 into the weave of the first j children and that of the rest. */
  lemma {:induction false} WeaveSplitAt(cs: seq<Node>, ks: seq<int>, j: nat)
    requires |cs| == |ks| + 1 && 1 <= j <= |ks|
    ensures Weave(cs, ks) == Weave(cs[..j], ks[..j - 1]) + [ks[j - 1]] + Weave(cs[j..], ks[j..])
  {
    if j > 1 {
      WeaveSplitAt(cs[1..], ks[1..], j - 1);
      WeaveSplitStep(cs, ks, j);
    } else {
      WeaveCons(cs, ks);
      assert cs[..1][1..] == [];
    }
  }

  /** The inductive step of WeaveSplitAt: the split of cs[1..] at key j - 2 gives the split of cs at key j - 1. */
  lemma WeaveSplitStep(cs: seq<Node>, ks: seq<int>, j: nat)
    requires |cs| == |ks| + 1 && 2 <= j <= |ks|
    requires Weave(cs[1..], ks[1..]) ==
      Weave(cs[1..][..j - 1], ks[1..][..j - 2]) + [ks[1..][j - 2]] + Weave(cs[1..][j - 1..], ks[1..][j - 1..])
    ensures Weave(cs, ks) == Weave(cs[..j], ks[..j - 1]) + [ks[j - 1]] + Weave(cs[j..], ks[j..])
  {
    WeaveCons(cs, ks);
    WeaveCons(cs[..j], ks[..j - 1]);
    SliceShift(cs, j);
    SliceShift(ks, j - 1);
    SliceShift(ks, j);
  }

  /** Dropping the first element commutes with cutting at j, shifted by one. */
  lemma SliceShift<T>(s: seq<T>, j: nat)
    requires 1 <= j <= |s|
    ensures s[..j][1..] == s[1..][..j - 1] && s[1..][j - 1..] == s[j..] && s[..j][0] == s[0]
  {
  }

  /** Replacing child i by two children with a key between them keeps the in-order sequence when their keys make up the old child's. */
  lemma {:induction false} WeaveReplace(cs: seq<Node>, ks: seq<int>, i: nat, l: Node, m: int, r: Node)
    requires |cs| == |ks| + 1 && i < |cs| && InOrder(cs[i]) == InOrder(l) + [m] + InOrder(r)
    ensures Weave(cs[..i] + [l, r] + cs[i + 1..], ks[..i] + [m] + ks[i..]) == Weave(cs, ks)
  {
    var cs', ks' := cs[..i] + [l, r] + cs[i + 1..], ks[..i] + [m] + ks[i..];
    WeaveCons(cs', ks');
    if i == 0 {
      assert cs'[1..] == cs[0 := r] && ks'[1..] == ks;
      assert cs[0 := r][1..] == cs[1..];
    } else {
      WeaveCons(cs, ks);
      WeaveReplace(cs[1..], ks[1..], i - 1, l, m, r);
      assert cs'[1..] == cs[1..][..i - 1] + [l, r] + cs[1..][i..];
      assert ks'[1..] == ks[1..][..i - 1] + [m] + ks[1..][i - 1..];
    }
  }

  /** The left half of a split: the first t - 1 keys and, for an inner node, the first t children. */
  function SplitLeft(full: Node, t: nat): Node
    requires 1 <= t <= |full.keys|
    requires !full.leaf ==> t <= |full.children|
  {
    Node(full.keys[..t - 1], if full.leaf then full.children else full.children[..t], full.leaf)
  }

  /** The right half of a split: the keys after position t - 1 and, for an inner node, the children from t on. */
  function SplitRight(full: Node, t: nat): Node
    requires 1 <= t <= |full.keys|
    requires !full.leaf ==> t <= |full.children|
  {
    Node(full.keys[t..], if full.leaf then [] else full.children[t..], full.leaf)
  }

  /** The two halves of a split with the middle key between them hold exactly the keys of the node that was split. */
  lemma SplitHalves(full: Node, t: nat)
    requires WF(full) && 1 <= t <= |full.keys|
    ensures WF(SplitLeft(full, t)) && WF(SplitRight(full, t))
    ensures InOrder(SplitLeft(full, t)) + [full.keys[t - 1]] + InOrder(SplitRight(full, t)) == InOrder(full)
  {
    if !full.leaf {
      assert forall c :: c in full.children[..t] ==> c in full.children;
      assert forall c :: c in full.children[t..] ==> c in full.children;
    }
    SplitHalvesOrder(full, t);
  }

  /** The in-order half of SplitHalves. */
  lemma SplitHalvesOrder(full: Node, t: nat)
    requires WF(full) && 1 <= t <= |full.keys|
    ensures InOrder(SplitLeft(full, t)) + [full.keys[t - 1]] + InOrder(SplitRight(full, t)) == InOrder(full)
  {
    if full.leaf {
      assert full.keys == full.keys[..t - 1] + [full.keys[t - 1]] + full.keys[t..];
    } else {
      WeaveSplitAt(full.children, full.keys, t);
    }
  }

  /**
   * splitChild (btree.cpp:30-50): child i is cut around its key t - 1, which
   * moves up into the parent at position i, and the right half becomes
   * child i + 1.
   */
  function SplitChild(p: Node, i: nat, t: nat): (q: Node)
    requires i < |p.children| && i <= |p.keys|
    requires 1 <= t <= |p.children[i].keys|
    requires !p.children[i].leaf ==> t <= |p.children[i].children|
    ensures q.leaf == p.leaf && |q.keys| == |p.keys| + 1 && |q.children| == |p.children| + 1
    ensures q.keys[i] == p.children[i].keys[t - 1]
  {
    var full := p.children[i];
    Node(p.keys[..i] + [full.keys[t - 1]] + p.keys[i..],
         p.children[..i] + [SplitLeft(full, t), SplitRight(full, t)] + p.children[i + 1..],
         p.leaf)
  }

  /**
   * Splitting a child of a well-formed inner node keeps it well formed and
   * keeps its in-order sequence: no key is lost or added. The parent gains
   * one key and one child; the halves keep t - 1 keys and the rest.
   */
  lemma SplitChildKeeps(p: Node, i: nat, t: nat)
    requires WF(p) && !p.leaf && i < |p.children| && WF(p.children[i]) && 1 <= t <= |p.children[i].keys|
    ensures var q := SplitChild(p, i, t);
      WF(q) && !q.leaf && InOrder(q) == InOrder(p) &&
      |q.keys| == |p.keys| + 1 && q.keys[i] == p.children[i].keys[t - 1] &&
      |q.children[i].keys| == t - 1 && |q.children[i + 1].keys| == |p.children[i].keys| - t
  {
    var full := p.children[i];
    assert full in p.children;
    SplitHalves(full, t);
    WeaveReplace(p.children, p.keys, i, SplitLeft(full, t), full.keys[t - 1], SplitRight(full, t));
    var q := SplitChild(p, i, t);
    forall c | c in q.children ensures WF(c) {
      if c in p.children[..i] || c in p.children[i + 1..] {
        assert c in p.children;
      }
    }
  }

  /**
   * The step of insertRecursive after the recursive call: child idx is
   * replaced by c, and split when it holds more than 2t - 1 keys. The shape
   * test in the split guard only holds back a split that a well-formed tree
   * never needs.
   */
  function Reattach(n: Node, idx: nat, c: Node, t: nat): (q: Node)
    requires t >= 1 && idx < |n.children| && idx <= |n.keys|
    ensures q.leaf == n.leaf && |q.children| - |q.keys| == |n.children| - |n.keys|
    ensures |q.keys| == |n.keys| + (if |q.children| == |n.children| then 0 else 1)
  {
    var n' := n.(children := n.children[idx := c]);
    if |c.keys| > 2 * t - 1 && (c.leaf || t <= |c.children|) then SplitChild(n', idx, t) else n'
  }

  /**
   * insertRecursive (btree.cpp:53-71): a key already in the node leaves it
   * alone; a leaf takes the key at its lower bound; an inner node inserts
   * into the child at the lower bound and splits that child when it
   * overflows.
   */
  function InsertRec(n: Node, key: int, t: nat): (q: Node)
    requires t >= 1
    ensures q.leaf == n.leaf && |n.keys| <= |q.keys| <= |n.keys| + 1
    ensures !n.leaf ==> |q.children| - |q.keys| == |n.children| - |n.keys|
    decreases n
  {
    var idx := LowerBound(n.keys, key);
    if idx < |n.keys| && n.keys[idx] == key then n
    else if n.leaf then n.(keys := InsertSorted(n.keys, key))
    else if idx >= |n.children| then n
    else Reattach(n, idx, InsertRec(n.children[idx], key, t), t)
  }

  /** Facts about a sorted sequence cut around a middle stretch x whose neighbours are below and above key. */
  lemma SortedAround(pre: seq<int>, x: seq<int>, post: seq<int>, key: int)
    requires Sorted(pre + x + post)
    requires pre != [] ==> pre[|pre| - 1] < key
    requires post != [] ==> key < post[0]
    ensures (forall a :: a in pre ==> a < key) && (forall b :: b in post ==> key < b)
    ensures Sorted(x) && (key in pre + x + post <==> key in x)
  {
    var s := pre + x + post;
    forall a | a in pre ensures a < key {
      var k :| 0 <= k < |pre| && pre[k] == a;
      assert s[k] == a && s[|pre| - 1] == pre[|pre| - 1];
    }
    forall b | b in post ensures key < b {
      var k :| 0 <= k < |post| && post[k] == b;
      var o := |pre| + |x|;
      assert s[o + k] == b && s[o] == post[0];
    }
    forall j, k | 0 <= j < k < |x| ensures x[j] < x[k] {
      assert s[|pre| + j] == x[j] && s[|pre| + k] == x[k];
    }
  }

  /** In a sorted inner node, a key not among its own keys can only be in the child at its lower bound. */
  lemma Descend(n: Node, key: int)
    requires WF(n) && !n.leaf && Sorted(InOrder(n))
    requires var i := LowerBound(n.keys, key); !(i < |n.keys| && n.keys[i] == key)
    ensures var i := LowerBound(n.keys, key);
      var c, pre, post := n.children[i], Before(n.children, n.keys, i), After(n.children, n.keys, i);
      InOrder(n) == pre + InOrder(c) + post &&
      (forall a :: a in pre ==> a < key) && (forall b :: b in post ==> key < b) &&
      Sorted(InOrder(c)) && WF(c) && (key in InOrder(n) <==> key in InOrder(c))
  {
    var i := LowerBound(n.keys, key);
    var c := n.children[i];
    assert c in n.children;
    WeaveAround(n.children, n.keys, i, c);
    WeaveAt(n.children, n.keys, i);
    SortedAround(Before(n.children, n.keys, i), InOrder(c), After(n.children, n.keys, i), key);
  }

  /** A key of an inner node occurs in its in-order sequence. */
  lemma KeyInOrder(n: Node, i: nat)
    requires WF(n) && !n.leaf && i < |n.keys|
    ensures n.keys[i] in InOrder(n)
  {
    WeaveAround(n.children, n.keys, i, n.children[i]);
    WeaveAt(n.children, n.keys, i);
    var post := After(n.children, n.keys, i);
    assert InOrder(n)[|InOrder(n)| - |post|] == n.keys[i];
  }

  /** Putting a well-formed child in place keeps an inner node well formed. */
  lemma ReplaceChildWF(n: Node, idx: nat, c: Node)
    requires WF(n) && !n.leaf && idx < |n.children| && WF(c)
    ensures WF(n.(children := n.children[idx := c]))
  {
    var cs := n.children[idx := c];
    forall d | d in cs ensures WF(d) {
      var k :| 0 <= k < |cs| && cs[k] == d;
      if k != idx {
        assert d in n.children;
      }
    }
  }

  /** Reattaching a well-formed child keeps the node well formed, inner, with at most one more key, and weaves the child's keys in its place. */
  lemma ReattachKeeps(n: Node, idx: nat, c: Node, t: nat)
    requires t >= 1 && WF(n) && !n.leaf && idx < |n.children| && WF(c)
    ensures var r := Reattach(n, idx, c, t);
      WF(r) && !r.leaf && |r.keys| <= |n.keys| + 1 && InOrder(r) == Weave(n.children[idx := c], n.keys)
  {
    var n' := n.(children := n.children[idx := c]);
    ReplaceChildWF(n, idx, c);
    if |c.keys| > 2 * t - 1 && (c.leaf || t <= |c.children|) {
      assert n'.children[idx] == c;
      SplitChildKeeps(n', idx, t);
    }
  }

  /** Splitting a child that is one key over leaves every child of the parent within bounds. */
  lemma SplitBounded(p: Node, idx: nat, t: nat)
    requires t >= 1 && idx < |p.children| && idx <= |p.keys|
    requires forall k :: 0 <= k < |p.children| && k != idx ==> Bounded(p.children[k], t)
    requires var c := p.children[idx];
      |c.keys| == 2 * t && (c.leaf || t <= |c.children|) && forall e :: e in c.children ==> Bounded(e, t)
    ensures forall d :: d in SplitChild(p, idx, t).children ==> Bounded(d, t)
  {
    var c := p.children[idx];
    var r := SplitChild(p, idx, t);
    forall d | d in r.children ensures Bounded(d, t) {
      var k :| 0 <= k < |r.children| && r.children[k] == d;
      if k < idx {
        assert d == p.children[k];
      } else if k > idx + 1 {
        assert d == p.children[k - 1];
      } else {
        forall e | e in d.children ensures Bounded(e, t) {
          assert e in c.children;
        }
      }
    }
  }

  /**
   * Reattaching a child that is at most one key over, below a node within
   * bounds, leaves every child within bounds and the node at most one key
   * over.
   */
  lemma ReattachBounded(n: Node, idx: nat, c: Node, t: nat)
    requires t >= 1 && WF(n) && !n.leaf && idx < |n.children| && WF(c) && Bounded(n, t)
    requires |c.keys| <= 2 * t && forall e :: e in c.children ==> Bounded(e, t)
    ensures var r := Reattach(n, idx, c, t);
      |r.keys| <= 2 * t && forall d :: d in r.children ==> Bounded(d, t)
  {
    var n' := n.(children := n.children[idx := c]);
    forall k | 0 <= k < |n'.children| && k != idx ensures Bounded(n'.children[k], t) {
      assert n'.children[k] in n.children;
    }
    if |c.keys| > 2 * t - 1 && (c.leaf || t <= |c.children|) {
      SplitBounded(n', idx, t);
    } else {
      forall d | d in n'.children ensures Bounded(d, t) {
        var k :| 0 <= k < |n'.children| && n'.children[k] == d;
      }
    }
  }

  /** Insertion keeps the tree well formed and the node's kind, and adds at most one key to the node. */
  lemma {:induction false} InsertWF(n: Node, key: int, t: nat)
    requires t >= 1 && WF(n)
    ensures var r := InsertRec(n, key, t); WF(r) && r.leaf == n.leaf && |r.keys| <= |n.keys| + 1
    decreases n
  {
    var idx := LowerBound(n.keys, key);
    if !(idx < |n.keys| && n.keys[idx] == key) && !n.leaf {
      var c0 := n.children[idx];
      assert c0 in n.children;
      InsertWF(c0, key, t);
      ReattachKeeps(n, idx, InsertRec(c0, key, t), t);
    }
  }

  /** Inserting into a bounded tree leaves every node below the root bounded and the root at most one key over. */
  lemma {:induction false} InsertBounded(n: Node, key: int, t: nat)
    requires t >= 1 && WF(n) && Bounded(n, t)
    ensures var r := InsertRec(n, key, t);
      |r.keys| <= 2 * t && forall c :: c in r.children ==> Bounded(c, t)
    decreases n
  {
    var idx := LowerBound(n.keys, key);
    if !(idx < |n.keys| && n.keys[idx] == key) && !n.leaf {
      var c0 := n.children[idx];
      assert c0 in n.children;
      InsertBounded(c0, key, t);
      InsertWF(c0, key, t);
      ReattachBounded(n, idx, InsertRec(c0, key, t), t);
    }
  }

  /** A key already in a bounded sorted tree leaves it unchanged. */
  lemma {:induction false} InsertPresent(n: Node, key: int, t: nat)
    requires t >= 1 && WF(n) && Bounded(n, t) && Sorted(InOrder(n)) && key in InOrder(n)
    ensures InsertRec(n, key, t) == n
    decreases n
  {
    var idx := LowerBound(n.keys, key);
    if n.leaf {
      LowerBoundFinds(n.keys, key);
    } else if !(idx < |n.keys| && n.keys[idx] == key) {
      var c0 := n.children[idx];
      Descend(n, key);
      assert c0 in n.children;
      InsertPresent(c0, key, t);
      assert n.children[idx := c0] == n.children;
    }
  }

  /** A key not yet in a sorted tree ends up in its in-order sequence at its lower bound, the rest in place. */
  lemma {:induction false} InsertContents(n: Node, key: int, t: nat)
    requires t >= 1 && WF(n) && Sorted(InOrder(n)) && key !in InOrder(n)
    ensures InOrder(InsertRec(n, key, t)) == InsertSorted(InOrder(n), key)
    decreases n
  {
    var idx := LowerBound(n.keys, key);
    if n.leaf {
      LowerBoundFinds(n.keys, key);
    } else {
      if idx < |n.keys| && n.keys[idx] == key {
        KeyInOrder(n, idx);
      }
      var c0 := n.children[idx];
      Descend(n, key);
      InsertContents(c0, key, t);
      InsertWF(c0, key, t);
      var c := InsertRec(c0, key, t);
      ReattachKeeps(n, idx, c, t);
      WeaveAround(n.children, n.keys, idx, c);
      InsertSortedMiddle(Before(n.children, n.keys, idx), InOrder(c0), After(n.children, n.keys, idx), key);
    }
  }

  /** Splitting a root holding 2t keys under a fresh root gives a bounded tree with the same keys. */
  lemma RootSplit(r: Node, t: nat)
    requires t >= 1 && WF(r) && |r.keys| == 2 * t && forall e :: e in r.children ==> Bounded(e, t)
    ensures var q := SplitChild(Node([], [r], false), 0, t);
      WF(q) && Bounded(q, t) && InOrder(q) == InOrder(r) && |q.keys| == 1
  {
    var p := Node([], [r], false);
    assert WF(p);
    SplitChildKeeps(p, 0, t);
    var q := SplitChild(p, 0, t);
    assert Weave([r], []) == InOrder(r);
    forall d | d in q.children ensures Bounded(d, t) {
      forall e | e in d.children ensures Bounded(e, t) {
        assert e in r.children;
      }
    }
  }

  /** The tree object of btree.cpp (class BTree): the root and the minimum degree. */
  class BTree {
    var root: Node
    const t: nat
    /** The keys inserted so far. */
    ghost var Contents: set<int>

    ghost predicate Valid()
      reads this
    {
      t >= 1 && WF(root) && Bounded(root, t) && Sorted(InOrder(root)) && Elems(InOrder(root)) == Contents
    }

    /** The constructor (btree.cpp:74-76): an empty leaf as the root. */
    constructor (minDegree: nat)
      requires minDegree >= 1
      ensures Valid() && t == minDegree && Contents == {} && root.leaf
    {
      t := minDegree;
      root := Node([], [], true);
      Contents := {};
    }

    /**
     * search (btree.cpp:78-88): walks down from the root by lower bound,
     * and finds exactly the keys the tree holds.
     */
    method Search(key: int) returns (found: bool)
      requires Valid()
      ensures found <==> key in Contents
    {
      var cur := root;
      while true
        invariant WF(cur) && Sorted(InOrder(cur))
        invariant key in Contents <==> key in InOrder(cur)
        decreases cur
      {
        var idx := LowerBound(cur.keys, key);
        if idx < |cur.keys| && cur.keys[idx] == key {
          if !cur.leaf {
            KeyInOrder(cur, idx);
          }
          return true;
        }
        if cur.leaf {
          LowerBoundFinds(cur.keys, key);
          return false;
        }
        Descend(cur, key);
        cur := cur.children[idx];
      }
    }

    /**
     * insert (btree.cpp:91-100): insertRecursive from the root, then an
     * overfull root is split under a new inner root with that one key.
     * A present key changes nothing; a new one goes into the in-order
     * sequence at its place, and every node stays within 2t - 1 keys.
     */
    method Insert(key: int)
      requires Valid()
      modifies this
      ensures Valid() && Contents == old(Contents) + {key}
      ensures key in old(Contents) ==> root == old(root)
      ensures key !in old(Contents) ==> InOrder(root) == InsertSorted(old(InOrder(root)), key)
    {
      var r := InsertRec(root, key, t);
      InsertWF(root, key, t);
      InsertBounded(root, key, t);
      if key in InOrder(root) {
        InsertPresent(root, key, t);
      } else {
        InsertContents(root, key, t);
        InsertSortedSorted(InOrder(root), key);
      }
      if |r.keys| > 2 * t - 1 {
        RootSplit(r, t);
        r := SplitChild(Node([], [r], false), 0, t);
      }
      root := r;
      Contents := Contents + {key};
    }
  }

  /** The loop of main that inserts keys one after another. */
  method InsertAll(tree: BTree, keys: seq<int>)
    requires tree.Valid()
    modifies tree
    ensures tree.Valid() && tree.Contents == old(tree.Contents) + Elems(keys)
  {
    var i := 0;
    while i < |keys|
      invariant 0 <= i <= |keys| && tree.Valid()
      invariant tree.Contents == old(tree.Contents) + Elems(keys[..i])
    {
      ContentsNext(old(tree.Contents), tree.Contents, keys, i);
      tree.Insert(keys[i]);
      i := i + 1;
    }
    assert keys[..i] == keys;
  }

  /** One more key of the list inserted, one more element of its set in the contents. */
  lemma ContentsNext(c0: set<int>, c: set<int>, keys: seq<int>, i: nat)
    requires i < |keys| && c == c0 + Elems(keys[..i])
    ensures c + {keys[i]} == c0 + Elems(keys[..i + 1])
  {
    assert keys[..i + 1] == keys[..i] + [keys[i]];
  }

  /** Which of main's queries are among its keys. */
  lemma MainKeys()
    ensures var s := Elems([100, 4, 243, 2, 15, 7, 3, 78, 8, 9, 10]);
      8 in s && 2 in s && 10 in s && 99 !in s && 1 !in s && 12 !in s
  {
    var keys := [100, 4, 243, 2, 15, 7, 3, 78, 8, 9, 10];
    assert keys[8] == 8 && keys[3] == 2 && keys[10] == 10;
    assert forall k :: k in keys ==> k in {100, 4, 243, 2, 15, 7, 3, 78, 8, 9, 10};
  }

  /** main (btree.cpp:109-121): eleven keys into a tree of minimum degree 3, then six searches. */
  method Demonstration() returns (found: seq<bool>)
    ensures found == [true, true, true, false, false, false]
  {
    var tree := new BTree(3);
    InsertAll(tree, [100, 4, 243, 2, 15, 7, 3, 78, 8, 9, 10]);
    MainKeys();
    var f8 := tree.Search(8);
    var f2 := tree.Search(2);
    var f10 := tree.Search(10);
    var f99 := tree.Search(99);
    var f1 := tree.Search(1);
    var f12 := tree.Search(12);
    found := [f8, f2, f10, f99, f1, f12];
  }
}
