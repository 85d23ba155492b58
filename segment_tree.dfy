/**
 * The lazy segment tree of segment_tree.cpp (class MyArray), with the
 * combining operand fixed to integer addition. A leaf holds one slot's value;
 * an inner node holds the combination of its children's values and possibly a
 * pending range operation (`_op`), an arbitrary int -> int function applied to
 * everything below it. The logical array a tree stands for is given slot by
 * slot (Slot): the leaf's value with every pending operation on the way down
 * applied to it. Updates change exactly the slots in their range; range sums
 * come out right while the pending operations distribute over addition, as
 * the two scalings of main do.
 */
module SegmentTree {
  import opened Sums

  /** A node's `_op`: empty, or a function waiting to be applied to the whole subtree. */
  datatype Pending = NoOp | Op(f: int -> int)

  function Apply(p: Pending, x: int): int {
    match p
    case NoOp => x
    case Op(f) => f(x)
  }

  datatype Node =
    | Leaf(data: int)
    | Branch(data: int, op: Pending, left: Node, right: Node)

  /** Node::getData (segment_tree.cpp:45-51): the stored value, with the pending operation applied when there is one. */
  function GetData(t: Node): (d: int)
    ensures t.Leaf? || t.op.NoOp? ==> d == t.data
  {
    match t
    case Leaf(d) => d
    case Branch(d, p, _, _) => Apply(p, d)
  }

  /**
   * n / 2 rounded down, computed by halving in steps. HalfBounds pins it
   * down where a proof needs it, so that the nested midpoints of a deep tree
   * stay plain terms everywhere else.
   */
  function Half(n: nat): nat {
    if n < 2 then 0 else Half(n - 2) + 1
  }

  lemma {:induction false} HalfBounds(n: nat)
    ensures 2 * Half(n) <= n <= 2 * Half(n) + 1
  {
    if n >= 2 {
      HalfBounds(n - 2);
    }
  }

  lemma {:induction false} HalfIsQuotient(n: nat)
    ensures Half(n) == n / 2
  {
    HalfBounds(n);
  }

  /** The range split point (left_node + right_node) / 2. */
  function Mid(l: nat, r: nat): nat { Half(l + r) }

  /** A range of two or more slots splits into two non-empty halves. */
  lemma {:induction false} MidBounds(l: nat, r: nat)
    requires l < r
    ensures l <= Mid(l, r) < r
  {
    HalfBounds(l + r);
  }

  /** t has the shape create_tree gives the range [l, r]: a leaf for one slot, otherwise an inner node whose children have the shapes of the two halves. */
  ghost predicate Fits(t: Node, l: nat, r: nat) {
    match t
    case Leaf(_) => l == r
    case Branch(_, _, a, b) => l < r && Fits(a, l, Mid(l, r)) && Fits(b, Mid(l, r) + 1, r)
  }

  /**
   * The logical value of slot i in a tree over [ln, rn]: the value of the
   * leaf on the way to i, with every pending operation met on the way
   * applied, the lowest first.
   */
  function Slot(t: Node, ln: nat, rn: nat, i: nat): int {
    match t
    case Leaf(d) => d
    case Branch(_, p, a, b) =>
      Apply(p, if i <= Mid(ln, rn) then Slot(a, ln, Mid(ln, rn), i) else Slot(b, Mid(ln, rn) + 1, rn, i))
  }

  /** The sum of the logical slots lo..hi (0 when the range is empty). */
  function SlotSum(t: Node, ln: nat, rn: nat, lo: nat, hi: int): int
    decreases hi - lo
  {
    if hi < lo then 0 else SlotSum(t, ln, rn, lo, hi - 1) + Slot(t, ln, rn, hi)
  }

  /** Every inner node stores the sum of its children's getData. */
  ghost predicate Summed(t: Node) {
    match t
    case Leaf(_) => true
    case Branch(d, _, a, b) => d == GetData(a) + GetData(b) && Summed(a) && Summed(b)
  }

  /** x + y, named so that the distributive law below has a term to match on. */
  function Add(x: int, y: int): int { x + y }

  /** A pending operation that distributes over addition (a scaling, say). */
  ghost predicate Additive(p: Pending) {
    match p
    case NoOp => true
    case Op(f) => forall x, y {:trigger f(Add(x, y))} :: f(Add(x, y)) == f(x) + f(y)
  }

  /** Every pending operation in the tree distributes over addition. */
  ghost predicate AllAdditive(t: Node) {
    match t
    case Leaf(_) => true
    case Branch(_, p, a, b) => Additive(p) && AllAdditive(a) && AllAdditive(b)
  }

  /** Scaling by a constant, as multiplyByTwo and multiplyByThree do, distributes over addition. */
  lemma ScaleAdditive(f: int -> int, c: int)
    requires forall x :: f(x) == c * x
    ensures Additive(Op(f))
  {
    forall x, y ensures f(Add(x, y)) == f(x) + f(y) {
      assert c * (x + y) == c * x + c * y;
    }
  }

  /** An additive operation maps sums to sums, and 0 to 0. */
  lemma ApplyAdd(p: Pending, x: int, y: int)
    requires Additive(p)
    ensures Apply(p, x + y) == Apply(p, x) + Apply(p, y) && Apply(p, 0) == 0
  {
    if p.Op? {
      assert p.f(Add(x, y)) == p.f(x) + p.f(y);
      assert p.f(Add(0, 0)) == p.f(0) + p.f(0);
    }
  }

  /**
   * create_tree (segment_tree.cpp:74-88) over data[l..r]: a leaf holds its
   * slot's value and an inner node the sum of its children's values, with
   * nothing pending.
   */
  function CreateTree(data: seq<int>, l: nat, r: nat): (t: Node)
    requires l <= r < |data|
    ensures Fits(t, l, r) && (t.Branch? ==> t.op.NoOp?)
    decreases r - l
  {
    if l == r then
      Leaf(data[l])
    else
      MidBounds(l, r);
      var a := CreateTree(data, l, Mid(l, r));
      var b := CreateTree(data, Mid(l, r) + 1, r);
      Branch(a.data + b.data, NoOp, a, b)
  }

  /** Slot i of the tree create_tree builds over [l, r] is data[i]. */
  lemma {:induction false} CreatedSlot(data: seq<int>, l: nat, r: nat, i: nat)
    requires l <= i <= r < |data|
    ensures Slot(CreateTree(data, l, r), l, r, i) == data[i]
    decreases r - l
  {
    if l < r {
      MidBounds(l, r);
      if i <= Mid(l, r) {
        CreatedSlot(data, l, Mid(l, r), i);
      } else {
        CreatedSlot(data, Mid(l, r) + 1, r, i);
      }
    }
  }

  /** Every node create_tree builds stores the sum of its children's values, and nothing is pending. */
  lemma {:induction false} CreatedSound(data: seq<int>, l: nat, r: nat)
    requires l <= r < |data|
    ensures Summed(CreateTree(data, l, r)) && AllAdditive(CreateTree(data, l, r))
    decreases r - l
  {
    if l < r {
      MidBounds(l, r);
      CreatedSound(data, l, Mid(l, r));
      CreatedSound(data, Mid(l, r) + 1, r);
    }
  }

  /**
   * A range sum over an inner node with an additive operation is the
   * operation applied to the range sums over its children, each clipped to
   * the child's half.
   */
  lemma {:induction false} SlotSumBranch(t: Node, ln: nat, rn: nat, lo: nat, hi: int)
    requires t.Branch? && Additive(t.op) && ln <= lo
    ensures var m := Mid(ln, rn);
            SlotSum(t, ln, rn, lo, hi)
            == Apply(t.op, SlotSum(t.left, ln, m, lo, if hi <= m then hi else m) + SlotSum(t.right, m + 1, rn, if lo <= m then m + 1 else lo, hi))
    decreases hi - lo
  {
    var m := Mid(ln, rn);
    ApplyAdd(t.op, 0, 0);
    if lo <= hi {
      SlotSumBranch(t, ln, rn, lo, hi - 1);
      var x := SlotSum(t.left, ln, m, lo, if hi - 1 <= m then hi - 1 else m);
      var y := SlotSum(t.right, m + 1, rn, if lo <= m then m + 1 else lo, hi - 1);
      if hi <= m {
        ApplyAdd(t.op, x + y, Slot(t.left, ln, m, hi));
      } else {
        ApplyAdd(t.op, x + y, Slot(t.right, m + 1, rn, hi));
      }
    }
  }

  /** Under Summed and additive operations, getData is the sum of all the node's logical slots. */
  lemma {:induction false} DataIsSum(t: Node, ln: nat, rn: nat)
    requires Fits(t, ln, rn) && Summed(t) && AllAdditive(t)
    ensures GetData(t) == SlotSum(t, ln, rn, ln, rn)
  {
    if t.Branch? {
      var m := Mid(ln, rn);
      MidBounds(ln, rn);
      DataIsSum(t.left, ln, m);
      DataIsSum(t.right, m + 1, rn);
      SlotSumBranch(t, ln, rn, ln, rn);
    }
  }

  /**
   * inner_query (segment_tree.cpp:102-123): a node whose range lies inside
   * [l, r] answers getData, one outside it 0; otherwise the children's
   * answers are added and the node's pending operation applied. A leaf met
   * with a range of several slots that [l, r] only partly covers has no
   * children to descend to: the source reads through a null child there
   * (ReadsNull), and the 0 this function gives in that case is only a
   * placeholder. Over the range it was built for, a tree never gets there
   * (FittedReadsNoNull).
   */
  function InnerQuery(t: Node, ln: nat, rn: nat, l: nat, r: nat): (q: int)
    ensures ln == rn ==> q == (if l <= ln <= r then GetData(t) else 0)
  {
    if ln >= l && rn <= r then
      GetData(t)
    else if rn < l || ln > r then
      0
    else
      match t
      case Leaf(_) => 0
      case Branch(_, p, a, b) => Apply(p, InnerQuery(a, ln, Mid(ln, rn), l, r) + InnerQuery(b, Mid(ln, rn) + 1, rn, l, r))
  }

  /**
   * Whether inner_query, as written, reads through a null child: its descent
   * meets a leaf whose range of several slots [l, r] only partly covers. The
   * source then calls itself on the leaf's two null children
   * (segment_tree.cpp:114-115); the first of those ranges that meets [l, r]
   * reads nullptr, at line 106 when [l, r] covers it and at line 114
   * otherwise.
   */
  predicate ReadsNull(t: Node, ln: nat, rn: nat, l: nat, r: nat)
    ensures ReadsNull(t, ln, rn, l, r) ==> ln < rn && l <= rn && ln <= r
  {
    if (ln >= l && rn <= r) || rn < l || ln > r then false
    else
      match t
      case Leaf(_) => true
      case Branch(_, _, a, b) => ReadsNull(a, ln, Mid(ln, rn), l, r) || ReadsNull(b, Mid(ln, rn) + 1, rn, l, r)
  }

  /** Over the range it was built for, a tree never makes inner_query read through a null child. */
  lemma {:induction false} FittedReadsNoNull(t: Node, ln: nat, rn: nat, l: nat, r: nat)
    requires Fits(t, ln, rn)
    ensures !ReadsNull(t, ln, rn, l, r)
  {
    match t
    case Leaf(_) =>
    case Branch(_, _, a, b) =>
      FittedReadsNoNull(a, ln, Mid(ln, rn), l, r);
      FittedReadsNoNull(b, Mid(ln, rn) + 1, rn, l, r);
  }

  function Max(x: int, y: int): int { if x < y then y else x }
  function Min(x: int, y: int): int { if x < y then x else y }

  /**
   * When every pending operation distributes over addition, a query over a
   * summed tree answers the sum of the logical slots that lie both in the
   * node's range and in [l, r].
   */
  lemma {:induction false} QuerySums(t: Node, ln: nat, rn: nat, l: nat, r: nat)
    requires Fits(t, ln, rn) && Summed(t) && AllAdditive(t)
    ensures InnerQuery(t, ln, rn, l, r) == SlotSum(t, ln, rn, Max(l, ln), Min(r, rn))
    decreases t, 1
  {
    if ln >= l && rn <= r {
      DataIsSum(t, ln, rn);
      assert Max(l, ln) == ln && Min(r, rn) == rn;
    } else if rn < l || ln > r {
      assert Max(l, ln) > Min(r, rn);
    } else {
      QueryStraddle(t, ln, rn, l, r);
    }
  }

  /** The case of QuerySums where the node's range straddles [l, r]. */
  lemma {:induction false} QueryStraddle(t: Node, ln: nat, rn: nat, l: nat, r: nat)
    requires Fits(t, ln, rn) && Summed(t) && AllAdditive(t)
    requires !(ln >= l && rn <= r) && !(rn < l || ln > r)
    ensures InnerQuery(t, ln, rn, l, r) == SlotSum(t, ln, rn, Max(l, ln), Min(r, rn))
    decreases t, 0
  {
    var m := Mid(ln, rn);
    MidBounds(ln, rn);
    QueryStep(t, ln, rn, l, r);
    QuerySums(t.left, ln, m, l, r);
    QuerySums(t.right, m + 1, rn, l, r);
    var lo, hi := Max(l, ln), Min(r, rn);
    SlotSumBranch(t, ln, rn, lo, hi);
    assert (if hi <= m then hi else m) == Min(r, m);
    assert (if lo <= m then m + 1 else lo) == Max(l, m + 1);
  }

  /** One unfolding of inner_query on a node straddling [l, r]. */
  lemma QueryStep(t: Node, ln: nat, rn: nat, l: nat, r: nat)
    requires Fits(t, ln, rn) && !(ln >= l && rn <= r) && !(rn < l || ln > r)
    ensures t.Branch?
    ensures InnerQuery(t, ln, rn, l, r) == Apply(t.op, InnerQuery(t.left, ln, Mid(ln, rn), l, r) + InnerQuery(t.right, Mid(ln, rn) + 1, rn, l, r))
  {
  }

  /**
   * The push at segment_tree.cpp:144-151: an inner node's pending operation
   * is handed to both children over their whole ranges, the node's value is
   * recomputed from theirs and its operation cleared.
   */
  function PushDown(t: Node, ln: nat, rn: nat): (u: Node)
    requires ln < rn
    ensures u.Branch? == t.Branch? && (u.Branch? ==> u.op.NoOp?)
    decreases rn - ln, 0
  {
    MidBounds(ln, rn);
    match t
    case Branch(_, Op(g), a, b) =>
      var a' := InnerUpdate(a, ln, Mid(ln, rn), ln, Mid(ln, rn), g);
      var b' := InnerUpdate(b, Mid(ln, rn) + 1, rn, Mid(ln, rn) + 1, rn, g);
      Branch(GetData(a') + GetData(b'), NoOp, a', b')
    case _ => t
  }

  /**
   * inner_update (segment_tree.cpp:131-163): a node outside [l, r] is left
   * alone and the node of a one-slot range has f applied to its value at
   * once; an inner node first pushes its own pending operation down, then
   * either takes f as its pending operation (range inside [l, r]) or updates
   * both children and recomputes its value. A leaf met with a range of
   * several slots is returned unchanged: only the hard-wired root range of
   * update (segment_tree.cpp:168) leads there, where the source would store
   * f as the leaf's pending operation when [l, r] covers the range and read
   * through the leaf's null children otherwise. Neither is modelled; the
   * update of MyArray starts from the range the tree was built for.
   */
  function InnerUpdate(t: Node, ln: nat, rn: nat, l: nat, r: nat, f: int -> int): (u: Node)
    requires ln <= rn
    ensures u.Leaf? == t.Leaf?
    ensures ln == rn && t.Leaf? ==> u == Leaf(if l <= ln <= r then f(t.data) else t.data)
    decreases rn - ln, 1
  {
    if rn < l || ln > r then
      t
    else if ln == rn then
      t.(data := f(t.data))
    else
      MidBounds(ln, rn);
      match PushDown(t, ln, rn)
      case Leaf(_) => t
      case Branch(d, _, a, b) =>
        if ln >= l && rn <= r then
          Branch(d, Op(f), a, b)
        else
          var a' := InnerUpdate(a, ln, Mid(ln, rn), l, r, f);
          var b' := InnerUpdate(b, Mid(ln, rn) + 1, rn, l, r, f);
          Branch(GetData(a') + GetData(b'), NoOp, a', b')
  }

  /** The push keeps the shape. */
  lemma {:induction false} PushFits(t: Node, ln: nat, rn: nat)
    requires Fits(t, ln, rn) && ln < rn
    ensures Fits(PushDown(t, ln, rn), ln, rn)
    decreases rn - ln, 0
  {
    MidBounds(ln, rn);
    if t.op.Op? {
      UpdateFits(t.left, ln, Mid(ln, rn), ln, Mid(ln, rn), t.op.f);
      UpdateFits(t.right, Mid(ln, rn) + 1, rn, Mid(ln, rn) + 1, rn, t.op.f);
    }
  }

  /** inner_update keeps the shape. */
  lemma {:induction false} UpdateFits(t: Node, ln: nat, rn: nat, l: nat, r: nat, f: int -> int)
    requires Fits(t, ln, rn)
    ensures Fits(InnerUpdate(t, ln, rn, l, r, f), ln, rn)
    decreases rn - ln, 1
  {
    if !(rn < l || ln > r) && ln < rn {
      MidBounds(ln, rn);
      PushFits(t, ln, rn);
      var u := PushDown(t, ln, rn);
      if !(ln >= l && rn <= r) {
        UpdateFits(u.left, ln, Mid(ln, rn), l, r, f);
        UpdateFits(u.right, Mid(ln, rn) + 1, rn, l, r, f);
      }
    }
  }

  /** The push leaves every logical slot as it was. */
  lemma {:induction false} PushSlot(t: Node, ln: nat, rn: nat, i: nat)
    requires Fits(t, ln, rn) && ln <= i <= rn && ln < rn
    ensures Slot(PushDown(t, ln, rn), ln, rn, i) == Slot(t, ln, rn, i)
    decreases rn - ln, 0
  {
    MidBounds(ln, rn);
    var m := Mid(ln, rn);
    if t.op.Op? {
      if i <= m {
        UpdateSlot(t.left, ln, m, ln, m, t.op.f, i);
      } else {
        UpdateSlot(t.right, m + 1, rn, m + 1, rn, t.op.f, i);
      }
    }
  }

  /** inner_update applies f to exactly the logical slots in [l, r], whatever f is. */
  lemma {:induction false} UpdateSlot(t: Node, ln: nat, rn: nat, l: nat, r: nat, f: int -> int, i: nat)
    requires Fits(t, ln, rn) && ln <= i <= rn
    ensures Slot(InnerUpdate(t, ln, rn, l, r, f), ln, rn, i) == if l <= i <= r then f(Slot(t, ln, rn, i)) else Slot(t, ln, rn, i)
    decreases rn - ln, 1
  {
    if !(rn < l || ln > r) && ln < rn {
      MidBounds(ln, rn);
      var m := Mid(ln, rn);
      PushSlot(t, ln, rn, i);
      PushFits(t, ln, rn);
      var u := PushDown(t, ln, rn);
      if !(ln >= l && rn <= r) {
        if i <= m {
          UpdateSlot(u.left, ln, m, l, r, f, i);
        } else {
          UpdateSlot(u.right, m + 1, rn, l, r, f, i);
        }
      }
    }
  }

  /** The push keeps every stored value the sum of its children's getData. */
  lemma {:induction false} PushSummed(t: Node, ln: nat, rn: nat)
    requires Fits(t, ln, rn) && Summed(t) && ln < rn
    ensures Summed(PushDown(t, ln, rn))
    decreases rn - ln, 0
  {
    MidBounds(ln, rn);
    if t.op.Op? {
      UpdateSummed(t.left, ln, Mid(ln, rn), ln, Mid(ln, rn), t.op.f);
      UpdateSummed(t.right, Mid(ln, rn) + 1, rn, Mid(ln, rn) + 1, rn, t.op.f);
    }
  }

  /** So does inner_update: every inner node it rebuilds recomputes its value from its children. */
  lemma {:induction false} UpdateSummed(t: Node, ln: nat, rn: nat, l: nat, r: nat, f: int -> int)
    requires Fits(t, ln, rn) && Summed(t)
    ensures Summed(InnerUpdate(t, ln, rn, l, r, f))
    decreases rn - ln, 1
  {
    if !(rn < l || ln > r) && ln < rn {
      MidBounds(ln, rn);
      PushSummed(t, ln, rn);
      PushFits(t, ln, rn);
      var u := PushDown(t, ln, rn);
      if !(ln >= l && rn <= r) {
        UpdateSummed(u.left, ln, Mid(ln, rn), l, r, f);
        UpdateSummed(u.right, Mid(ln, rn) + 1, rn, l, r, f);
      }
    }
  }

  /** The push moves an additive operation onto the children only. */
  lemma {:induction false} PushAdditive(t: Node, ln: nat, rn: nat)
    requires AllAdditive(t) && ln < rn
    ensures AllAdditive(PushDown(t, ln, rn))
    decreases rn - ln, 0
  {
    MidBounds(ln, rn);
    if t.Branch? && t.op.Op? {
      UpdateAdditive(t.left, ln, Mid(ln, rn), ln, Mid(ln, rn), t.op.f);
      UpdateAdditive(t.right, Mid(ln, rn) + 1, rn, Mid(ln, rn) + 1, rn, t.op.f);
    }
  }

  /** An update with an additive f leaves every pending operation additive. */
  lemma {:induction false} UpdateAdditive(t: Node, ln: nat, rn: nat, l: nat, r: nat, f: int -> int)
    requires AllAdditive(t) && Additive(Op(f)) && ln <= rn
    ensures AllAdditive(InnerUpdate(t, ln, rn, l, r, f))
    decreases rn - ln, 1
  {
    if !(rn < l || ln > r) && ln < rn {
      MidBounds(ln, rn);
      PushAdditive(t, ln, rn);
      var u := PushDown(t, ln, rn);
      if u.Branch? && !(ln >= l && rn <= r) {
        UpdateAdditive(u.left, ln, Mid(ln, rn), l, r, f);
        UpdateAdditive(u.right, Mid(ln, rn) + 1, rn, l, r, f);
      }
    }
  }

  /** The logical array of a tree over the slots 0..n-1. */
  function Values(t: Node, n: nat): (s: seq<int>)
    ensures |s| == n
  {
    seq(n, i requires 0 <= i < n => Slot(t, 0, n - 1, i))
  }

  /** s with f applied to the entries whose index lies in [l, r]. */
  function ApplyRange(s: seq<int>, l: nat, r: nat, f: int -> int): (u: seq<int>)
    ensures |u| == |s|
  {
    seq(|s|, i requires 0 <= i < |s| => if l <= i <= r then f(s[i]) else s[i])
  }

  /** The sum of the entries of s whose index lies in [l, r]. */
  function RangeSum(s: seq<int>, l: nat, r: nat): int {
    if l > r || l >= |s| then 0 else Sum(s[l..Min(r, |s| - 1) + 1])
  }

  /** A range sum over the slots of a tree is the sum of the corresponding stretch of its logical array. */
  lemma {:induction false} SlotSumIsSum(t: Node, n: nat, lo: nat, hi: int)
    requires 1 <= n && lo <= hi + 1 && hi < n
    ensures SlotSum(t, 0, n - 1, lo, hi) == Sum(Values(t, n)[lo..hi + 1])
    decreases hi - lo
  {
    if lo <= hi {
      var s := Values(t, n);
      SlotSumIsSum(t, n, lo, hi - 1);
      assert s[lo..hi + 1][..hi - lo] == s[lo..hi];
    }
  }

  /**
   * The array object of segment_tree.cpp (class MyArray): the root of the
   * tree and the number of slots it was built over.
   */
  class MyArray {
    var root: Node
    const size: nat

    /** The root has the shape create_tree gives 0..size-1 and every inner node stores the sum of its children. */
    ghost predicate Valid()
      reads this
    {
      size >= 1 && Fits(root, 0, size - 1) && Summed(root)
    }

    /** The constructor (segment_tree.cpp:13-18): the tree over data, standing for data itself. */
    constructor (data: seq<int>)
      requires |data| >= 1
      ensures Valid() && size == |data| && Values(root, size) == data && AllAdditive(root)
    {
      size := |data|;
      root := CreateTree(data, 0, |data| - 1);
      new;
      CreatedSound(data, 0, |data| - 1);
      forall i | 0 <= i < |data|
        ensures Values(root, size)[i] == data[i]
      {
        CreatedSlot(data, 0, |data| - 1, i);
      }
    }

    /**
     * query (segment_tree.cpp:125-129), over the tree's own range 0..size-1:
     * while every pending operation distributes over addition, the sum of
     * the logical slots in [l, r].
     */
    method Query(l: nat, r: nat) returns (x: int)
      requires Valid()
      ensures AllAdditive(root) ==> x == RangeSum(Values(root, size), l, r)
    {
      x := InnerQuery(root, 0, size - 1, l, r);
      if AllAdditive(root) {
        QuerySums(root, 0, size - 1, l, r);
        if l <= Min(r, size - 1) {
          SlotSumIsSum(root, size, l, Min(r, size - 1));
        }
      }
    }

    /**
     * update (segment_tree.cpp:165-169), over the tree's own range
     * 0..size-1: f is applied to the logical slots in [l, r] and nowhere
     * else, the tree keeps its invariant, and pending operations stay
     * additive when f is.
     */
    method Update(f: int -> int, l: nat, r: nat)
      requires Valid()
      modifies this
      ensures Valid()
      ensures Values(root, size) == ApplyRange(old(Values(root, size)), l, r, f)
      ensures old(AllAdditive(root)) && Additive(Op(f)) ==> AllAdditive(root)
    {
      var t := root;
      root := InnerUpdate(root, 0, size - 1, l, r, f);
      UpdateFits(t, 0, size - 1, l, r, f);
      UpdateSummed(t, 0, size - 1, l, r, f);
      if AllAdditive(t) && Additive(Op(f)) {
        UpdateAdditive(t, 0, size - 1, l, r, f);
      }
      forall i | 0 <= i < size
        ensures Values(root, size)[i] == ApplyRange(Values(t, size), l, r, f)[i]
      {
        UpdateSlot(t, 0, size - 1, l, r, f, i);
      }
    }
  }

  /**
   * query as segment_tree.cpp:125-129 writes it: the root range is the
   * constant 0..7, whatever the number of slots the tree was built over.
   */
  function QueryAsWritten(t: Node, l: nat, r: nat): (q: int)
    ensures 7 < l ==> q == 0
  {
    InnerQuery(t, 0, 7, l, r)
  }

  /** create_tree over two slots. */
  lemma CreatedTwoSlots()
    ensures CreateTree([1, 1], 0, 1) == Branch(2, NoOp, Leaf(1), Leaf(1))
  {
    assert Mid(0, 1) == 0;
  }

  /**
   * Over two slots, query(0, 1) as written descends from the constant root
   * range into the leaf for slot 0 with the range 0..3, and reads through
   * that leaf's null left child.
   */
  lemma FixedRangeReadsNull()
    ensures ReadsNull(CreateTree([1, 1], 0, 1), 0, 7, 0, 1)
  {
    CreatedTwoSlots();
    assert Mid(0, 7) == 3 by { assert Half(7) == Half(5) + 1 == Half(3) + 2 == Half(1) + 3; }
  }

  /**
   * Over nine slots, the last holding 1, query(8, 8) as written stops at the
   * constant root range 0..7, which lies wholly before slot 8, and answers 0
   * without reading any child, where the slot holds 1.
   */
  lemma FixedRangeUndercounts(s: seq<int>, t: Node)
    requires s == [0, 0, 0, 0, 0, 0, 0, 0, 1] && t == CreateTree(s, 0, 8)
    ensures QueryAsWritten(t, 8, 8) == 0 && !ReadsNull(t, 0, 7, 8, 8) && RangeSum(s, 8, 8) == 1
  {
    LastSlotSum(s);
  }

  /** The range 8..8 of those nine slots sums to 1. */
  lemma LastSlotSum(s: seq<int>)
    requires s == [0, 0, 0, 0, 0, 0, 0, 0, 1]
    ensures RangeSum(s, 8, 8) == 1
  {
    assert Min(8, |s| - 1) == 8;
    var u := s[8..9];
    assert u == [s[8]] && s[8] == 1;
    assert u[..0] == [];
    assert Sum(u) == Sum(u[..0]) + u[0];
  }

  /** Extending a range by one index adds that entry. */
  lemma RangeSumStep(s: seq<int>, l: nat, r: nat)
    requires l <= r + 1 < |s|
    ensures RangeSum(s, l, r + 1) == RangeSum(s, l, r) + s[r + 1]
  {
    assert Min(r + 1, |s| - 1) == r + 1 && Min(r, |s| - 1) == r;
    var u := s[l..r + 2];
    assert u[..|u| - 1] == s[l..r + 1] && u[|u| - 1] == s[r + 1];
    assert Sum(u) == Sum(u[..|u| - 1]) + s[r + 1];
    if l > r {
      assert u[..|u| - 1] == [];
    }
  }

  /** The range sums main prints first. */
  lemma InitialSums()
    ensures var s := [0, 1, 2, 3, 4, 5, 6, 7];
      RangeSum(s, 1, 5) == 15 && RangeSum(s, 2, 6) == 20 && RangeSum(s, 1, 6) == 21 && RangeSum(s, 0, 7) == 28
  {
    var s := [0, 1, 2, 3, 4, 5, 6, 7];
    assert s[0..1] == [s[0]] && [s[0]][..0] == [];
    RangeSumStep(s, 0, 0);
    RangeSumStep(s, 0, 1);
    RangeSumStep(s, 0, 2);
    RangeSumStep(s, 0, 3);
    RangeSumStep(s, 0, 4);
    RangeSumStep(s, 0, 5);
    RangeSumStep(s, 0, 6);
    RangeSumStep(s, 1, 0);
    RangeSumStep(s, 1, 1);
    RangeSumStep(s, 1, 2);
    RangeSumStep(s, 1, 3);
    RangeSumStep(s, 1, 4);
    RangeSumStep(s, 1, 5);
    RangeSumStep(s, 2, 1);
    RangeSumStep(s, 2, 2);
    RangeSumStep(s, 2, 3);
    RangeSumStep(s, 2, 4);
    RangeSumStep(s, 2, 5);
  }

  /** The range sums main prints after doubling the slots 0..3. */
  lemma DoubledSums()
    ensures var s := [0, 2, 4, 6, 4, 5, 6, 7];
      RangeSum(s, 0, 3) == 12 && RangeSum(s, 0, 7) == 34 && RangeSum(s, 1, 6) == 27 && RangeSum(s, 0, 6) == 27
  {
    var s := [0, 2, 4, 6, 4, 5, 6, 7];
    assert s[0..1] == [s[0]] && [s[0]][..0] == [];
    RangeSumStep(s, 0, 0);
    RangeSumStep(s, 0, 1);
    RangeSumStep(s, 0, 2);
    RangeSumStep(s, 0, 3);
    RangeSumStep(s, 0, 4);
    RangeSumStep(s, 0, 5);
    RangeSumStep(s, 0, 6);
    RangeSumStep(s, 1, 0);
    RangeSumStep(s, 1, 1);
    RangeSumStep(s, 1, 2);
    RangeSumStep(s, 1, 3);
    RangeSumStep(s, 1, 4);
    RangeSumStep(s, 1, 5);
  }

  /** The range sums main prints after tripling the slots 2..5. */
  lemma TripledSums()
    ensures var s := [0, 2, 12, 18, 12, 15, 6, 7];
      RangeSum(s, 0, 3) == 32 && RangeSum(s, 2, 7) == 70 && RangeSum(s, 1, 6) == 65
  {
    var s := [0, 2, 12, 18, 12, 15, 6, 7];
    assert s[0..1] == [s[0]] && [s[0]][..0] == [];
    RangeSumStep(s, 0, 0);
    RangeSumStep(s, 0, 1);
    RangeSumStep(s, 0, 2);
    RangeSumStep(s, 1, 0);
    RangeSumStep(s, 1, 1);
    RangeSumStep(s, 1, 2);
    RangeSumStep(s, 1, 3);
    RangeSumStep(s, 1, 4);
    RangeSumStep(s, 1, 5);
    RangeSumStep(s, 2, 1);
    RangeSumStep(s, 2, 2);
    RangeSumStep(s, 2, 3);
    RangeSumStep(s, 2, 4);
    RangeSumStep(s, 2, 5);
    RangeSumStep(s, 2, 6);
  }

  lemma DoubledSlots(f: int -> int)
    requires forall x :: f(x) == 2 * x
    ensures ApplyRange([0, 1, 2, 3, 4, 5, 6, 7], 0, 3, f) == [0, 2, 4, 6, 4, 5, 6, 7]
  {
  }

  lemma TripledSlots(f: int -> int)
    requires forall x :: f(x) == 3 * x
    ensures ApplyRange([0, 2, 4, 6, 4, 5, 6, 7], 2, 5, f) == [0, 2, 12, 18, 12, 15, 6, 7]
  {
  }
  /**
   * main (segment_tree.cpp:171-208): the slots 0..7, four range sums, the
   * slots 0..3 doubled, four more sums, the slots 2..5 tripled, three more.
   */
  method Demonstration() returns (sums: seq<int>)
    ensures sums == [15, 20, 21, 28, 12, 34, 27, 27, 32, 70, 65]
  {
    var a := new MyArray([0, 1, 2, 3, 4, 5, 6, 7]);
    InitialSums();
    var q1 := a.Query(1, 5);
    var q2 := a.Query(2, 6);
    var q3 := a.Query(1, 6);
    var q4 := a.Query(0, 7);
    var double := x => 2 * x;
    ScaleAdditive(double, 2);
    DoubledSlots(double);
    a.Update(double, 0, 3);
    DoubledSums();
    var q5 := a.Query(0, 3);
    var q6 := a.Query(0, 7);
    var q7 := a.Query(1, 6);
    var q8 := a.Query(0, 6);
    var triple := x => 3 * x;
    ScaleAdditive(triple, 3);
    TripledSlots(triple);
    a.Update(triple, 2, 5);
    TripledSums();
    var q9 := a.Query(0, 3);
    var q10 := a.Query(2, 7);
    var q11 := a.Query(1, 6);
    sums := [q1, q2, q3, q4, q5, q6, q7, q8, q9, q10, q11];
  }
}
