/**
 * The fixed-capacity max-heap of max_heap.cpp: a std::array of SIZE slots of
 * which the first `size` are live, an insert that stores at the end, a remove
 * that swaps the chosen slot with the last live one, and a `heapify` that is
 * a single top-down pass over the parents below parent(size).
 */
module MaxHeap {

  /** parent (max_heap.cpp:102-106); the numerator is always even, so C++'s truncating division is exact. */
  function Parent(index: int): (p: int)
    ensures index >= 1 ==> 0 <= p < index && (index == 2 * p + 1 || index == 2 * p + 2)
    ensures index == 0 ==> p == -1
  {
    (index - 2 + index % 2) / 2
  }

  /** left (max_heap.cpp:108-112). */
  function Left(index: int): int { 2 * index + 1 }

  /** right (max_heap.cpp:114-118). */
  function Right(index: int): int { 2 * index + 2 }

  /** The children of a slot lie after it, side by side, and no two slots share a child. */
  lemma ChildSlots(i: nat, j: nat)
    ensures i < Left(i) && Right(i) == Left(i) + 1
    ensures Left(i) == Left(j) || Right(i) == Right(j) || Left(i) == Right(j) ==> i == j
  {
  }

  /** Both children of a slot name it as their parent. */
  lemma ParentOfChildren(i: nat)
    ensures Parent(Left(i)) == i && Parent(Right(i)) == i
  {
  }

  /** s with the entries at i and j exchanged (std::swap). */
  function Swap(s: seq<int>, i: int, j: int): (t: seq<int>)
    requires 0 <= i < |s| && 0 <= j < |s|
    ensures |t| == |s|
  {
    s[i := s[j]][j := s[i]]
  }

  /**
   * One iteration of heapify's loop (max_heap.cpp:67-74) at slot i: the slot
   * is swapped with its left child when smaller, then with its right child
   * when smaller.
   */
  function Step(s: seq<int>, i: nat): (t: seq<int>)
    requires Right(i) < |s|
    ensures |t| == |s|
  {
    var s1 := if s[i] < s[Left(i)] then Swap(s, i, Left(i)) else s;
    if s1[i] < s1[Right(i)] then Swap(s1, i, Right(i)) else s1
  }

  /**
   * After one iteration slot i holds the largest of the three values and is
   * no smaller than either child; only the three slots can change.
   */
  lemma StepLargest(s: seq<int>, i: nat)
    requires Right(i) < |s|
    ensures var t := Step(s, i);
            && t[i] >= t[Left(i)] && t[i] >= t[Right(i)]
            && t[i] >= s[i] && t[i] >= s[Left(i)] && t[i] >= s[Right(i)]
            && (t[i] == s[i] || t[i] == s[Left(i)] || t[i] == s[Right(i)])
            && forall k :: 0 <= k < |s| && k != i && k != Left(i) && k != Right(i) ==> t[k] == s[k]
  {
  }

  /** The number of slots heapify visits on a live prefix of length n: parent(n), or none when that is negative. */
  function Rounds(n: nat): (k: nat)
    ensures k == 0 || Right(k - 1) < n
  {
    if Parent(n) < 0 then 0 else Parent(n)
  }

  /** The first k iterations of heapify's loop, in order of increasing slot. */
  function Sweep(s: seq<int>, k: nat): (t: seq<int>)
    requires k == 0 || Right(k - 1) < |s|
    ensures |t| == |s|
  {
    if k == 0 then s else Step(Sweep(s, k - 1), k - 1)
  }

  /** heapify (max_heap.cpp:60-76) on the live prefix. */
  function Pass(s: seq<int>): (t: seq<int>)
    ensures |t| == |s|
  {
    Sweep(s, Rounds(|s|))
  }

  /** A step below the end of a prefix leaves whatever follows the prefix alone. */
  lemma StepPrefix(a: seq<int>, b: seq<int>, i: nat)
    requires Right(i) < |a|
    ensures Step(a + b, i) == Step(a, i) + b
  {
  }

  /** So does a sweep whose slots all have both children inside the prefix of length n. */
  lemma {:induction false} SweepPrefix(s: seq<int>, n: nat, k: nat)
    requires n <= |s| && (k == 0 || Right(k - 1) < n)
    ensures Sweep(s, k) == Sweep(s[..n], k) + s[n..]
  {
    if k == 0 {
      assert s == s[..n] + s[n..];
    } else {
      SweepPrefix(s, n, k - 1);
      SweepPrefixStep(s, n, k);
    }
  }

  /** The inductive step of SweepPrefix: one more step below the prefix's end. */
  lemma SweepPrefixStep(s: seq<int>, n: nat, k: nat)
    requires n <= |s| && k > 0 && Right(k - 1) < n
    requires Sweep(s, k - 1) == Sweep(s[..n], k - 1) + s[n..]
    ensures Sweep(s, k) == Sweep(s[..n], k) + s[n..]
  {
    var a := Sweep(s[..n], k - 1);
    StepPrefix(a, s[n..], k - 1);
    assert Sweep(s, k) == Step(a + s[n..], k - 1);
  }

  lemma SwapPermutes(s: seq<int>, i: int, j: int)
    requires 0 <= i < |s| && 0 <= j < |s|
    ensures multiset(Swap(s, i, j)) == multiset(s)
  {
  }

  lemma StepPermutes(s: seq<int>, i: nat)
    requires Right(i) < |s|
    ensures multiset(Step(s, i)) == multiset(s)
  {
    SwapPermutes(s, i, Left(i));
    var s1 := if s[i] < s[Left(i)] then Swap(s, i, Left(i)) else s;
    SwapPermutes(s1, i, Right(i));
  }

  /** heapify only exchanges live slots: the live values, with their multiplicities, are kept. */
  lemma {:induction false} SweepPermutes(s: seq<int>, k: nat)
    requires k == 0 || Right(k - 1) < |s|
    ensures multiset(Sweep(s, k)) == multiset(s)
  {
    if k > 0 {
      var t := Sweep(s, k - 1);
      SweepPermutes(s, k - 1);
      StepPermutes(t, k - 1);
      assert Sweep(s, k) == Step(t, k - 1);
    }
  }

  /** A live prefix of at most two values is left as it is: the pass does nothing. */
  lemma PassShort(s: seq<int>)
    requires |s| <= 2
    ensures Pass(s) == s
  {
  }

  /**
   * When the live prefix has even length 2h+2, the first k <= h iterations
   * never reach the last slot's parent h: the last value stays where it is,
   * however large.
   */
  lemma {:induction false} SweepKeepsLast(s: seq<int>, h: nat, k: nat)
    requires |s| == 2 * h + 2 && k <= h
    ensures Sweep(s, k)[|s| - 1] == s[|s| - 1]
  {
    if k > 0 {
      SweepKeepsLast(s, h, k - 1);
      StepLargest(Sweep(s, k - 1), k - 1);
    }
  }

  /** So heapify on a live prefix of even length 2h+2 keeps its last value in place. */
  lemma PassKeepsLast(s: seq<int>, h: nat)
    requires |s| == 2 * h + 2
    ensures Pass(s)[|s| - 1] == s[|s| - 1]
  {
    assert Rounds(|s|) == h;
    SweepKeepsLast(s, h, h);
  }

  /** Hence, after inserting 1 and then 2 into an empty heap, 2 stays below 1. */
  lemma InsertTwoLeavesMaxBelow()
    ensures Pass(Pass([1]) + [2]) == [1, 2]
  {
    PassShort([1]);
    PassShort([1, 2]);
  }

  /** Removing the live slot `index` of the first `size`: the live multiset loses exactly that slot's value. */
  lemma RemovalTakesIndex(s: seq<int>, size: nat, index: nat)
    requires index < size <= |s|
    ensures multiset(Swap(s, size - 1, index)[..size - 1]) == multiset(s[..size]) - multiset{s[index]}
  {
    var t := Swap(s, size - 1, index);
    assert t[..size] == t[..size - 1] + [t[size - 1]];
    assert multiset(t[..size]) == multiset(s[..size]) by {
      assert t[..size] == Swap(s[..size], size - 1, index);
      SwapPermutes(s[..size], size - 1, index);
    }
  }

  /**
   * remove(size), which the guard lets through, with room behind the live
   * prefix: the dead slot `size` is swapped in and the last live value,
   * not the value the caller named, leaves the heap.
   */
  lemma RemovalAtSizeTakesLast(s: seq<int>, size: nat)
    requires 0 < size < |s|
    ensures Swap(s, size - 1, size)[..size - 1] == s[..size - 1]
    ensures multiset(Swap(s, size - 1, size)[..size - 1]) == multiset(s[..size]) - multiset{s[size - 1]}
  {
    assert s[..size] == s[..size - 1] + [s[size - 1]];
  }

  /** What remove leads to. */
  datatype Outcome =
    | Thrown    // `throw 42`
    | Removed
    | PastEnd   // remove(SIZE) on a full heap: std::array is indexed one past its end

  class Heap {
    /** SIZE. */
    const capacity: nat
    /** _heap: slots 0 .. size-1 are live. */
    const heap: array<int>
    /** _current_size. */
    var size: nat

    ghost predicate Valid()
      reads this
    {
      heap.Length == capacity && size <= capacity
    }

    /** The constructor (max_heap.cpp:11-13): no live slot. */
    constructor (capacity: nat)
      ensures Valid() && this.capacity == capacity && size == 0
    {
      this.capacity := capacity;
      heap := new int[capacity];
      size := 0;
    }

    /** heapify (max_heap.cpp:60-76): the live prefix becomes Pass of itself; dead slots are untouched. */
    method Heapify()
      requires Valid()
      modifies heap
      ensures heap[..size] == Pass(old(heap[..size]))
      ensures heap[size..] == old(heap[size..])
    {
      var end := Parent(size);
      ghost var s0 := heap[..];
      var i := 0;
      while i < end
        invariant 0 <= i && (i == 0 || i <= end)
        invariant heap[..] == Sweep(s0, i)
      {
        SiftAt(i);
        i := i + 1;
      }
      assert i == Rounds(size);
      SweepPrefix(s0, size, i);
      assert s0[..size] == old(heap[..size]);
    }

    /** The body of heapify's loop (max_heap.cpp:67-74) at slot i. */
    method SiftAt(i: nat)
      requires Valid() && Right(i) < heap.Length
      modifies heap
      ensures heap[..] == Step(old(heap[..]), i)
    {
      var l := Left(i);
      var r := Right(i);
      if heap[i] < heap[l] {
        heap[i], heap[l] := heap[l], heap[i];
      }
      if heap[i] < heap[r] {
        heap[i], heap[r] := heap[r], heap[i];
      }
    }

    /**
     * insert (max_heap.cpp:78-87): refused (throw) on a full heap; otherwise
     * the value is stored in the first dead slot, the live prefix grows by
     * one and heapify runs over it.
     */
    method Insert(x: int) returns (ok: bool)
      requires Valid()
      modifies this, heap
      ensures Valid() && ok == (old(size) < capacity)
      ensures ok ==> size == old(size) + 1 && heap[..size] == Pass(old(heap[..size]) + [x])
      ensures ok ==> heap[size..] == old(heap[..])[size..]
      ensures !ok ==> size == old(size) && heap[..] == old(heap[..])
      ensures multiset(heap[..size]) == if ok then old(multiset(heap[..size])) + multiset{x} else old(multiset(heap[..size]))
    {
      if size == capacity {
        return false;
      }
      heap[size] := x;
      assert heap[..size + 1] == old(heap[..size]) + [x];
      size := size + 1;
      SweepPermutes(heap[..size], Rounds(size));
      Heapify();
      ok := true;
    }

    /**
     * remove (max_heap.cpp:89-100), as written: the guard refuses a negative
     * index (it turns into a huge size_t), an index beyond the size and an
     * empty heap, but lets index == size through. The chosen slot is swapped
     * with the last live one, the size drops and heapify runs.
     */
    method Remove(index: int) returns (outcome: Outcome)
      requires Valid()
      modifies this, heap
      ensures Valid()
      ensures outcome == Thrown <==> index < 0 || index > old(size) || old(size) == 0
      ensures outcome == PastEnd <==> 0 < old(size) == index == capacity
      ensures outcome != Removed ==> size == old(size) && heap[..] == old(heap[..])
      ensures outcome == Removed ==>
                && 0 <= index < capacity && size == old(size) - 1
                && heap[..size] == Pass(Swap(old(heap[..]), size, index)[..size])
                && heap[size..] == Swap(old(heap[..]), size, index)[size..]
    {
      if index < 0 || index > size || size == 0 {
        return Thrown;
      }
      if index == capacity {
        return PastEnd;
      }
      SwapLast(index);
      size := size - 1;
      Heapify();
      outcome := Removed;
    }

    /** The swap of remove (max_heap.cpp:95): slot index trades places with the last live slot. */
    method SwapLast(index: int)
      requires Valid() && 0 <= index < heap.Length && 0 < size
      modifies heap
      ensures heap[..] == Swap(old(heap[..]), size - 1, index)
    {
      heap[size - 1], heap[index] := heap[index], heap[size - 1];
    }

    /**
     * remove with the guard the evident intent calls for (index < size):
     * exactly the value in the chosen live slot leaves the heap.
     */
    method RemoveChecked(index: int) returns (ok: bool)
      requires Valid()
      modifies this, heap
      ensures Valid() && ok == (0 <= index < old(size))
      ensures ok ==> size == old(size) - 1 && multiset(heap[..size]) == old(multiset(heap[..size])) - multiset{old(heap[index])}
      ensures !ok ==> size == old(size) && heap[..] == old(heap[..])
    {
      if index < 0 || index >= size {
        return false;
      }
      RemovalTakesIndex(heap[..], size, index);
      SwapLast(index);
      size := size - 1;
      ghost var live := heap[..size];
      SweepPermutes(live, Rounds(size));
      Heapify();
      assert heap[..size] == Pass(live);
      ok := true;
    }
  }
}
