/**
 * Heap: a binary min-heap stored in a slice, with the typed element methods
 * and the container/heap interface methods (Len, Less, Swap, Push, Pop).
 * The parts of Go's container/heap that Init and Fix run (Init, Fix, up,
 * down) are the module-level methods HeapInit, HeapFix, HeapUp and HeapDown,
 * which drive a Heap only through Len, Less and Swap.
 */
module MinHeap {
  import opened HeapOrder
  import opened Sift
  import opened Operations

  class Heap {
    /** The backing slice; slot 0 is the root. */
    var elems: seq<int>

    /** A heap over an existing slice, which Init must order before other use. */
    constructor (s: seq<int>)
      ensures elems == s
    {
      elems := s;
    }

    /** The number of elements; a nil heap is modelled as the empty one. */
    function Len(): (n: int)
      reads this
      ensures n == |elems|
      ensures n == 0 <==> elems == []
    {
      |elems|
    }

    /** Whether the element at `i` sorts strictly before the element at `j`. */
    function Less(i: int, j: int): (r: bool)
      reads this
      requires 0 <= i < |elems| && 0 <= j < |elems|
      ensures r <==> elems[i] < elems[j]
      ensures r ==> i != j && !(elems[j] < elems[i])
    {
      elems[i] < elems[j]
    }

    /** Exchanges slots `i` and `j`; returns at once when they are the same slot. */
    method Swap(i: int, j: int)
      requires 0 <= i < |elems| && 0 <= j < |elems|
      modifies this
      ensures elems == SwapSeq(old(elems), i, j)
      ensures i == j ==> elems == old(elems)
    {
      if i == j {
        return;
      }
      elems := elems[i := elems[j]][j := elems[i]];
    }

    /** Establishes heap order, keeping the same elements. */
    method Init()
      modifies this
      ensures elems == InitSeq(old(elems))
      ensures IsHeap(elems)
      ensures multiset(elems) == multiset(old(elems))
    {
      HeapInit(this);
      InitOrders(old(elems));
    }

    /** Re-establishes heap order after the element at `i` changed. */
    method Fix(i: int)
      requires 0 <= i && (i < |elems| || i == 0)
      modifies this
      ensures elems == FixSeq(old(elems), i)
      ensures multiset(elems) == multiset(old(elems))
      ensures HeapExceptAt(old(elems), i) ==> IsHeap(elems)
    {
      HeapFix(this, i);
    }

    /** Adds an element. */
    method PushElement(e: int)
      modifies this
      ensures elems == PushSeq(old(elems), e)
      ensures |elems| == |old(elems)| + 1
      ensures multiset(elems) == multiset(old(elems)) + multiset{e}
      ensures IsHeap(old(elems)) ==> IsHeap(elems)
    {
      ghost var s := elems;
      elems := elems + [e];
      HeapFix(this, |elems| - 1);
      PushContents(s, e);
      if IsHeap(s) {
        PushKeepsHeap(s, e);
      }
    }

    /** Removes and returns the root; the source panics on an empty heap. */
    method MustPopElement() returns (e: int)
      requires |elems| > 0
      modifies this
      ensures (e, elems) == PopSeq(old(elems))
      ensures e == old(elems)[0] && |elems| == |old(elems)| - 1
      ensures multiset(elems) == multiset(old(elems)) - multiset{e}
      ensures IsHeap(old(elems)) ==> IsHeap(elems) && forall k :: 0 <= k < |elems| ==> e <= elems[k]
    {
      ghost var s := elems;
      e := elems[0];
      var i := Len() - 1;
      elems := elems[0 := elems[i]];
      elems := elems[i := 0];
      elems := elems[..i];
      assert elems == s[0 := s[i]][..i];
      HeapFix(this, 0);
      PopContents(s);
      if IsHeap(s) {
        PopKeepsHeap(s);
        forall k | 0 <= k < |elems|
          ensures e <= elems[k]
        {
          assert elems[k] in PopSeq(s).1;
        }
      }
    }

    /** Removes and returns the root, or reports that the heap is empty. */
    method PopElement() returns (e: int, ok: bool)
      modifies this
      ensures ok <==> |old(elems)| > 0
      ensures !ok ==> e == 0 && elems == old(elems)
      ensures ok ==> (e, elems) == PopSeq(old(elems))
      ensures ok ==> e == old(elems)[0] && |elems| == |old(elems)| - 1
      ensures ok ==> multiset(elems) == multiset(old(elems)) - multiset{e}
      ensures ok && IsHeap(old(elems)) ==> IsHeap(elems) && forall k :: 0 <= k < |elems| ==> e <= elems[k]
    {
      if Len() == 0 {
        return 0, false;
      }
      e := MustPopElement();
      ok := true;
    }

    /** The container/heap Push adapter; it delegates to PushElement. */
    method Push(v: int)
      modifies this
      ensures elems == PushSeq(old(elems), v)
      ensures |elems| == |old(elems)| + 1
      ensures multiset(elems) == multiset(old(elems)) + multiset{v}
      ensures IsHeap(old(elems)) ==> IsHeap(elems)
    {
      PushElement(v);
    }

    /** The container/heap Pop adapter; it delegates to MustPopElement. */
    method Pop() returns (v: int)
      requires |elems| > 0
      modifies this
      ensures (v, elems) == PopSeq(old(elems))
      ensures v == old(elems)[0] && |elems| == |old(elems)| - 1
      ensures multiset(elems) == multiset(old(elems)) - multiset{v}
    {
      v := MustPopElement();
    }

    /** The root; the source panics on an empty heap. */
    function MustPeekElement(): (e: int)
      reads this
      requires |elems| > 0
      ensures e == elems[0]
      ensures IsHeap(elems) ==> forall k :: 0 <= k < |elems| ==> e <= elems[k]
    {
      HeapMinimum(elems);
      elems[0]
    }

    /** The root, or `(0, false)` when the heap is empty. */
    function PeekElement(): (r: (int, bool))
      reads this
      ensures r.1 <==> |elems| > 0
      ensures !r.1 ==> r.0 == 0
      ensures r.1 ==> r.0 == elems[0]
      ensures r.1 && IsHeap(elems) ==> forall k :: 0 <= k < |elems| ==> r.0 <= elems[k]
    {
      if Len() == 0 then
        (0, false)
      else
        HeapMinimum(elems);
        (elems[0], true)
    }

    /**
     * RemoveElement as written: swaps `i` with the last slot and pops the
     * root, so it returns the old root for `i != 0` and the old last element
     * for `i == 0`, and leaves heap order unrepaired at `i`.
     */
    method RemoveElement(i: int) returns (e: int)
      requires 0 <= i < |elems|
      modifies this
      ensures (e, elems) == RemoveSeq(old(elems), i)
      ensures e == if i == 0 then old(elems)[|old(elems)| - 1] else old(elems)[0]
      ensures |elems| == |old(elems)| - 1
      ensures multiset(elems) == multiset(old(elems)) - multiset{e}
    {
      ghost var s := elems;
      Swap(i, Len() - 1);
      e := MustPopElement();
      RemoveContents(s, i);
    }

    /**
     * Removes and returns the element at `i`, keeping heap order: the last
     * element moves into slot `i`, the last slot is dropped and `i` is fixed.
     */
    method RemoveAt(i: int) returns (e: int)
      requires 0 <= i < |elems|
      modifies this
      ensures (e, elems) == RemoveAtSeq(old(elems), i)
      ensures e == old(elems)[i] && |elems| == |old(elems)| - 1
      ensures multiset(elems) == multiset(old(elems)) - multiset{e}
      ensures IsHeap(old(elems)) ==> IsHeap(elems)
    {
      ghost var s := elems;
      var n := Len() - 1;
      if n != i {
        Swap(i, n);
      }
      e := elems[n];
      elems := elems[..n];
      if i < n {
        assert elems == s[..n][i := s[n]];
        HeapFix(this, i);
      }
      RemoveAtContents(s, i);
      if IsHeap(s) {
        RemoveAtKeepsHeap(s, i);
      }
    }
  }

  /** container/heap's `up`: swap the element at `j0` with its parent while it is strictly less. */
  method HeapUp(h: Heap, j0: int)
    requires 0 <= j0 && (j0 < |h.elems| || j0 == 0)
    modifies h
    ensures h.elems == SiftUp(old(h.elems), j0)
  {
    var j := j0;
    while true
      invariant 0 <= j && (j < |h.elems| || j == 0)
      invariant SiftUp(h.elems, j) == SiftUp(old(h.elems), j0)
      decreases j
    {
      var i := Parent(j);
      if i == j || !h.Less(j, i) {
        break;
      }
      h.Swap(i, j);
      j := i;
    }
  }

  /**
   * container/heap's `down` over the whole slice: swap the element at `i0`
   * with its smaller child while that child is strictly less. Reports whether
   * it moved.
   */
  method HeapDown(h: Heap, i0: int) returns (moved: bool)
    requires 0 <= i0
    modifies h
    ensures h.elems == SiftDown(old(h.elems), i0)
    ensures moved == DownMoves(old(h.elems), i0)
  {
    var n := h.Len();
    var i := i0;
    ghost var target := SiftDown(h.elems, i0);
    while true
      invariant i0 <= i && |h.elems| == n
      invariant SiftDown(h.elems, i) == target
      invariant i == i0 ==> h.elems == old(h.elems)
      invariant i > i0 ==> DownMoves(old(h.elems), i0)
      decreases n - i
    {
      var j1 := 2 * i + 1;
      if j1 >= n {
        break;
      }
      var j := j1;
      var j2 := j1 + 1;
      if j2 < n && h.Less(j2, j1) {
        j := j2;
      }
      assert j == MinChild(h.elems, i);
      if !h.Less(j, i) {
        break;
      }
      ghost var s := h.elems;
      assert DownMoves(s, i) && SiftDown(s, i) == SiftDown(SwapSeq(s, i, j), j);
      h.Swap(i, j);
      i := j;
    }
    moved := i > i0;
  }

  /** container/heap's `Fix`: sift down, and sift up only if sift-down made no move. */
  method HeapFix(h: Heap, i: int)
    requires 0 <= i && (i < |h.elems| || i == 0)
    modifies h
    ensures h.elems == FixSeq(old(h.elems), i)
    ensures multiset(h.elems) == multiset(old(h.elems))
    ensures HeapExceptAt(old(h.elems), i) ==> IsHeap(h.elems)
  {
    ghost var s := h.elems;
    var moved := HeapDown(h, i);
    if !moved {
      HeapUp(h, i);
    }
    FixPerm(s, i);
    if HeapExceptAt(s, i) {
      FixOrders(s, i);
    }
  }

  /** container/heap's `Init`: sift down from every parent, last parent first. */
  method HeapInit(h: Heap)
    modifies h
    ensures h.elems == InitSeq(old(h.elems))
  {
    var n := h.Len();
    var i := n / 2 - 1;
    while i >= 0
      invariant -1 <= i && |h.elems| == n
      invariant InitFrom(h.elems, i) == InitSeq(old(h.elems))
      decreases i + 1
    {
      var moved := HeapDown(h, i);
      i := i - 1;
    }
  }
}
