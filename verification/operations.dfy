/**
 * What Heap's mutating operations do to the backing slice, as functions,
 * with the properties each one keeps.
 */
module Operations {
  import opened HeapOrder
  import opened Sift

  /** PushElement: append, then Fix the new last index. */
  function PushSeq(s: seq<int>, e: int): (r: seq<int>)
    ensures |r| == |s| + 1
  {
    FixSeq(s + [e], |s|)
  }

  /** The new last slot has no children, so the Fix in a push is a plain sift-up. */
  lemma PushIsSiftUp(s: seq<int>, e: int)
    ensures PushSeq(s, e) == SiftUp(s + [e], |s|)
  {
  }

  /** Pushing adds exactly the pushed element. */
  lemma PushContents(s: seq<int>, e: int)
    ensures multiset(PushSeq(s, e)) == multiset(s) + multiset{e}
  {
    FixPerm(s + [e], |s|);
  }

  /** Pushing onto a heap keeps it a heap. */
  lemma PushKeepsHeap(s: seq<int>, e: int)
    requires IsHeap(s)
    ensures IsHeap(PushSeq(s, e))
  {
    FixOrders(s + [e], |s|);
  }

  /** Moving the last element to slot 0 and dropping the last slot removes exactly the old root. */
  lemma LastToRoot(s: seq<int>)
    requires |s| > 0
    ensures multiset(s[0 := s[|s| - 1]][..|s| - 1]) == multiset(s) - multiset{s[0]}
  {
    var n := |s| - 1;
    if n > 0 {
      var mid := s[1..n];
      var rest := multiset(mid) + multiset{s[n]};
      SplitEnds(s);
      assert multiset(s) == multiset{s[0]} + rest;
      LastOverRoot(s);
      assert multiset(s[0 := s[n]][..n]) == rest;
    }
  }

  /** A slice of two or more is its first element, its middle and its last element. */
  lemma SplitEnds(s: seq<int>)
    requires |s| > 1
    ensures multiset(s) == multiset{s[0]} + multiset(s[1..|s| - 1]) + multiset{s[|s| - 1]}
  {
    assert s == [s[0]] + s[1..|s| - 1] + [s[|s| - 1]];
  }

  /** Overwriting slot 0 with the last element and dropping the last slot leaves that element before the middle. */
  lemma LastOverRoot(s: seq<int>)
    requires |s| > 1
    ensures multiset(s[0 := s[|s| - 1]][..|s| - 1]) == multiset{s[|s| - 1]} + multiset(s[1..|s| - 1])
  {
    assert s[0 := s[|s| - 1]][..|s| - 1] == [s[|s| - 1]] + s[1..|s| - 1];
  }

  /**
   * MustPopElement: save the root, move the last element to slot 0, shrink by
   * one and Fix index 0. Returns the saved root and the new slice.
   */
  function PopSeq(s: seq<int>): (r: (int, seq<int>))
    requires |s| > 0
    ensures r.0 == s[0] && |r.1| == |s| - 1
  {
    var n := |s| - 1;
    (s[0], FixSeq(s[0 := s[n]][..n], 0))
  }

  /** Sift-up from the root never moves, so the Fix in a pop is a plain sift-down. */
  lemma PopIsSiftDown(s: seq<int>)
    requires |s| > 0
    ensures PopSeq(s).1 == SiftDown(s[0 := s[|s| - 1]][..|s| - 1], 0)
  {
  }

  /** Popping removes exactly the returned root. */
  lemma PopContents(s: seq<int>)
    requires |s| > 0
    ensures multiset(PopSeq(s).1) == multiset(s) - multiset{s[0]}
  {
    var n := |s| - 1;
    LastToRoot(s);
    FixPerm(s[0 := s[n]][..n], 0);
  }

  /** Slot 0 of a heap with one element moved there is out of order at most at slot 0. */
  lemma LastToRootOrder(s: seq<int>)
    requires |s| > 0 && IsHeap(s)
    ensures HeapExceptAt(s[0 := s[|s| - 1]][..|s| - 1], 0)
  {
    var t := s[0 := s[|s| - 1]][..|s| - 1];
    forall k | 0 < k < |t| && Parent(k) != 0
      ensures t[Parent(k)] <= t[k]
    {
      assert t[k] == s[k] && t[Parent(k)] == s[Parent(k)];
    }
  }

  /** Popping a heap returns a minimum and leaves a heap. */
  lemma PopKeepsHeap(s: seq<int>)
    requires |s| > 0 && IsHeap(s)
    ensures IsHeap(PopSeq(s).1)
    ensures forall x :: x in PopSeq(s).1 ==> PopSeq(s).0 <= x
  {
    var n := |s| - 1;
    LastToRootOrder(s);
    FixOrders(s[0 := s[n]][..n], 0);
    PopContents(s);
    forall x | x in PopSeq(s).1
      ensures s[0] <= x
    {
      assert x in multiset(PopSeq(s).1);
      var m :| 0 <= m < |s| && s[m] == x;
      RootIsMin(s, m);
    }
  }

  /**
   * RemoveElement as the source writes it: swap slot `i` with the last slot,
   * then pop the root. The element returned is whatever sits at slot 0 after
   * the swap, not the element at `i`.
   */
  function RemoveSeq(s: seq<int>, i: nat): (r: (int, seq<int>))
    requires i < |s|
    ensures r.0 == if i == 0 then s[|s| - 1] else s[0]
    ensures |r.1| == |s| - 1
  {
    PopSeq(SwapSeq(s, i, |s| - 1))
  }

  /** RemoveElement removes exactly the element it returns. */
  lemma RemoveContents(s: seq<int>, i: nat)
    requires i < |s|
    ensures multiset(RemoveSeq(s, i).1) == multiset(s) - multiset{RemoveSeq(s, i).0}
  {
    var w := SwapSeq(s, i, |s| - 1);
    SwapPerm(s, i, |s| - 1);
    PopContents(w);
  }

  /** [1,3,2,7,5] is a heap, and RemoveElement(3) on it returns 1 rather than the 7 stored at index 3. */
  lemma RemoveElementWrongResult()
    ensures IsHeap([1, 3, 2, 7, 5])
    ensures RemoveSeq([1, 3, 2, 7, 5], 3).0 == 1 != [1, 3, 2, 7, 5][3]
  {
    var s := [1, 3, 2, 7, 5];
    forall k | 0 < k < 5
      ensures s[Parent(k)] <= s[k]
    {
      assert k == 1 || k == 2 || k == 3 || k == 4;
    }
  }

  /** Fix(0) on [6,5,1,2,7] swaps 6 with its smaller child 1 and stops there. */
  lemma FixTrace()
    ensures FixSeq([6, 5, 1, 2, 7], 0) == [1, 5, 6, 2, 7]
  {
    var t := [6, 5, 1, 2, 7];
    var u := [1, 5, 6, 2, 7];
    assert MinChild(t, 0) == 2;
    assert SwapSeq(t, 0, 2) == u;
    assert !DownMoves(u, 2);
  }

  /** RemoveElement(3) on [0,5,1,6,7,2] swaps slots 3 and 5, pops 0 and sifts 6 down, leaving [1,5,6,2,7]. */
  lemma RemoveElementTrace()
    ensures RemoveSeq([0, 5, 1, 6, 7, 2], 3).1 == [1, 5, 6, 2, 7]
  {
    SwapTrace();
    LastToRootTrace();
    FixTrace();
  }

  lemma LastToRootTrace()
    ensures [0, 5, 1, 2, 7, 6][0 := 6][..5] == [6, 5, 1, 2, 7]
  {
  }

  lemma SwapTrace()
    ensures SwapSeq([0, 5, 1, 6, 7, 2], 3, 5) == [0, 5, 1, 2, 7, 6]
  {
  }

  /**
   * [0,5,1,6,7,2] is a heap, and RemoveElement(3) on it leaves a slice that is
   * not: 2 at index 3 is less than its parent 5 at index 1.
   */
  lemma RemoveElementBreaksOrder()
    ensures IsHeap([0, 5, 1, 6, 7, 2])
    ensures !IsHeap(RemoveSeq([0, 5, 1, 6, 7, 2], 3).1)
  {
    SixIsHeap();
    RemoveElementTrace();
    var u := [1, 5, 6, 2, 7];
    assert Parent(3) == 1 && u[1] > u[3];
  }

  lemma SixIsHeap()
    ensures IsHeap([0, 5, 1, 6, 7, 2])
  {
    var s := [0, 5, 1, 6, 7, 2];
    forall k | 0 < k < 6
      ensures s[Parent(k)] <= s[k]
    {
      assert k == 1 || k == 2 || k == 3 || k == 4 || k == 5;
    }
  }

  /**
   * The removal the source's comment describes, in the shape of
   * container/heap's Remove: move the last element into slot `i`, drop the
   * last slot, and Fix `i` if it is still inside the slice.
   */
  function RemoveAtSeq(s: seq<int>, i: nat): (r: (int, seq<int>))
    requires i < |s|
    ensures r.0 == s[i] && |r.1| == |s| - 1
  {
    var n := |s| - 1;
    (s[i], if i == n then s[..n] else FixSeq(s[..n][i := s[n]], i))
  }

  /** The corrected removal removes exactly the element at `i`. */
  lemma RemoveAtContents(s: seq<int>, i: nat)
    requires i < |s|
    ensures multiset(RemoveAtSeq(s, i).1) == multiset(s) - multiset{s[i]}
  {
    var n := |s| - 1;
    assert s == s[..n] + [s[n]];
    if i < n {
      FixPerm(s[..n][i := s[n]], i);
    }
  }

  /** Removing any index from a heap with the corrected removal keeps a heap. */
  lemma RemoveAtKeepsHeap(s: seq<int>, i: nat)
    requires i < |s| && IsHeap(s)
    ensures IsHeap(RemoveAtSeq(s, i).1)
  {
    var n := |s| - 1;
    if i < n {
      var u := s[..n][i := s[n]];
      assert HeapExceptAt(u, i) by {
        PrefixIsHeap(s, n);
        ChangedElement(s[..n], i, s[n]);
      }
      FixOrders(u, i);
      assert RemoveAtSeq(s, i).1 == FixSeq(u, i);
    } else {
      PrefixIsHeap(s, n);
    }
  }

  /** Pops every element in turn. */
  function PopAll(s: seq<int>): (r: seq<int>)
    ensures |r| == |s|
    decreases |s|
  {
    if |s| == 0 then
      []
    else
      var p := PopSeq(s);
      [p.0] + PopAll(p.1)
  }

  /** Popping until empty yields every element exactly once. */
  lemma {:induction false} PopAllPerm(s: seq<int>)
    ensures multiset(PopAll(s)) == multiset(s)
    decreases |s|
  {
    if |s| > 0 {
      var p := PopSeq(s);
      PopContents(s);
      PopAllPerm(p.1);
      assert PopAll(s) == [p.0] + PopAll(p.1);
      assert multiset(PopAll(s)) == multiset{s[0]} + multiset(p.1);
      assert s[0] in multiset(s);
    }
  }

  predicate Sorted(s: seq<int>)
  {
    forall a, b :: 0 <= a < b < |s| ==> s[a] <= s[b]
  }

  /** Prepending a lower bound of a sorted sequence keeps it sorted. */
  lemma SortedCons(e: int, rest: seq<int>)
    requires Sorted(rest) && forall x :: x in rest ==> e <= x
    ensures Sorted([e] + rest)
  {
    var r := [e] + rest;
    forall a, b | 0 <= a < b < |r|
      ensures r[a] <= r[b]
    {
      assert r[b] == rest[b - 1] && rest[b - 1] in rest;
      if a > 0 {
        assert r[a] == rest[a - 1];
      }
    }
  }

  /** A lower bound of every element is a lower bound of every permutation's elements. */
  lemma BoundCarries(e: int, t: seq<int>, r: seq<int>)
    requires forall x :: x in t ==> e <= x
    requires multiset(r) == multiset(t)
    ensures forall x :: x in r ==> e <= x
  {
    forall x | x in r
      ensures e <= x
    {
      assert x in multiset(r);
      assert x in multiset(t);
      assert x in t;
    }
  }

  /** Popping a heap until it is empty yields its elements in non-decreasing order. */
  lemma {:induction false} PopAllSorted(s: seq<int>)
    requires IsHeap(s)
    ensures Sorted(PopAll(s))
    decreases |s|
  {
    if |s| > 0 {
      var p := PopSeq(s);
      PopKeepsHeap(s);
      PopAllSorted(p.1);
      var rest := PopAll(p.1);
      PopAllPerm(p.1);
      BoundCarries(p.0, p.1, rest);
      SortedCons(p.0, rest);
      assert PopAll(s) == [p.0] + rest;
    }
  }
}
