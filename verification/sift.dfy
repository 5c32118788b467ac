/**
 * The sift loops of Go's container/heap, which Heap.Init and Heap.Fix call,
 * as functions on the backing slice, with the facts that make them correct.
 */
module Sift {
  import opened HeapOrder

  /** Swap of two slots; swapping a slot with itself returns early and changes nothing. */
  function SwapSeq(s: seq<int>, i: nat, j: nat): (r: seq<int>)
    requires i < |s| && j < |s|
    ensures |r| == |s| && r[i] == s[j] && r[j] == s[i]
    ensures forall k :: 0 <= k < |s| && k != i && k != j ==> r[k] == s[k]
  {
    if i == j then s else s[i := s[j]][j := s[i]]
  }

  /** A swap permutes the slice. */
  lemma SwapPerm(s: seq<int>, i: nat, j: nat)
    requires i < |s| && j < |s|
    ensures multiset(SwapSeq(s, i, j)) == multiset(s)
  {
  }

  /** Swapping two slots twice restores the slice. */
  lemma SwapTwice(s: seq<int>, i: nat, j: nat)
    requires i < |s| && j < |s|
    ensures SwapSeq(SwapSeq(s, i, j), i, j) == s
  {
  }

  /**
   * The child that sift-down compares with: the right child only when it is
   * strictly less than the left one.
   */
  function MinChild(s: seq<int>, i: nat): (c: nat)
    requires 2 * i + 1 < |s|
    ensures c == 2 * i + 1 || (c == 2 * i + 2 && c < |s|)
    ensures s[c] <= s[2 * i + 1] && (2 * i + 2 < |s| ==> s[c] <= s[2 * i + 2])
  {
    if 2 * i + 2 < |s| && s[2 * i + 2] < s[2 * i + 1] then 2 * i + 2 else 2 * i + 1
  }

  /** Sift-down from `i` makes at least one swap. */
  predicate DownMoves(s: seq<int>, i: nat)
  {
    2 * i + 1 < |s| && s[MinChild(s, i)] < s[i]
  }

  /** container/heap's `down(h, i, len)`: swap with the smaller child while it is strictly less. */
  function SiftDown(s: seq<int>, i: nat): (r: seq<int>)
    ensures |r| == |s|
    decreases |s| - i
  {
    if DownMoves(s, i) then
      var c := MinChild(s, i);
      SiftDown(SwapSeq(s, i, c), c)
    else
      s
  }

  /** container/heap's `up(h, j)`: swap with the parent while strictly less than it. */
  function SiftUp(s: seq<int>, j: nat): (r: seq<int>)
    requires j < |s| || j == 0
    ensures |r| == |s|
    decreases j
  {
    var p := Parent(j);
    if p == j || !(s[j] < s[p]) then s else SiftUp(SwapSeq(s, p, j), p)
  }

  /** container/heap's `Fix(h, i)`: sift down, and sift up only if sift-down made no move. */
  function FixSeq(s: seq<int>, i: nat): (r: seq<int>)
    requires i < |s| || i == 0
    ensures |r| == |s|
  {
    if DownMoves(s, i) then SiftDown(s, i) else SiftUp(s, i)
  }

  /** The tail of container/heap's `Init`: sift down from `i`, `i - 1`, ..., `0`. */
  function InitFrom(s: seq<int>, i: int): (r: seq<int>)
    ensures |r| == |s|
    decreases i
  {
    if i < 0 then s else InitFrom(SiftDown(s, i), i - 1)
  }

  /** container/heap's `Init(h)`: sift down from `n/2 - 1` to `0`. */
  function InitSeq(s: seq<int>): (r: seq<int>)
    ensures |r| == |s|
  {
    InitFrom(s, |s| / 2 - 1)
  }

  /** Sift-down permutes the slice. */
  lemma {:induction false} SiftDownPerm(s: seq<int>, i: nat)
    ensures multiset(SiftDown(s, i)) == multiset(s)
    decreases |s| - i
  {
    if DownMoves(s, i) {
      var c := MinChild(s, i);
      SwapPerm(s, i, c);
      SiftDownPerm(SwapSeq(s, i, c), c);
    }
  }

  /** Sift-up permutes the slice. */
  lemma {:induction false} SiftUpPerm(s: seq<int>, j: nat)
    requires j < |s| || j == 0
    ensures multiset(SiftUp(s, j)) == multiset(s)
    decreases j
  {
    var p := Parent(j);
    if p != j && s[j] < s[p] {
      SwapPerm(s, p, j);
      SiftUpPerm(SwapSeq(s, p, j), p);
    }
  }

  /** Fix permutes the slice. */
  lemma FixPerm(s: seq<int>, i: nat)
    requires i < |s| || i == 0
    ensures multiset(FixSeq(s, i)) == multiset(s)
  {
    SiftDownPerm(s, i);
    SiftUpPerm(s, i);
  }

  /** Init permutes the slice. */
  lemma {:induction false} InitFromPerm(s: seq<int>, i: int)
    ensures multiset(InitFrom(s, i)) == multiset(s)
    decreases i
  {
    if i >= 0 {
      SiftDownPerm(s, i);
      InitFromPerm(SiftDown(s, i), i - 1);
    }
  }

  /**
   * Sift-down only touches `i` and slots beyond `2i`; the element left at `i`
   * is the smaller child if it moved and the old element otherwise.
   */
  lemma {:induction false} SiftDownFrame(s: seq<int>, i: nat)
    ensures forall k :: 0 <= k < |s| && k != i && k <= 2 * i ==> SiftDown(s, i)[k] == s[k]
    ensures i < |s| ==> SiftDown(s, i)[i] == if DownMoves(s, i) then s[MinChild(s, i)] else s[i]
    decreases |s| - i
  {
    if DownMoves(s, i) {
      var c := MinChild(s, i);
      SiftDownFrame(SwapSeq(s, i, c), c);
    }
  }

  /**
   * If every edge below `i` is ordered, sift-down from `i` orders every edge
   * from `i` downward.
   */
  lemma {:induction false} SiftDownOrders(s: seq<int>, i: nat)
    requires OrderedBelow(s, i)
    ensures OrderedBelow(SiftDown(s, i), i - 1)
    decreases |s| - i
  {
    if DownMoves(s, i) {
      var c := MinChild(s, i);
      var t := SwapSeq(s, i, c);
      assert OrderedBelow(t, c) by {
        forall k | 0 < k < |t| && Parent(k) > c
          ensures t[Parent(k)] <= t[k]
        {
          assert t[k] == s[k] && t[Parent(k)] == s[Parent(k)];
        }
      }
      SiftDownOrders(t, c);
      SiftDownFrame(t, c);
      SiftDownStepOrders(s, i, SiftDown(t, c));
    }
  }

  /**
   * The inductive step of SiftDownOrders: `r` is what sift-down from the
   * swapped child produced, described only by what is known about it.
   */
  lemma SiftDownStepOrders(s: seq<int>, i: nat, r: seq<int>)
    requires OrderedBelow(s, i) && DownMoves(s, i)
    requires var c := MinChild(s, i); var t := SwapSeq(s, i, c);
      && |r| == |s|
      && OrderedBelow(r, c - 1)
      && (forall k :: 0 <= k < |s| && k != c && k <= 2 * c ==> r[k] == t[k])
      && r[c] == if DownMoves(t, c) then t[MinChild(t, c)] else t[c]
    ensures OrderedBelow(r, i - 1)
  {
    var c := MinChild(s, i);
    var t := SwapSeq(s, i, c);
    forall k | 0 < k < |r| && Parent(k) >= i
      ensures r[Parent(k)] <= r[k]
    {
      if Parent(k) == i {
        assert r[i] == s[c];
        if k == c {
          if DownMoves(t, c) {
            var g := MinChild(t, c);
            assert Parent(g) == c;
            assert r[c] == s[g];
          }
        } else {
          assert r[k] == s[k];
        }
      } else if Parent(k) < c {
        assert r[k] == s[k] && r[Parent(k)] == s[Parent(k)];
      }
    }
  }

  /**
   * If every edge except the one into `j` holds, and the parent of `j` is not
   * above the children of `j`, sift-up from `j` yields a heap.
   */
  lemma {:induction false} SiftUpOrders(s: seq<int>, j: nat)
    requires j < |s| || j == 0
    requires forall k :: 0 < k < |s| && k != j ==> s[Parent(k)] <= s[k]
    requires 0 < j ==> forall k :: 0 < k < |s| && Parent(k) == j ==> s[Parent(j)] <= s[k]
    ensures IsHeap(SiftUp(s, j))
    decreases j
  {
    var p := Parent(j);
    if p != j && s[j] < s[p] {
      var t := SwapSeq(s, p, j);
      forall k | 0 < k < |t| && k != p
        ensures t[Parent(k)] <= t[k]
      {
        if k == j {
        } else if Parent(k) == j {
        } else if Parent(k) == p {
          assert s[p] <= s[k];
        } else {
          assert t[k] == s[k] && t[Parent(k)] == s[Parent(k)];
        }
      }
      if 0 < p {
        forall k | 0 < k < |t| && Parent(k) == p
          ensures t[Parent(p)] <= t[k]
        {
          assert s[Parent(p)] <= s[p];
          if k != j {
            assert s[p] <= s[k];
          }
        }
      }
      SiftUpOrders(t, p);
    }
  }

  /** After the element at `i` of a heap changes, Fix restores heap order. */
  lemma FixOrders(s: seq<int>, i: nat)
    requires i < |s| || i == 0
    requires HeapExceptAt(s, i)
    ensures IsHeap(FixSeq(s, i))
  {
    if DownMoves(s, i) {
      var r := SiftDown(s, i);
      SiftDownOrders(s, i);
      SiftDownFrame(s, i);
      forall k | 0 < k < |r|
        ensures r[Parent(k)] <= r[k]
      {
        if Parent(k) < i {
          if k == i {
            assert s[Parent(i)] <= s[MinChild(s, i)];
          } else {
            assert r[k] == s[k] && r[Parent(k)] == s[Parent(k)];
          }
        }
      }
    } else {
      SiftUpOrders(s, i);
    }
  }

  /** Fixing any index of a heap changes nothing. */
  lemma FixOnHeap(s: seq<int>, i: nat)
    requires i < |s| || i == 0
    requires IsHeap(s)
    ensures FixSeq(s, i) == s
  {
    if 2 * i + 1 < |s| {
      assert Parent(MinChild(s, i)) == i;
    }
    if 0 < i {
      assert s[Parent(i)] <= s[i];
    }
  }

  /** Sift-down from every index at or below `i` yields a heap once the edges below `i` are ordered. */
  lemma {:induction false} InitFromOrders(s: seq<int>, i: int)
    requires OrderedBelow(s, i)
    ensures IsHeap(InitFrom(s, i))
    decreases i
  {
    if i >= 0 {
      var t := SiftDown(s, i);
      SiftDownOrders(s, i);
      InitFromOrders(t, i - 1);
      assert InitFrom(s, i) == InitFrom(t, i - 1);
    }
  }

  /** Init permutes any slice into heap order. */
  lemma InitOrders(s: seq<int>)
    ensures IsHeap(InitSeq(s)) && multiset(InitSeq(s)) == multiset(s) && |InitSeq(s)| == |s|
  {
    forall k | 0 < k < |s|
      ensures Parent(k) <= |s| / 2 - 1
    {
    }
    InitFromOrders(s, |s| / 2 - 1);
    InitFromPerm(s, |s| / 2 - 1);
  }

  /** Init on a slice that is already a heap changes nothing. */
  lemma {:induction false} InitFromOnHeap(s: seq<int>, i: int)
    requires IsHeap(s)
    ensures InitFrom(s, i) == s
    decreases i
  {
    if i >= 0 {
      if 2 * i + 1 < |s| {
        assert Parent(MinChild(s, i)) == i;
      }
      InitFromOnHeap(s, i - 1);
    }
  }
}
