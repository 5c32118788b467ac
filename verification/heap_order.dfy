/**
 * Index arithmetic of the implicit binary tree and the min-heap order of a
 * slice of elements. Elements are modelled as `int`, compared with `<`.
 */
module HeapOrder {

  /** Go's integer quotient: it truncates toward zero, where Dafny's `/` is Euclidean. */
  function GoQuo(a: int, b: int): int
    requires b > 0
  {
    if a < 0 then -((-a) / b) else a / b
  }

  /**
   * The parent index `(i-1)/2` computed by the sift loops. Because Go's
   * division truncates, the root is its own parent, which is how sift-up stops.
   */
  function Parent(i: nat): (p: nat)
    ensures i == 0 ==> p == 0
    ensures i > 0 ==> p < i && (i == 2 * p + 1 || i == 2 * p + 2)
  {
    GoQuo(i - 1, 2)
  }

  /** Every parent is not greater than its children. */
  predicate IsHeap(s: seq<int>)
  {
    forall k :: 0 < k < |s| ==> s[Parent(k)] <= s[k]
  }

  /** Heap order holds on every edge whose parent index is greater than `b`. */
  predicate OrderedBelow(s: seq<int>, b: int)
  {
    forall k :: 0 < k < |s| && Parent(k) > b ==> s[Parent(k)] <= s[k]
  }

  /**
   * The slice was heap ordered before the element at `i` changed: every edge
   * not touching `i` holds, and the parent of `i` is not above the children of `i`.
   */
  predicate HeapExceptAt(s: seq<int>, i: nat)
  {
    (forall k :: 0 < k < |s| && k != i && Parent(k) != i ==> s[Parent(k)] <= s[k])
    && (0 < i < |s| ==> forall k :: 0 < k < |s| && Parent(k) == i ==> s[Parent(i)] <= s[k])
  }

  /** Changing one element of a heap leaves a slice that is heap ordered except at that index. */
  lemma ChangedElement(s: seq<int>, i: nat, v: int)
    requires IsHeap(s) && i < |s|
    ensures HeapExceptAt(s[i := v], i)
  {
    if 0 < i {
      forall k | 0 < k < |s| && Parent(k) == i
        ensures s[Parent(i)] <= s[k]
      {
        assert s[Parent(i)] <= s[i];
      }
    }
  }

  /** A prefix of a heap is a heap. */
  lemma PrefixIsHeap(s: seq<int>, n: nat)
    requires IsHeap(s) && n <= |s|
    ensures IsHeap(s[..n])
  {
  }

  /** The root of a heap is not greater than any element of it. */
  lemma {:induction false} RootIsMin(s: seq<int>, k: nat)
    requires IsHeap(s) && k < |s|
    ensures s[0] <= s[k]
    decreases k
  {
    if k > 0 {
      RootIsMin(s, Parent(k));
    }
  }

  /** Under heap order, index 0 holds a minimum of the slice. */
  lemma HeapMinimum(s: seq<int>)
    ensures IsHeap(s) ==> forall k :: 0 <= k < |s| ==> s[0] <= s[k]
  {
    if IsHeap(s) {
      forall k | 0 <= k < |s|
        ensures s[0] <= s[k]
      {
        RootIsMin(s, k);
      }
    }
  }
}
