# A verified model of a generic slice-backed min-heap

The Go package `heap` defines `Heap[T]`, a binary min-heap stored in a slice.
Slot 0 is the root. The children of slot `i` are `2i+1` and `2i+2`, and its
parent is `(i-1)/2`. The package has typed element methods (`PushElement`,
`MustPopElement`, `PopElement`, `MustPeekElement`, `PeekElement`,
`RemoveElement`), `Init` and `Fix`, and the `container/heap.Interface`
methods (`Len`, `Less`, `Swap`, `Push`, `Pop`). `Init` and `Fix` hand the heap
to Go's `container/heap`. That package reorders the slice only through
`Len`, `Less` and `Swap`, using its `up` and `down` loops.

The model has four modules:

- `HeapOrder` (heap_order.dfy) covers the parent index and the heap order.
  - The parent index uses Go's truncating division, so the root is its own parent.
  - `IsHeap` says every parent is not greater than its children.
  - It also proves that the root of a heap is a minimum.
- `Sift` (sift.dfy) defines functions on the backing slice for `container/heap`'s swap, `down`, `up`, `Fix` and `Init`.
  - It proves that each one permutes the slice.
  - It proves that `Fix` restores heap order after one element changes.
  - It proves that `Init` orders any slice.
- `Operations` (operations.dfy) defines functions for what `PushElement`, `MustPopElement` and `RemoveElement` do to the slice.
  - Their lemmas give the exact length change, the exact multiset change and whether heap order is kept.
  - It also covers popping until empty, which yields the elements sorted.
- `MinHeap` (heap.dfy) holds the class `Heap`, whose field `elems` is the slice.
  - Its methods change `elems` step by step as the Go code does: the early return in `Swap`, the overwrite, zeroing and reslicing in `MustPopElement`, and the append in `PushElement`.
  - The module-level methods `HeapUp`, `HeapDown`, `HeapFix` and `HeapInit` are `container/heap`'s loops. Each runs `while` loops over the heap through `Len`, `Less` and `Swap`.
  - Each method is proved equal to the matching function of `Sift` or `Operations`, so the lemmas there apply to it.

Elements are modelled as `int`, and the element method `Less` is modelled as `<`. A nil `*Heap` is the empty slice.

## Model

| member | source | states |
|---|---|---|
| HeapOrder.Parent | heap.go:25-26 | The parent of the root is the root itself. Any other index `i` has a smaller parent `p` with `i == 2p+1` or `i == 2p+2`. |
| HeapOrder.ChangedElement | heap.go:24-26 | Overwriting one slot of a heap leaves a slice that is ordered everywhere except around that slot. This is the precondition under which `Fix` is meant to be called. |
| HeapOrder.PrefixIsHeap | heap.go:65 | Dropping trailing slots from a heap leaves a heap. |
| HeapOrder.RootIsMin | heap.go:58 | In a heap, the root is not greater than the element at any index. |
| HeapOrder.HeapMinimum | heap.go:93-96 | Under heap order, slot 0 is not greater than any slot. |
| Sift.SwapSeq | heap.go:45-50 | A swap keeps the length and exchanges slots `i` and `j`. Every other slot is unchanged. |
| Sift.SwapPerm | heap.go:45-50 | A swap keeps the multiset of elements. |
| Sift.SwapTwice | heap.go:45-50 | Swapping the same two slots twice gives back the original slice. |
| Sift.MinChild | heap.go:26 | The child `down` compares with is a real child. It is not greater than either child. |
| Sift.SiftDown | heap.go:26 | `down` keeps the length of the slice. |
| Sift.SiftUp | heap.go:26 | `up` keeps the length of the slice. |
| Sift.FixSeq | heap.go:24-27 | `Fix` keeps the length of the slice. |
| Sift.InitSeq | heap.go:19-22 | `Init` starts its sift-downs at the last parent, `n/2-1`, and keeps the length of the slice. |
| Sift.InitFrom | heap.go:19-22 | The sift-downs run by `Init` keep the length of the slice. |
| Sift.SiftDownPerm | heap.go:26 | `down` permutes the slice. |
| Sift.SiftUpPerm | heap.go:26 | `up` permutes the slice. |
| Sift.FixPerm | heap.go:24-27 | `Fix` permutes the slice. |
| Sift.InitFromPerm | heap.go:19-22 | `Init`'s sift-downs permute the slice. |
| Sift.SiftDownFrame | heap.go:26 | `down` from `i` leaves slots before `i` and up to `2i` alone. The element it leaves at `i` is the smaller child if it moved, and the old element otherwise. |
| Sift.SiftDownOrders | heap.go:19-27 | If every edge below `i` is ordered, then after `down` from `i` every edge from `i` downward is ordered. |
| Sift.SiftDownStepOrders | heap.go:26 | The inductive step of `SiftDownOrders`: after the swap with the smaller child and the recursive sift, the edges at `i` hold. |
| Sift.SiftUpOrders | heap.go:26 | If every edge except the one into `j` holds, and the parent of `j` is not greater than any child of `j`, `up` from `j` yields a heap. |
| Sift.FixOrders | heap.go:24-27 | After the element at `i` of a heap changes, `Fix(i)` yields a heap. |
| Sift.FixOnHeap | heap.go:24-27 | `Fix` of any index of a heap changes nothing. |
| Sift.InitFromOrders | heap.go:19-22 | Sifting down from `i`, then `i-1` and so on to `0`, yields a heap once every edge below `i` is ordered. |
| Sift.InitOrders | heap.go:19-22 | `Init` turns any slice into a heap with the same elements and the same length. |
| Sift.InitFromOnHeap | heap.go:19-22 | `Init` on a slice that is already a heap changes nothing. |
| Operations.PushSeq | heap.go:52-56 | Pushing grows the slice by one. |
| Operations.PushIsSiftUp | heap.go:52-56 | Because the new last slot has no children, the `Fix` in a push is exactly a sift-up from that slot. |
| Operations.PushContents | heap.go:52-56 | Pushing adds exactly the pushed element to the multiset. |
| Operations.PushKeepsHeap | heap.go:52-56 | Pushing onto a heap leaves a heap. |
| Operations.LastToRoot | heap.go:62-65 | Moving the last element into slot 0 and dropping the last slot removes exactly the old root from the multiset. |
| Operations.PopSeq | heap.go:58-68 | Popping returns the old slot 0 and shrinks the slice by one. |
| Operations.PopIsSiftDown | heap.go:62-66 | Because sift-up from the root never moves, the `Fix(0)` in a pop is exactly a sift-down of the moved element. |
| Operations.PopContents | heap.go:58-68 | Popping removes exactly the returned element from the multiset. |
| Operations.LastToRootOrder | heap.go:62-65 | After the last element of a heap moves into slot 0, the slice is ordered everywhere except around slot 0. |
| Operations.PopKeepsHeap | heap.go:58-68 | Popping a heap leaves a heap. No remaining element is less than the returned one. |
| Operations.RemoveSeq | heap.go:107-111 | `RemoveElement(i)` shrinks the slice by one. It returns the old root when `i != 0` and the old last element when `i == 0`, not the element at `i`. |
| Operations.RemoveContents | heap.go:107-111 | `RemoveElement` removes exactly the element it returns from the multiset. |
| Operations.RemoveElementWrongResult | heap.go:107-111 | `[1,3,2,7,5]` is a heap, and `RemoveElement(3)` on it returns 1, not the 7 stored at index 3. |
| Operations.RemoveElementBreaksOrder | heap.go:107-111 | `[0,5,1,6,7,2]` is a heap, and `RemoveElement(3)` on it leaves a slice that is not a heap. |
| Operations.RemoveAtSeq | heap.go:107 | The corrected removal returns the element at `i` and shrinks the slice by one. |
| Operations.RemoveAtContents | heap.go:107 | The corrected removal removes exactly the element at `i` from the multiset. |
| Operations.RemoveAtKeepsHeap | heap.go:107 | The corrected removal from any index of a heap leaves a heap. |
| Operations.PopAll | heap.go:58-68 | Popping until empty yields as many elements as the heap held. |
| Operations.PopAllPerm | heap.go:58-68 | Popping until empty yields every element exactly once. |
| Operations.PopAllSorted | heap.go:58-68 | Popping a heap until empty yields its elements in non-decreasing order. |
| MinHeap.Heap.constructor | heap.go:17 | A heap over a given slice holds exactly that slice. |
| MinHeap.Heap.Len | heap.go:32-37 | `Len` is the number of stored elements. It is 0 exactly when the heap is empty. |
| MinHeap.Heap.Less | heap.go:40-42 | `Less(i, j)` holds exactly when element `i` is less than element `j`. It is irreflexive and asymmetric. |
| MinHeap.Heap.Swap | heap.go:45-50 | `Swap` turns the slice into `SwapSeq` of the old one. `Swap(i, i)` leaves it unchanged. |
| MinHeap.Heap.Init | heap.go:19-22 | After `Init` the slice is a heap with the same elements. |
| MinHeap.Heap.Fix | heap.go:24-27 | `Fix` keeps the multiset. If the old slice was a heap except around `i`, the new one is a heap. |
| MinHeap.Heap.PushElement | heap.go:52-56 | `PushElement` grows the slice by one and adds exactly `e`. It keeps heap order. |
| MinHeap.Heap.MustPopElement | heap.go:58-68 | `MustPopElement` returns the old root and shrinks the slice by one, removing exactly that element. On a heap it keeps heap order, and no remaining element is less than the returned one. |
| MinHeap.Heap.PopElement | heap.go:70-77 | On an empty heap, `PopElement` returns `(0, false)` and changes nothing. Otherwise it behaves as `MustPopElement` and reports `true`. |
| MinHeap.Heap.Push | heap.go:79-84 | The `Push` adapter behaves exactly as `PushElement`. |
| MinHeap.Heap.Pop | heap.go:86-91 | The `Pop` adapter removes and returns the root, exactly as `MustPopElement` does. |
| MinHeap.Heap.MustPeekElement | heap.go:93-96 | `MustPeekElement` returns slot 0, which is a minimum under heap order. |
| MinHeap.Heap.PeekElement | heap.go:98-105 | On an empty heap, `PeekElement` returns `(0, false)`. Otherwise it returns slot 0 and `true`, and slot 0 is a minimum under heap order. |
| MinHeap.Heap.RemoveElement | heap.go:107-111 | `RemoveElement(i)` swaps `i` with the last slot and pops. It returns the old root for `i != 0` and the old last element for `i == 0`, and removes exactly that element. |
| MinHeap.Heap.RemoveAt | heap.go:107 | The corrected removal returns the element at `i` and removes exactly that element. It keeps heap order. |
| MinHeap.HeapUp | heap.go:26 | `up` as a loop over `Less` and `Swap` produces `SiftUp` of the old slice. |
| MinHeap.HeapDown | heap.go:26 | `down` as a loop over `Less` and `Swap` produces `SiftDown` of the old slice. It reports a move exactly when the first comparison calls for a swap. |
| MinHeap.HeapFix | heap.go:24-27 | `Fix` as `down`, then `up` only if `down` made no move. It permutes the slice and restores heap order after one element changed. |
| MinHeap.HeapInit | heap.go:19-22 | `Init` as `down` from `n/2-1` to `0` produces `InitSeq` of the old slice. |

## Left out

- `Less` is modelled on `int` with `<`, not as a generic `T` with a user-supplied method. A `Less` that is not a strict weak order is not modelled.
- Go's `container/heap` is a standard-library dependency; its `up`, `down`, `Fix` and `Init` are modelled from their documented behaviour. The length parameter of `down` is dropped because every call from this package passes `Len()`. The integer-overflow guard in `down` is left out because integers here are unbounded.
- Panics become preconditions:
  - `MustPopElement`, `Pop` and `MustPeekElement` on an empty heap;
  - out-of-range indices passed to `Less`, `Swap`, `Fix`, `RemoveElement` and `RemoveAt`.
  `Swap(i, i)` returns before it indexes, so in Go it is a no-op even for an out-of-range `i`; the model still requires both indices in range.
  `Fix(i)` accepts `i == 0` on an empty heap because `MustPopElement` on a one-element heap makes that call and it changes nothing.
- The `v.(T)` type assertion in `Push` is runtime typing. `Push` takes an `int` and only delegates to `PushElement`.
- `Push` and `Pop` are modelled as what they do when called directly. They are not modelled as `container/heap.Push` and `container/heap.Pop` would use them; that library expects `Pop` to remove the last slot, not the root.
- The nil receiver in `Len` is not modelled separately; a nil heap is the empty slice.
- `MustPopElement` writes the zero value into the vacated slot before reslicing, and the method does that too. A slice modelled as a sequence cannot observe the slot once it is cut off, so no contract mentions it.
- The zero value returned by `PopElement` and `PeekElement` on an empty heap is `0`, the zero value of the modelled element type.
- Aliasing between a `Heap` and other slices sharing its backing array is not modelled.

The comment on `RemoveElement` at heap.go:107 says it returns the element at index `i`; the code does not (see Findings), and the model follows the code.

## Findings

| source | as written | input that shows it | evidently intended | confidence | as-written member | corrected member |
|---|---|---|---|---|---|---|
| heap.go:107-111 | `RemoveElement(i)` swaps `i` with the last slot, then pops the root. It returns the old root for `i != 0` and the old last element for `i == 0`. The element swapped into `i` is never sifted. | `[1,3,2,7,5]`, `i = 3`: it returns 1, not 7. `[0,5,1,6,7,2]`, `i = 3`: it leaves `[1,5,6,2,7]`, where 2 at index 3 is below its parent 5 at index 1. | Return the element at `i`, move the last element into slot `i`, shrink by one, and `Fix(i)`, as `container/heap.Remove` does. | not executed | Operations.RemoveElementWrongResult, Operations.RemoveElementBreaksOrder | Operations.RemoveAtKeepsHeap, MinHeap.Heap.RemoveAt |
