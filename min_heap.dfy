/**
 * helpers.py's `BinaryMinHeap`: an object holding a Python list that its
 * methods swap in place, shrink with `pop()` and rebuild. The list is the
 * field `heap`, reassigned by every such step; each method is proved to
 * leave behind what the corresponding HeapSpec function computes.
 */
module MinHeap {
  import opened Wrappers
  import Spec = HeapSpec

  class BinaryMinHeap {
    var heap: seq<int>

    /** `BinaryMinHeap(heap)`: takes the list as it is, heap-ordered or not. */
    constructor (heap: seq<int>)
      ensures this.heap == heap
    {
      this.heap := heap;
    }

    /** `min_heapify(idx)`: one sift-down from `idx`, recursing at the child it swapped with. */
    method MinHeapify(idx: nat)
      modifies this`heap
      ensures heap == Spec.MinHeapify(old(heap), idx)
      decreases |heap| - idx
    {
      var length := |heap| - 1;
      var left := 2 * idx + 1;
      var right := 2 * idx + 2;
      var smallest := idx;
      if left <= length && heap[idx] > heap[left] {
        smallest := left;
      }
      if right <= length && heap[smallest] > heap[right] {
        smallest := right;
      }
      assert smallest == Spec.Smallest(heap, idx);
      if smallest != idx {
        heap := heap[idx := heap[smallest]][smallest := heap[idx]];
        MinHeapify(smallest);
      }
    }

    /** `build_min_heap`: `min_heapify(i)` for i from len/2 - 1 down to 0. */
    method BuildMinHeap()
      modifies this`heap
      ensures heap == Spec.BuildMinHeap(old(heap))
    {
      var n := |heap|;
      for i := n / 2 downto 0
        invariant |heap| == n
        invariant Spec.BuildFrom(heap, i) == Spec.BuildMinHeap(old(heap))
      {
        MinHeapify(i);
      }
    }

    /**
     * `extract_min`: exchange the first and the last element, pop the last,
     * rebuild, return the popped element. On an empty list the subscript
     * raises IndexError before anything changes (`None`).
     */
    method ExtractMin() returns (r: Option<int>)
      modifies this`heap
      ensures r.None? <==> old(heap) == []
      ensures r.None? ==> heap == old(heap)
      ensures r.Some? ==> Spec.ExtractMin(old(heap)) == Some((r.value, heap))
    {
      if |heap| == 0 {
        return None;
      }
      var last := |heap| - 1;
      heap := heap[0 := heap[last]][last := heap[0]];
      var minimum := heap[last];
      heap := heap[..last];
      BuildMinHeap();
      r := Some(minimum);
    }
  }
}
