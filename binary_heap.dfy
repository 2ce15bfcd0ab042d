/** The mutable heap and the priority queue over it.  BinaryHeap keeps the
    backing list in a `seq` field that its methods reassign; each method is
    proved to leave exactly the list that the corresponding function of
    HeapSpec computes from the old one, and states the properties proved
    about that function in HeapLemmas. */
module Heaps {
  import opened HeapSpec
  import HeapLemmas

  class BinaryHeap<T(0)> {
    /** Slot 0 is the sentinel; slots 1 .. |heap|-1 are the entries. */
    var heap: seq<HeapData<T>>

    ghost predicate Valid()
      reads this
    {
      |heap| >= 1
    }

    /** A new heap holds only the sentinel: a default payload with priority -1. */
    constructor ()
      ensures Valid() && |heap| == 1 && heap[0].priority == -1
    {
      var dummy: T := *;
      heap := [HeapData(dummy, -1)];
    }

    /** The priority stored in a slot; callers check the index first. */
    function GetPriority(idx: int): (r: int)
      reads this
      requires 0 <= idx < |heap|
      ensures r == heap[idx].priority
    {
      heap[idx].priority
    }

    method Insert(value: T, priority: int)
      requires Valid()
      modifies this
      ensures Valid() && heap == Inserted(old(heap), value, priority)
      ensures |heap| == |old(heap)| + 1 && heap[0] == old(heap)[0]
      ensures multiset(heap) == multiset(old(heap)) + multiset{HeapData(value, priority)}
      ensures HeapOrdered(old(heap)) ==> HeapOrdered(heap)
    {
      heap := heap + [HeapData(value, priority)];
      HeapUp(|heap| - 1);
      HeapLemmas.InsertedAddsEntry(old(heap), value, priority);
      if HeapOrdered(old(heap)) {
        HeapLemmas.InsertPreservesOrder(old(heap), value, priority);
      }
    }

    method RemoveMin()
      requires Valid()
      modifies this
      ensures Valid() && heap == MinRemoved(old(heap))
      ensures |old(heap)| == 1 ==> heap == old(heap)
      ensures |old(heap)| > 1 ==>
        |heap| == |old(heap)| - 1 && heap[0] == old(heap)[0] &&
        multiset(heap) == multiset(old(heap)) - multiset{old(heap)[1]}
      ensures |old(heap)| > 1 && HeapOrdered(old(heap)) ==>
        forall k :: 1 <= k < |old(heap)| ==> old(heap)[1].priority <= old(heap)[k].priority
    {
      if !ValidIndex(|heap|, |heap| - 1) {
        return;
      }
      ghost var before := heap;
      HeapLemmas.MinRemovedDropsRoot(before);
      if HeapOrdered(before) {
        HeapLemmas.MinRemovedDropsMinimum(before);
      }
      heap := heap[1 := heap[|heap| - 1]];
      heap := heap[..|heap| - 1];
      assert heap == RemoveSlot(before, 1);
      HeapDown(1);
    }

    method RemoveMax()
      requires Valid()
      modifies this
      ensures Valid() && heap == MaxRemoved(old(heap))
      ensures |old(heap)| == 1 ==> heap == old(heap)
      ensures |old(heap)| > 1 ==>
        exists t :: IsFirstMax(old(heap), |old(heap)|, t) &&
          |heap| == |old(heap)| - 1 && heap[0] == old(heap)[0] &&
          multiset(heap) == multiset(old(heap)) - multiset{old(heap)[t]}
    {
      if !ValidIndex(|heap|, |heap| - 1) {
        return;
      }
      var targetIdx := 1;
      for i := 1 to |heap|
        invariant i <= 1 ==> targetIdx == 1
        invariant i >= 2 ==> targetIdx == FirstMaxIndex(heap, i)
      {
        if heap[i].priority > GetPriority(targetIdx) {
          targetIdx := i;
        }
      }
      ghost var before := heap;
      HeapLemmas.MaxRemovedDropsFirstMax(before);
      heap := heap[targetIdx := heap[|heap| - 1]];
      heap := heap[..|heap| - 1];
      assert heap == RemoveSlot(before, targetIdx);
      HeapDown(targetIdx);
    }

    method HeapUp(currentIdx: int)
      modifies this
      ensures heap == SiftedUp(old(heap), currentIdx)
      decreases currentIdx
    {
      if !ValidIndex(|heap|, currentIdx) {
        return;
      }
      var parentIdx := ParentIndex(|heap|, currentIdx);
      if ValidIndex(|heap|, parentIdx) && GetPriority(currentIdx) < GetPriority(parentIdx) {
        SwapData(currentIdx, parentIdx);
        HeapUp(parentIdx);
      }
    }

    method HeapDown(currentIdx: int)
      modifies this
      ensures heap == SiftedDown(old(heap), currentIdx)
      decreases |heap| - currentIdx
    {
      var leftIdx := LeftChildIndex(|heap|, currentIdx);
      var rightIdx := RightChildIndex(|heap|, currentIdx);
      var smallerPriorityIdx := leftIdx;
      if ValidIndex(|heap|, smallerPriorityIdx) && ValidIndex(|heap|, rightIdx) &&
         GetPriority(smallerPriorityIdx) > GetPriority(rightIdx)
      {
        smallerPriorityIdx := rightIdx;
      }
      if ValidIndex(|heap|, smallerPriorityIdx) {
        SwapData(currentIdx, smallerPriorityIdx);
        HeapDown(smallerPriorityIdx);
      }
    }

    method SwapData(indexA: int, indexB: int)
      requires 0 <= indexA < |heap| && 0 <= indexB < |heap|
      modifies this
      ensures heap == Swapped(old(heap), indexA, indexB)
    {
      var temp := heap[indexA];
      heap := heap[indexA := heap[indexB]];
      heap := heap[indexB := temp];
    }
  }

  /** The queue facade: one heap, every call delegated unchanged. */
  class PriorityQueue<T(0)> {
    const heap: BinaryHeap<T>

    ghost predicate Valid()
      reads this, heap
    {
      heap.Valid()
    }

    constructor ()
      ensures Valid() && fresh(heap) && |heap.heap| == 1
    {
      heap := new BinaryHeap<T>();
    }

    method Enqueue(value: T, priority: int)
      requires Valid()
      modifies heap
      ensures Valid() && heap.heap == Inserted(old(heap.heap), value, priority)
    {
      heap.Insert(value, priority);
    }

    method DequeueMin()
      requires Valid()
      modifies heap
      ensures Valid() && heap.heap == MinRemoved(old(heap.heap))
    {
      heap.RemoveMin();
    }

    method DequeueMax()
      requires Valid()
      modifies heap
      ensures Valid() && heap.heap == MaxRemoved(old(heap.heap))
    {
      heap.RemoveMax();
    }
  }
}
