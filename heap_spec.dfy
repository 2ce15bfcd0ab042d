/** Value-level model of the array-backed binary min-heap.
    The backing list is a sequence of entries whose slot 0 is an unused
    sentinel; slots 1 .. |s|-1 form a complete binary tree in 1-based array
    layout (left child 2i, right child 2i+1, parent i/2).  Every operation of
    the heap is given here as a function on that sequence; the classes in
    binary_heap.dfy are proved to compute exactly these functions. */
module HeapSpec {

  /** One heap slot: a payload and its priority (smaller is served first). */
  datatype HeapData<T> = HeapData(value: T, priority: int)

  // ---------------------------------------------------------------------
  // Index helpers.  `count` is the length of the backing list, sentinel
  // included; an invalid argument yields -1.

  /** A slot index that refers to a real entry (never the sentinel). */
  predicate ValidIndex(count: int, idx: int): (b: bool)
    ensures b ==> idx != 0 && 0 <= idx < count
  {
    0 < idx < count
  }

  /** The parent of a valid index, or -1. */
  function ParentIndex(count: int, childIdx: int): (r: int)
    ensures r == -1 <==> !ValidIndex(count, childIdx)
    ensures r != -1 ==> 0 <= r < childIdx && 2 * r <= childIdx <= 2 * r + 1
    ensures r != -1 ==> (ValidIndex(count, r) <==> childIdx > 1)
  {
    var ret := childIdx / 2;
    if !ValidIndex(count, childIdx) then -1 else ret
  }

  /** The left child of a valid index, or -1. */
  function LeftChildIndex(count: int, parentIdx: int): (r: int)
    ensures r == -1 <==> !ValidIndex(count, parentIdx)
    ensures r != -1 ==> r > parentIdx && r % 2 == 0 && r / 2 == parentIdx
  {
    var ret := 2 * parentIdx;
    if !ValidIndex(count, parentIdx) then -1 else ret
  }

  /** The right child of a valid index, or -1. */
  function RightChildIndex(count: int, parentIdx: int): (r: int)
    ensures r == -1 <==> !ValidIndex(count, parentIdx)
    ensures r != -1 ==> r > parentIdx && r % 2 == 1 && r / 2 == parentIdx
  {
    var ret := 2 * parentIdx + 1;
    if !ValidIndex(count, parentIdx) then -1 else ret
  }

  /** The priorities of the real entries, in slot order (what the trace prints). */
  function Priorities<T>(s: seq<HeapData<T>>): (r: seq<int>)
    ensures |s| >= 1 ==> |r| == |s| - 1
    ensures forall k :: 1 <= k < |s| ==> r[k - 1] == s[k].priority
    decreases |s|
  {
    if |s| <= 1 then [] else Priorities(s[..|s| - 1]) + [s[|s| - 1].priority]
  }

  // ---------------------------------------------------------------------
  // Heap order.

  /** Every real entry with a real parent has a priority no smaller than it. */
  ghost predicate HeapOrdered<T>(s: seq<HeapData<T>>)
  {
    forall k :: 1 < k < |s| ==> s[k / 2].priority <= s[k].priority
  }

  /** Heap order holds at every link except the one from slot i to its parent,
      and i's parent is no larger than i's children (the sift-up invariant). */
  ghost predicate OrderedExcept<T>(s: seq<HeapData<T>>, i: int)
  {
    (forall k :: 1 < k < |s| && k != i ==> s[k / 2].priority <= s[k].priority) &&
    (forall k :: 1 < k < |s| && k / 2 == i && i > 1 ==> s[i / 2].priority <= s[k].priority)
  }

  // ---------------------------------------------------------------------
  // The primitive mutation: exchanging two slots.

  function Swapped<T>(s: seq<HeapData<T>>, indexA: int, indexB: int): (r: seq<HeapData<T>>)
    requires 0 <= indexA < |s| && 0 <= indexB < |s|
    ensures |r| == |s| && r[indexA] == s[indexB] && r[indexB] == s[indexA]
    ensures forall k :: 0 <= k < |s| && k != indexA && k != indexB ==> r[k] == s[k]
  {
    var temp := s[indexA];
    s[indexA := s[indexB]][indexB := temp]
  }

  // ---------------------------------------------------------------------
  // Sift-up (heapUp).

  /** heapUp(currentIdx): while the entry is strictly smaller than a valid
      parent, exchange the two and continue from the parent. */
  function SiftedUp<T>(s: seq<HeapData<T>>, currentIdx: int): (r: seq<HeapData<T>>)
    ensures |r| == |s|
    ensures |s| > 0 ==> r[0] == s[0]
    decreases currentIdx
  {
    if !ValidIndex(|s|, currentIdx) then s
    else
      var parentIdx := ParentIndex(|s|, currentIdx);
      if ValidIndex(|s|, parentIdx) && s[currentIdx].priority < s[parentIdx].priority
      then SiftedUp(Swapped(s, currentIdx, parentIdx), parentIdx)
      else s
  }

  // ---------------------------------------------------------------------
  // Sift-down (heapDown), exactly as the source writes it: the entry is
  // exchanged with its smaller child whenever a left child exists, without
  // comparing it with that child.

  /** The child heapDown moves to: the left child, unless both children exist
      and the right one has a strictly smaller priority.  It is -1 or an
      invalid index exactly when slot currentIdx has no valid left child. */
  function SmallerChildIndex<T>(s: seq<HeapData<T>>, currentIdx: int): (r: int)
    ensures ValidIndex(|s|, r) <==> ValidIndex(|s|, currentIdx) && ValidIndex(|s|, 2 * currentIdx)
    ensures ValidIndex(|s|, r) ==> r / 2 == currentIdx && currentIdx < r
    ensures ValidIndex(|s|, r) ==> s[r].priority <= s[2 * currentIdx].priority
    ensures ValidIndex(|s|, r) && ValidIndex(|s|, 2 * currentIdx + 1) ==>
      s[r].priority <= s[2 * currentIdx + 1].priority
    ensures ValidIndex(|s|, r) && r == 2 * currentIdx + 1 ==> s[r].priority < s[r - 1].priority
  {
    var leftIdx := LeftChildIndex(|s|, currentIdx);
    var rightIdx := RightChildIndex(|s|, currentIdx);
    if ValidIndex(|s|, leftIdx) && ValidIndex(|s|, rightIdx) &&
       s[leftIdx].priority > s[rightIdx].priority
    then rightIdx
    else leftIdx
  }

  function SiftedDown<T>(s: seq<HeapData<T>>, currentIdx: int): (r: seq<HeapData<T>>)
    ensures |r| == |s|
    ensures |s| > 0 ==> r[0] == s[0]
    ensures forall k :: 0 <= k < |s| && k < currentIdx ==> r[k] == s[k]
    decreases |s| - currentIdx
  {
    var smallerPriorityIdx := SmallerChildIndex(s, currentIdx);
    if ValidIndex(|s|, smallerPriorityIdx)
    then SiftedDown(Swapped(s, currentIdx, smallerPriorityIdx), smallerPriorityIdx)
    else s
  }

  /** The slots heapDown(i) visits, computed on the entries it starts from:
      i, then the smaller child of each visited slot, until a slot without a
      valid left child; empty when i itself is not a valid index. */
  function DownPath<T>(s: seq<HeapData<T>>, i: int): (p: seq<int>)
    ensures ValidIndex(|s|, i) <==> |p| > 0
    ensures |p| > 0 ==> p[0] == i && !ValidIndex(|s|, 2 * p[|p| - 1])
    ensures forall j :: 0 <= j < |p| ==> ValidIndex(|s|, p[j])
    ensures forall j :: 0 < j < |p| ==> i < p[j]
    decreases |s| - i
  {
    if !ValidIndex(|s|, i) then []
    else
      var c := SmallerChildIndex(s, i);
      if ValidIndex(|s|, c) then [i] + DownPath(s, c) else [i]
  }

  // ---------------------------------------------------------------------
  // Removal helpers.

  /** Overwrite slot t with the last entry, then drop the last slot. */
  function RemoveSlot<T>(s: seq<HeapData<T>>, t: int): (r: seq<HeapData<T>>)
    requires 0 <= t < |s|
    ensures |r| == |s| - 1
    ensures forall k :: 0 <= k < |r| && k != t ==> r[k] == s[k]
    ensures t < |r| ==> r[t] == s[|s| - 1]
  {
    var u := s[t := s[|s| - 1]];
    u[..|s| - 1]
  }

  /** A slot holding the largest priority among slots 1 .. n-1, and the first such. */
  ghost predicate IsFirstMax<T>(s: seq<HeapData<T>>, n: int, t: int)
    requires n <= |s|
  {
    1 <= t < n &&
    (forall k :: 1 <= k < n ==> s[k].priority <= s[t].priority) &&
    (forall k :: 1 <= k < t ==> s[k].priority < s[t].priority)
  }

  /** The index removeMax's scan settles on after looking at slots 1 .. n-1. */
  function FirstMaxIndex<T>(s: seq<HeapData<T>>, n: int): (t: int)
    requires 2 <= n <= |s|
    ensures IsFirstMax(s, n, t)
    decreases n
  {
    if n == 2 then 1
    else
      var targetIdx := FirstMaxIndex(s, n - 1);
      if s[n - 1].priority > s[targetIdx].priority then n - 1 else targetIdx
  }

  // ---------------------------------------------------------------------
  // The public operations.

  /** insert: append the new entry as the last leaf, then sift it up. */
  function Inserted<T>(s: seq<HeapData<T>>, value: T, priority: int): (r: seq<HeapData<T>>)
    ensures |r| == |s| + 1
    ensures |s| > 0 ==> r[0] == s[0]
  {
    var t := s + [HeapData(value, priority)];
    assert |s| > 0 ==> t[0] == s[0];
    SiftedUp(t, |t| - 1)
  }

  /** removeMin: a no-op without real entries; otherwise the root is
      overwritten by the last entry, the last slot dropped, and heapDown(1). */
  function MinRemoved<T>(s: seq<HeapData<T>>): (r: seq<HeapData<T>>)
    ensures |s| <= 1 ==> r == s
    ensures |s| >= 2 ==> |r| == |s| - 1 && r[0] == s[0]
  {
    if !ValidIndex(|s|, |s| - 1) then s
    else SiftedDown(RemoveSlot(s, 1), 1)
  }

  /** removeMax: a no-op without real entries; otherwise the first slot of
      largest priority is overwritten by the last entry, the last slot
      dropped, and heapDown starts from that slot. */
  function MaxRemoved<T>(s: seq<HeapData<T>>): (r: seq<HeapData<T>>)
    ensures |s| <= 1 ==> r == s
    ensures |s| >= 2 ==> |r| == |s| - 1 && r[0] == s[0]
  {
    if !ValidIndex(|s|, |s| - 1) then s
    else
      var targetIdx := FirstMaxIndex(s, |s|);
      SiftedDown(RemoveSlot(s, targetIdx), targetIdx)
  }
}
