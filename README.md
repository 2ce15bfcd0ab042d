# Binary heap priority queue

This project models `BinaryHeap<T>` and the `PriorityQueue<T>` facade over it from `Test_q2/Program.cs`. They form a min-heap of `(value, priority)` entries kept in a list. Slot 0 of the list is a sentinel, and slots `1 .. Count-1` are a complete binary tree in 1-based layout: the left child of `i` is `2i`, the right child is `2i+1`, and the parent is `i/2`.

The public operations are:
- `insert`: append the entry, then sift it up (`heapUp`).
- `removeMin`: overwrite slot 1 with the last entry, drop the last slot, then run `heapDown(1)`.
- `removeMax`: scan for the first slot of largest priority, overwrite it with the last entry, drop the last slot, then run `heapDown` from that slot.

The project has four modules:
- `HeapSpec` (`heap_spec.dfy`) gives every operation as a pure function on the backing sequence. This includes the index helpers, `Swapped`, `SiftedUp`, `SiftedDown`, `Inserted`, `MinRemoved` and `MaxRemoved`. It also defines `DownPath`, the slots `heapDown` visits.
- `HeapLemmas` (`heap_lemmas.dfy`) proves what those functions guarantee and what they do not.
- `Heaps` (`binary_heap.dfy`) has the classes. `BinaryHeap` keeps the list in a `seq` field that its methods reassign. Each method is proved to leave exactly the list the matching `HeapSpec` function computes from the old one. The `ensures` of `Insert`, `RemoveMin` and `RemoveMax` also restate the properties proved in `HeapLemmas` about their functions. `RemoveMax` keeps the source's scanning loop, with its invariant.
- `Demo` (`demo.dfy`) replays the program's demonstration run, on the functions and through the `PriorityQueue` object.

`heapDown` is modelled exactly as written. It picks the smaller child, preferring the left one on ties. It then exchanges with that child whenever the child index is valid, without comparing it with the sinking entry. So the entry always sinks to a slot without a valid left child (`HeapLemmas.SiftDownRotatesPath`), and heap order is not restored in general. The source describes the class as a min heap with the lowest priority at the root (Test_q2/Program.cs:24), and calls the final `heapDown` of both removals a resort (Test_q2/Program.cs:71, 103). The code does not restore heap order, and the model follows the code:
- `Demo.DemoRemoveMinBreaksOrder` shows the demo's own removeMin leaving priority 9 below priority 12.
- `Demo.DemoExtractionNotMonotone` shows six successive removeMin calls discarding 1, 4, 7, 8, 12, 9. The sixth call's loss of root 9 comes from the multiset clause of the same lemma.
- What the model does prove about removeMin on an ordered list: the discarded entry has the globally smallest priority, and every link stays ordered except the one into the slot where the moved entry lands (`HeapLemmas.MinRemovedOrderedButLanding`).

## Model

| member | source | states |
|---|---|---|
| HeapSpec.ValidIndex | Test_q2/Program.cs:180-183 | A valid index is in range and is never the sentinel slot 0. |
| HeapSpec.ParentIndex | Test_q2/Program.cs:185-196 | -1 exactly for an invalid child index. Otherwise a slot below the child whose children include the child (`2r <= i <= 2r+1`); that slot is itself valid exactly when the child is not the root. |
| HeapSpec.LeftChildIndex | Test_q2/Program.cs:198-209 | -1 exactly for an invalid index. Otherwise an even slot above the parent whose parent is the argument. |
| HeapSpec.RightChildIndex | Test_q2/Program.cs:211-222 | -1 exactly for an invalid index. Otherwise an odd slot above the parent whose parent is the argument. |
| HeapSpec.Priorities | Test_q2/Program.cs:117-120 | The priorities of slots 1 .. n in slot order, one per real entry: the line printHeap would write. |
| HeapSpec.Swapped | Test_q2/Program.cs:230-235 | The two slots hold each other's entries; every other slot and the length are unchanged. |
| HeapSpec.SiftedUp | Test_q2/Program.cs:126-148 | heapUp keeps the length and never touches the sentinel. |
| HeapSpec.SmallerChildIndex | Test_q2/Program.cs:152-164 | Valid exactly when the slot and its left child are valid. A valid result is a child of the slot whose priority is no larger than either child's. It is the right child only when the right child is strictly smaller than the left. |
| HeapSpec.SiftedDown | Test_q2/Program.cs:150-177 | heapDown keeps the length, never touches the sentinel, and leaves every slot before its start unchanged. |
| HeapSpec.DownPath | Test_q2/Program.cs:150-177 | heapDown's path is non-empty exactly for a valid start. It begins at the start, visits only valid slots, climbs strictly above the start, and ends at a slot without a valid left child. |
| HeapSpec.RemoveSlot | Test_q2/Program.cs:64-67 | One slot shorter. The target slot holds the old last entry, and every other slot is unchanged. |
| HeapSpec.FirstMaxIndex | Test_q2/Program.cs:84-92 | The scan over slots 1 .. n-1 settles on a slot of largest priority, and every earlier slot is strictly smaller (first maximum wins). |
| HeapSpec.Inserted | Test_q2/Program.cs:45-52 | insert grows the list by one and keeps the sentinel. |
| HeapSpec.MinRemoved | Test_q2/Program.cs:54-73 | With no real entries nothing changes. Otherwise the list shrinks by one and keeps the sentinel. |
| HeapSpec.MaxRemoved | Test_q2/Program.cs:75-105 | With no real entries nothing changes. Otherwise the list shrinks by one and keeps the sentinel. |
| HeapLemmas.SiftedUpPermutes | Test_q2/Program.cs:126-148 | heapUp only rearranges entries (same multiset). |
| HeapLemmas.SiftedDownPermutes | Test_q2/Program.cs:150-177 | heapDown only rearranges entries (same multiset). |
| HeapLemmas.RemoveSlotDrops | Test_q2/Program.cs:64-67 | Overwriting a slot with the last entry and dropping the last slot loses exactly the overwritten entry. |
| HeapLemmas.InsertedAddsEntry | Test_q2/Program.cs:45-52 | insert adds exactly the new entry to the multiset. |
| HeapLemmas.MinRemovedDropsRoot | Test_q2/Program.cs:54-73 | removeMin on a non-empty heap loses exactly the root entry. |
| HeapLemmas.MaxRemovedDropsFirstMax | Test_q2/Program.cs:75-105 | removeMax on a non-empty heap loses exactly one entry: the one in the first slot of largest priority. |
| HeapLemmas.SwapUpStep | Test_q2/Program.cs:137-146 | One exchange of heapUp moves the single out-of-order link one level up. |
| HeapLemmas.SiftUpRestoresOrder | Test_q2/Program.cs:126-148 | heapUp from the only out-of-order slot leaves the whole list heap-ordered. |
| HeapLemmas.InsertPreservesOrder | Test_q2/Program.cs:45-52 | insert keeps a heap-ordered list heap-ordered. |
| HeapLemmas.RootIsMinimum | Test_q2/Program.cs:24-32 | In a heap-ordered list, slot 1 has a priority no larger than any real entry's. |
| HeapLemmas.MinRemovedDropsMinimum | Test_q2/Program.cs:54-73 | On a heap-ordered list, removeMin discards an entry of globally smallest priority, and only that entry. |
| HeapLemmas.DownPathStep | Test_q2/Program.cs:150-177 | Each slot of heapDown's path after the first is the smaller child of the slot before it. |
| HeapLemmas.DownPathFrame | Test_q2/Program.cs:152-167 | heapDown's path depends only on the slots beyond its start. |
| HeapLemmas.DownPathUnfold | Test_q2/Program.cs:167-176 | After one exchange, heapDown's path from the child is the rest of the path, and the final list is the same. |
| HeapLemmas.RotatedOffPath | Test_q2/Program.cs:150-177 | heapDown leaves every slot off its path unchanged. |
| HeapLemmas.SiftDownIgnoresOrder | Test_q2/Program.cs:167-176 | Whenever a valid left child exists, heapDown gives the slot its smaller child's entry, even if the slot's own priority was no larger. |
| HeapLemmas.RotatedOnPath | Test_q2/Program.cs:150-177 | heapDown gives each slot of its path except the last the entry of the next slot. |
| HeapLemmas.RotatedLast | Test_q2/Program.cs:150-177 | heapDown leaves the starting entry in the last slot of its path. |
| HeapLemmas.SiftDownRotatesPath | Test_q2/Program.cs:150-177 | heapDown rotates the entries along its path and changes nothing else. |
| HeapLemmas.PathEndIsLeaf | Test_q2/Program.cs:167 | The last slot of heapDown's path is no slot's parent. |
| HeapLemmas.LinkAlongPath | Test_q2/Program.cs:150-177 | After heapDown, each interior link along its path is ordered if the links away from the start were. |
| HeapLemmas.SmallerChildIsSmallest | Test_q2/Program.cs:152-164 | The child heapDown picks exists and has a priority no larger than either child's. |
| HeapLemmas.LinkLeavingPath | Test_q2/Program.cs:150-177 | After heapDown, each link from a path slot to a child off the path is ordered. |
| HeapLemmas.SiftDownOrdersAllButLanding | Test_q2/Program.cs:150-177 | Starting from links ordered everywhere except around the start, heapDown leaves every link ordered except the one into the start and the one into the landing slot. |
| HeapLemmas.MinRemovedOrderedButLanding | Test_q2/Program.cs:54-73 | On a heap-ordered list, removeMin moves the old last entry to the end of heapDown's path. Every link except the one into that slot stays ordered. |
| HeapLemmas.SiftedUpIgnoresSentinel | Test_q2/Program.cs:129-137 | heapUp's result on slots 1 .. n does not depend on the sentinel. |
| HeapLemmas.SiftedDownIgnoresSentinel | Test_q2/Program.cs:158-167 | heapDown's result on slots 1 .. n does not depend on the sentinel. |
| HeapLemmas.FirstMaxIgnoresSentinel | Test_q2/Program.cs:84-92 | removeMax's scan never reads the sentinel. |
| HeapLemmas.InsertedIgnoresSentinel | Test_q2/Program.cs:45-52 | insert's result on slots 1 .. n does not depend on the sentinel. |
| HeapLemmas.RemoveSlotIgnoresSentinel | Test_q2/Program.cs:64-67 | The slot overwrite and the drop do not depend on the sentinel. |
| HeapLemmas.MinRemovedIgnoresSentinel | Test_q2/Program.cs:54-73 | removeMin's result on slots 1 .. n does not depend on the sentinel. |
| HeapLemmas.MaxRemovedIgnoresSentinel | Test_q2/Program.cs:75-105 | removeMax's result on slots 1 .. n does not depend on the sentinel. |
| HeapLemmas.EmptyRemovalsAreNoOps | Test_q2/Program.cs:56-60 | With only the sentinel present, removeMin and removeMax change nothing, also when repeated. |
| Heaps.BinaryHeap.constructor | Test_q2/Program.cs:38-42 | A new heap holds only the sentinel, whose priority is -1. |
| Heaps.BinaryHeap.GetPriority | Test_q2/Program.cs:224-228 | The priority stored in a slot; it is defined only for an index in range. |
| Heaps.BinaryHeap.Insert | Test_q2/Program.cs:45-52 | The new list is what insert computes from the old one. It is one longer, keeps the sentinel, gains exactly the new entry, and stays heap-ordered if it was. |
| Heaps.BinaryHeap.RemoveMin | Test_q2/Program.cs:54-73 | The new list is what removeMin computes. It is a no-op when the heap is empty. Otherwise it loses exactly the root entry, which had the smallest priority if the heap was ordered. |
| Heaps.BinaryHeap.RemoveMax | Test_q2/Program.cs:75-105 | The new list is what removeMax computes, and it is a no-op when the heap is empty. Otherwise the scanning loop finds the first slot of largest priority, and exactly that entry is lost. |
| Heaps.BinaryHeap.HeapUp | Test_q2/Program.cs:126-148 | The new list is what heapUp computes from the old one. |
| Heaps.BinaryHeap.HeapDown | Test_q2/Program.cs:150-177 | The new list is what heapDown computes from the old one. |
| Heaps.BinaryHeap.SwapData | Test_q2/Program.cs:230-235 | The new list is the old one with the two slots exchanged. |
| Heaps.PriorityQueue.constructor | Test_q2/Program.cs:241-246 | A new queue owns a fresh heap holding only the sentinel. |
| Heaps.PriorityQueue.Enqueue | Test_q2/Program.cs:249-253 | The heap's list is what insert computes. |
| Heaps.PriorityQueue.DequeueMin | Test_q2/Program.cs:255-259 | The heap's list is what removeMin computes. |
| Heaps.PriorityQueue.DequeueMax | Test_q2/Program.cs:261-265 | The heap's list is what removeMax computes. |
| Demo.InsertStep1 | Test_q2/Program.cs:276 | Inserting priority 4 into the empty heap. |
| Demo.InsertStep2 | Test_q2/Program.cs:277 | Inserting 9 leaves 4 9. |
| Demo.InsertStep3 | Test_q2/Program.cs:278 | Inserting 12 leaves 4 9 12. |
| Demo.InsertStep4 | Test_q2/Program.cs:279 | Inserting 8 leaves 4 8 12 9. |
| Demo.InsertStep5 | Test_q2/Program.cs:280 | Inserting 56 leaves 4 8 12 9 56. |
| Demo.InsertStep6 | Test_q2/Program.cs:281 | Inserting 1 sifts it to the root: 1 8 4 9 56 12. |
| Demo.InsertStep7 | Test_q2/Program.cs:282 | Inserting 19 appends it. |
| Demo.InsertStep8 | Test_q2/Program.cs:283 | Inserting 24 appends it. |
| Demo.InsertStep9 | Test_q2/Program.cs:284 | Inserting 7 leaves 1 7 4 8 56 12 19 24 9. |
| Demo.DemoInsertions | Test_q2/Program.cs:273-284 | The nine demo insertions into a fresh heap leave 1 7 4 8 56 12 19 24 9. |
| Demo.RemoveMinStep | Test_q2/Program.cs:287 | The demo's removeMin leaves 4 7 12 8 56 9 19 24. |
| Demo.RemoveMaxStep | Test_q2/Program.cs:290 | The demo's removeMax removes 56 and leaves 4 7 12 8 24 9 19. |
| Demo.DemoTrace | Test_q2/Program.cs:273-290 | The priorities after the insertions, after removeMin, and after removeMax. |
| Demo.DemoRemoveMinBreaksOrder | Test_q2/Program.cs:276-287 | The insertions leave a heap-ordered list, and the demo's removeMin breaks heap order. |
| Demo.RemoveMinStep2 | Test_q2/Program.cs:54-73 | A second removeMin leaves 7 8 12 24 56 9 19. |
| Demo.RemoveMinStep3 | Test_q2/Program.cs:54-73 | A third removeMin leaves 8 24 12 19 56 9. |
| Demo.RemoveMinStep4 | Test_q2/Program.cs:54-73 | A fourth removeMin leaves 12 24 9 19 56. |
| Demo.RemoveMinStep5 | Test_q2/Program.cs:54-73 | A fifth removeMin leaves 9 24 56 19. |
| Demo.DemoExtractionNotMonotone | Test_q2/Program.cs:150-177 | After the demo insertions, five removeMin calls leave roots 1, 4, 7, 8, 12, 9, and a sixth call loses exactly that last root 9: the order is not monotone. |
| Demo.DemoRun | Test_q2/Program.cs:273-290 | The demo run through the PriorityQueue object, with any sentinel payload, yields the three priority lists of the trace. |

## Left out

- `printHeap` and its calls (Test_q2/Program.cs:49, 69, 101, 113-123, 143, 172) only write to the console and have no effect on state. `HeapSpec.Priorities` gives the list it would print.
- `Program.Main` (Test_q2/Program.cs:269-295) is the demonstration driver, including its console output and `Console.ReadLine`. Its sequence of calls is replayed by `Demo.DemoRun` and the `Demo` lemmas.
- `initWith` (Test_q2/Program.cs:108-111) is a debugging hook that replaces the list wholesale and can remove the sentinel. It is not modelled.
- C# `int` overflow in `2 * parentIdx` and `2 * parentIdx + 1` (Test_q2/Program.cs:200, 213) is not modelled: indices and priorities are unbounded integers.
- `Heaps.BinaryHeap.GetPriority` requires an index in range, where the C# `ElementAt` would throw. The source states that callers check the index first, and every caller does.
- The sentinel's payload is `default(T)` in C#, which exists for every `T`. Here the classes take a payload type with a default value (`T(0)`), so heaps of payload types without one are not modelled. The sentinel payload is an arbitrary value of that type, and all sentinel lemmas hold for any sentinel.
- No heap-order postcondition is stated for `removeMin`, `removeMax` or `heapDown`, because the code does not restore heap order (see above). `removeMax` also never sifts up.
