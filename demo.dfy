/** The demonstration run of the program: nine insertions into a fresh
    queue, one removeMin and one removeMax, with the priorities each stage
    leaves in slots 1 .. n. */
module Demo {
  import opened HeapSpec
  import HeapLemmas
  import Heaps

  /** A demo entry: payload 0 with the given priority. */
  function E(priority: int): HeapData<int>
  {
    HeapData(0, priority)
  }

  /** The list after each demo insertion. */
  function S0(): seq<HeapData<int>> { [E(-1)] }
  function S1(): seq<HeapData<int>> { [E(-1), E(4)] }
  function S2(): seq<HeapData<int>> { [E(-1), E(4), E(9)] }
  function S3(): seq<HeapData<int>> { [E(-1), E(4), E(9), E(12)] }
  function S4(): seq<HeapData<int>> { [E(-1), E(4), E(8), E(12), E(9)] }
  function S5(): seq<HeapData<int>> { [E(-1), E(4), E(8), E(12), E(9), E(56)] }
  function S6(): seq<HeapData<int>> { [E(-1), E(1), E(8), E(4), E(9), E(56), E(12)] }
  function S7(): seq<HeapData<int>> { [E(-1), E(1), E(8), E(4), E(9), E(56), E(12), E(19)] }
  function S8(): seq<HeapData<int>> { [E(-1), E(1), E(8), E(4), E(9), E(56), E(12), E(19), E(24)] }
  function S9(): seq<HeapData<int>> { [E(-1), E(1), E(7), E(4), E(8), E(56), E(12), E(19), E(24), E(9)] }

  lemma InsertStep1()
    ensures Inserted(S0(), 0, 4) == S1()
  {
  }

  lemma InsertStep2()
    ensures Inserted(S1(), 0, 9) == S2()
  {
  }

  lemma InsertStep3()
    ensures Inserted(S2(), 0, 12) == S3()
  {
  }

  lemma InsertStep4()
    ensures Inserted(S3(), 0, 8) == S4()
  {
  }

  lemma InsertStep5()
    ensures Inserted(S4(), 0, 56) == S5()
  {
  }

  lemma InsertStep6()
    ensures Inserted(S5(), 0, 1) == S6()
  {
    var u := [E(-1), E(4), E(8), E(1), E(9), E(56), E(12)];
    assert Swapped(S5() + [E(1)], 6, 3) == u;
    assert Swapped(u, 3, 1) == S6();
  }

  lemma InsertStep7()
    ensures Inserted(S6(), 0, 19) == S7()
  {
  }

  lemma InsertStep8()
    ensures Inserted(S7(), 0, 24) == S8()
  {
  }

  lemma InsertStep9()
    ensures Inserted(S8(), 0, 7) == S9()
  {
  }

  function M1(): seq<HeapData<int>> { [E(-1), E(4), E(7), E(12), E(8), E(56), E(9), E(19), E(24)] }
  function M2(): seq<HeapData<int>> { [E(-1), E(4), E(7), E(12), E(8), E(24), E(9), E(19)] }

  lemma RemoveMinStep()
    ensures MinRemoved(S9()) == M1()
  {
  }

  lemma RemoveMaxStep()
    ensures MaxRemoved(M1()) == M2()
  {
  }

  /** The nine demo insertions into a fresh heap leave S9. */
  lemma DemoInsertions()
    ensures Inserted(Inserted(Inserted(Inserted(Inserted(Inserted(Inserted(Inserted(Inserted(
              S0(), 0, 4), 0, 9), 0, 12), 0, 8), 0, 56), 0, 1), 0, 19), 0, 24), 0, 7) == S9()
  {
    InsertStep1(); InsertStep2(); InsertStep3(); InsertStep4(); InsertStep5();
    InsertStep6(); InsertStep7(); InsertStep8(); InsertStep9();
  }

  lemma PrioritiesAre<T>(s: seq<HeapData<T>>, ps: seq<int>)
    requires |s| >= 1 && |ps| == |s| - 1
    requires forall k :: 0 <= k < |ps| ==> ps[k] == s[k + 1].priority
    ensures Priorities(s) == ps
  {
    var r := Priorities(s);
    forall k | 0 <= k < |ps|
      ensures r[k] == ps[k]
    {
      assert r[(k + 1) - 1] == s[k + 1].priority;
    }
  }

  lemma PrioritiesS9()
    ensures Priorities(S9()) == [1, 7, 4, 8, 56, 12, 19, 24, 9]
  {
    PrioritiesAre(S9(), [1, 7, 4, 8, 56, 12, 19, 24, 9]);
  }

  lemma PrioritiesM1()
    ensures Priorities(M1()) == [4, 7, 12, 8, 56, 9, 19, 24]
  {
    PrioritiesAre(M1(), [4, 7, 12, 8, 56, 9, 19, 24]);
  }

  lemma PrioritiesM2()
    ensures Priorities(M2()) == [4, 7, 12, 8, 24, 9, 19]
  {
    PrioritiesAre(M2(), [4, 7, 12, 8, 24, 9, 19]);
  }

  /** The priorities in slots 1 .. n after the insertions, then removeMin,
      then removeMax. */
  lemma DemoTrace()
    ensures Priorities(S9()) == [1, 7, 4, 8, 56, 12, 19, 24, 9]
    ensures Priorities(MinRemoved(S9())) == [4, 7, 12, 8, 56, 9, 19, 24]
    ensures Priorities(MaxRemoved(MinRemoved(S9()))) == [4, 7, 12, 8, 24, 9, 19]
  {
    PrioritiesS9();
    RemoveMinStep();
    PrioritiesM1();
    RemoveMaxStep();
    PrioritiesM2();
  }

  /** The insertions leave a heap-ordered list; removeMin then breaks heap
      order, since slot 6 (priority 9) ends below slot 3 (priority 12). */
  lemma DemoRemoveMinBreaksOrder()
    ensures HeapOrdered(S9())
    ensures !HeapOrdered(MinRemoved(S9()))
  {
    RemoveMinStep();
    assert M1()[6 / 2].priority > M1()[6].priority;
  }

  /** The lists left by further removeMin calls after the first. */
  function R2(): seq<HeapData<int>> { [E(-1), E(7), E(8), E(12), E(24), E(56), E(9), E(19)] }
  function R3(): seq<HeapData<int>> { [E(-1), E(8), E(24), E(12), E(19), E(56), E(9)] }
  function R4(): seq<HeapData<int>> { [E(-1), E(12), E(24), E(9), E(19), E(56)] }
  function R5(): seq<HeapData<int>> { [E(-1), E(9), E(24), E(56), E(19)] }

  lemma RemoveMinStep2()
    ensures MinRemoved(M1()) == R2()
  {
  }

  lemma RemoveMinStep3()
    ensures MinRemoved(R2()) == R3()
  {
  }

  lemma RemoveMinStep4()
    ensures MinRemoved(R3()) == R4()
  {
  }

  lemma RemoveMinStep5()
    ensures MinRemoved(R4()) == R5()
  {
  }

  /** Six successive removeMin calls after the demo insertions discard the
      root priorities 1, 4, 7, 8, 12, 9 in that order (the sixth call loses
      exactly the root 9 of the list the fifth leaves): min-extraction is not
      monotone, because heapDown does not restore heap order. */
  lemma DemoExtractionNotMonotone()
    ensures var l0 := S9();
      var l1 := MinRemoved(l0);
      var l2 := MinRemoved(l1);
      var l3 := MinRemoved(l2);
      var l4 := MinRemoved(l3);
      var l5 := MinRemoved(l4);
      |l5| == 5 &&
      [l0[1].priority, l1[1].priority, l2[1].priority, l3[1].priority, l4[1].priority, l5[1].priority]
        == [1, 4, 7, 8, 12, 9] &&
      multiset(MinRemoved(l5)) == multiset(l5) - multiset{l5[1]}
  {
    RemoveMinStep();
    RemoveMinStep2();
    RemoveMinStep3();
    RemoveMinStep4();
    RemoveMinStep5();
    HeapLemmas.MinRemovedDropsRoot(R5());
  }

  lemma SameEntriesSamePriorities<T>(s: seq<HeapData<T>>, t: seq<HeapData<T>>)
    requires HeapLemmas.SameEntries(s, t)
    ensures Priorities(s) == Priorities(t)
  {
  }

  /** The same run through the queue objects, whose sentinel payload is
      whatever default the payload type has. */
  method DemoRun() returns (afterInserts: seq<int>, afterMin: seq<int>, afterMax: seq<int>)
    ensures afterInserts == [1, 7, 4, 8, 56, 12, 19, 24, 9]
    ensures afterMin == [4, 7, 12, 8, 56, 9, 19, 24]
    ensures afterMax == [4, 7, 12, 8, 24, 9, 19]
  {
    var foo := new Heaps.PriorityQueue<int>();
    assert HeapLemmas.SameEntries(foo.heap.heap, S0());
    ghost var h := foo.heap.heap;
    foo.Enqueue(0, 4);
    HeapLemmas.InsertedIgnoresSentinel(h, S0(), 0, 4);
    InsertStep1();
    h := foo.heap.heap;
    foo.Enqueue(0, 9);
    HeapLemmas.InsertedIgnoresSentinel(h, S1(), 0, 9);
    InsertStep2();
    h := foo.heap.heap;
    foo.Enqueue(0, 12);
    HeapLemmas.InsertedIgnoresSentinel(h, S2(), 0, 12);
    InsertStep3();
    h := foo.heap.heap;
    foo.Enqueue(0, 8);
    HeapLemmas.InsertedIgnoresSentinel(h, S3(), 0, 8);
    InsertStep4();
    h := foo.heap.heap;
    foo.Enqueue(0, 56);
    HeapLemmas.InsertedIgnoresSentinel(h, S4(), 0, 56);
    InsertStep5();
    h := foo.heap.heap;
    foo.Enqueue(0, 1);
    HeapLemmas.InsertedIgnoresSentinel(h, S5(), 0, 1);
    InsertStep6();
    h := foo.heap.heap;
    foo.Enqueue(0, 19);
    HeapLemmas.InsertedIgnoresSentinel(h, S6(), 0, 19);
    InsertStep7();
    h := foo.heap.heap;
    foo.Enqueue(0, 24);
    HeapLemmas.InsertedIgnoresSentinel(h, S7(), 0, 24);
    InsertStep8();
    h := foo.heap.heap;
    foo.Enqueue(0, 7);
    HeapLemmas.InsertedIgnoresSentinel(h, S8(), 0, 7);
    InsertStep9();
    DemoTrace();
    SameEntriesSamePriorities(foo.heap.heap, S9());
    afterInserts := Priorities(foo.heap.heap);

    h := foo.heap.heap;
    foo.DequeueMin();
    HeapLemmas.MinRemovedIgnoresSentinel(h, S9());
    RemoveMinStep();
    SameEntriesSamePriorities(foo.heap.heap, M1());
    afterMin := Priorities(foo.heap.heap);

    h := foo.heap.heap;
    foo.DequeueMax();
    HeapLemmas.MaxRemovedIgnoresSentinel(h, M1());
    RemoveMaxStep();
    SameEntriesSamePriorities(foo.heap.heap, M2());
    afterMax := Priorities(foo.heap.heap);
  }
}
