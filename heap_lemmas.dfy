/** Properties of the value-level heap model: what insert, removeMin,
    removeMax, heapUp and heapDown guarantee, and what they do not. */
module HeapLemmas {
  import opened HeapSpec

  // ---------------------------------------------------------------------
  // Every operation only rearranges entries, apart from the one it adds or
  // removes.

  lemma {:induction false} SiftedUpPermutes<T>(s: seq<HeapData<T>>, i: int)
    ensures multiset(SiftedUp(s, i)) == multiset(s)
    decreases i
  {
    if ValidIndex(|s|, i) {
      var p := ParentIndex(|s|, i);
      if ValidIndex(|s|, p) && s[i].priority < s[p].priority {
        SiftedUpPermutes(Swapped(s, i, p), p);
      }
    }
  }

  lemma {:induction false} SiftedDownPermutes<T>(s: seq<HeapData<T>>, i: int)
    ensures multiset(SiftedDown(s, i)) == multiset(s)
    decreases |s| - i
  {
    var c := SmallerChildIndex(s, i);
    if ValidIndex(|s|, c) {
      SiftedDownPermutes(Swapped(s, i, c), c);
    }
  }

  lemma RemoveSlotDrops<T>(s: seq<HeapData<T>>, t: int)
    requires 0 <= t < |s|
    ensures multiset(RemoveSlot(s, t)) == multiset(s) - multiset{s[t]}
  {
    var last := s[|s| - 1];
    var u := s[t := last];
    assert s == s[..|s| - 1] + [last];
    assert u == u[..|s| - 1] + [last];
  }

  /** insert adds exactly the new entry. */
  lemma InsertedAddsEntry<T>(s: seq<HeapData<T>>, value: T, priority: int)
    ensures multiset(Inserted(s, value, priority)) == multiset(s) + multiset{HeapData(value, priority)}
  {
    var t := s + [HeapData(value, priority)];
    SiftedUpPermutes(t, |t| - 1);
  }

  /** removeMin on a list with real entries drops exactly the root entry. */
  lemma MinRemovedDropsRoot<T>(s: seq<HeapData<T>>)
    requires |s| >= 2
    ensures multiset(MinRemoved(s)) == multiset(s) - multiset{s[1]}
  {
    RemoveSlotDrops(s, 1);
    SiftedDownPermutes(RemoveSlot(s, 1), 1);
  }

  /** removeMax on a list with real entries drops exactly one entry: the one
      in the first slot holding the largest priority. */
  lemma MaxRemovedDropsFirstMax<T>(s: seq<HeapData<T>>)
    requires |s| >= 2
    ensures IsFirstMax(s, |s|, FirstMaxIndex(s, |s|))
    ensures multiset(MaxRemoved(s)) == multiset(s) - multiset{s[FirstMaxIndex(s, |s|)]}
  {
    var t := FirstMaxIndex(s, |s|);
    RemoveSlotDrops(s, t);
    SiftedDownPermutes(RemoveSlot(s, t), t);
  }

  // ---------------------------------------------------------------------
  // Sift-up and insert preserve heap order.

  /** One exchange of heapUp moves the "out of order" link one level up. */
  lemma SwapUpStep<T>(s: seq<HeapData<T>>, i: int)
    requires ValidIndex(|s|, i) && ValidIndex(|s|, i / 2)
    requires OrderedExcept(s, i) && s[i].priority < s[i / 2].priority
    ensures OrderedExcept(Swapped(s, i, i / 2), i / 2)
  {
    var p := i / 2;
    var t := Swapped(s, i, p);
    forall k | 1 < k < |t| && k != p
      ensures t[k / 2].priority <= t[k].priority
    {
      if k == i {
      } else if k / 2 == i {
        assert t[k] == s[k];
      } else if k / 2 == p {
        assert t[k] == s[k] && s[p].priority <= s[k].priority;
      } else {
        assert t[k] == s[k] && t[k / 2] == s[k / 2];
      }
    }
    forall k | 1 < k < |t| && k / 2 == p && p > 1
      ensures t[p / 2].priority <= t[k].priority
    {
      assert t[p / 2] == s[p / 2] && s[p / 2].priority <= s[p].priority;
      if k != i {
        assert t[k] == s[k] && s[p].priority <= s[k].priority;
      }
    }
  }

  /** heapUp from a slot whose link to its parent is the only one out of
      order leaves the whole list heap-ordered. */
  lemma {:induction false} SiftUpRestoresOrder<T>(s: seq<HeapData<T>>, i: int)
    requires ValidIndex(|s|, i) && OrderedExcept(s, i)
    ensures HeapOrdered(SiftedUp(s, i))
    decreases i
  {
    var p := ParentIndex(|s|, i);
    if ValidIndex(|s|, p) && s[i].priority < s[p].priority {
      SwapUpStep(s, i);
      SiftUpRestoresOrder(Swapped(s, i, p), p);
    }
  }

  /** insert keeps a heap-ordered list heap-ordered. */
  lemma InsertPreservesOrder<T>(s: seq<HeapData<T>>, value: T, priority: int)
    requires |s| >= 1 && HeapOrdered(s)
    ensures HeapOrdered(Inserted(s, value, priority))
  {
    var t := s + [HeapData(value, priority)];
    var n := |t| - 1;
    forall k | 1 < k < |t| && k != n
      ensures t[k / 2].priority <= t[k].priority
    {
      assert t[k] == s[k] && t[k / 2] == s[k / 2];
    }
    SiftUpRestoresOrder(t, n);
  }

  // ---------------------------------------------------------------------
  // The root of a heap-ordered list holds a minimum priority.

  lemma {:induction false} RootIsMinimum<T>(s: seq<HeapData<T>>, k: int)
    requires HeapOrdered(s) && 1 <= k < |s|
    ensures s[1].priority <= s[k].priority
    decreases k
  {
    if k > 1 {
      RootIsMinimum(s, k / 2);
    }
  }

  /** On a heap-ordered list, removeMin discards an entry of globally
      smallest priority, and exactly that one entry. */
  lemma MinRemovedDropsMinimum<T>(s: seq<HeapData<T>>)
    requires HeapOrdered(s) && |s| >= 2
    ensures forall k :: 1 <= k < |s| ==> s[1].priority <= s[k].priority
    ensures multiset(MinRemoved(s)) == multiset(s) - multiset{s[1]}
  {
    MinRemovedDropsRoot(s);
    forall k | 1 <= k < |s|
      ensures s[1].priority <= s[k].priority
    {
      RootIsMinimum(s, k);
    }
  }

  // ---------------------------------------------------------------------
  // What heapDown does: it rotates the entries along its path.

  /** Each slot of a heapDown path after the first is the smaller child of
      the slot before it. */
  lemma {:induction false} DownPathStep<T>(s: seq<HeapData<T>>, i: int, j: int)
    requires 0 < j < |DownPath(s, i)|
    ensures var p := DownPath(s, i); p[j] == SmallerChildIndex(s, p[j - 1])
    decreases |s| - i
  {
    var c := SmallerChildIndex(s, i);
    if j > 1 {
      DownPathStep(s, c, j - 1);
    }
  }

  /** The path depends only on slots beyond its start. */
  lemma {:induction false} DownPathFrame<T>(s: seq<HeapData<T>>, t: seq<HeapData<T>>, i: int)
    requires |s| == |t|
    requires forall k :: 0 <= k < |s| && i < k ==> s[k] == t[k]
    ensures DownPath(s, i) == DownPath(t, i)
    decreases |s| - i
  {
    if ValidIndex(|s|, i) {
      var c := SmallerChildIndex(s, i);
      if ValidIndex(|s|, 2 * i) {
        assert s[2 * i] == t[2 * i];
      }
      if ValidIndex(|s|, 2 * i + 1) {
        assert s[2 * i] == t[2 * i] && s[2 * i + 1] == t[2 * i + 1];
      }
      assert c == SmallerChildIndex(t, i);
      if ValidIndex(|s|, c) {
        DownPathFrame(s, t, c);
      }
    }
  }

  /** One step of heapDown seen from the path: after exchanging slot i with
      its smaller child c, the path from c is the rest of the path from i. */
  lemma DownPathUnfold<T>(s: seq<HeapData<T>>, i: int)
    requires ValidIndex(|s|, SmallerChildIndex(s, i))
    ensures var c := SmallerChildIndex(s, i);
      var t := Swapped(s, i, c);
      DownPath(s, i) == [i] + DownPath(t, c) &&
      SiftedDown(s, i) == SiftedDown(t, c)
  {
    var c := SmallerChildIndex(s, i);
    DownPathFrame(s, Swapped(s, i, c), c);
  }

  /** heapDown(i) leaves every slot off its path unchanged. */
  lemma {:induction false} RotatedOffPath<T>(s: seq<HeapData<T>>, i: int, k: int)
    requires 0 <= k < |s| && k !in DownPath(s, i)
    ensures SiftedDown(s, i)[k] == s[k]
    decreases |s| - i
  {
    var c := SmallerChildIndex(s, i);
    if ValidIndex(|s|, c) {
      DownPathUnfold(s, i);
      var t := Swapped(s, i, c);
      var q := DownPath(t, c);
      assert DownPath(s, i) == [i] + q;
      assert k != i && k != c && k !in q;
      RotatedOffPath(t, c, k);
    }
  }

  /** heapDown exchanges even when the entry is no larger than its smaller
      child: whenever a valid left child exists, slot i receives the smaller
      child's entry. */
  lemma SiftDownIgnoresOrder<T>(s: seq<HeapData<T>>, i: int)
    requires ValidIndex(|s|, i) && ValidIndex(|s|, 2 * i)
    ensures SiftedDown(s, i)[i] == s[SmallerChildIndex(s, i)]
  {
    var c := SmallerChildIndex(s, i);
    DownPathUnfold(s, i);
    var t := Swapped(s, i, c);
    var q := DownPath(t, c);
    assert i !in q by {
      assert forall m :: 0 <= m < |q| ==> q[m] >= c;
    }
    RotatedOffPath(t, c, i);
  }

  /** heapDown(i) gives each slot of its path but the last the entry of the
      next slot. */
  lemma {:induction false} RotatedOnPath<T>(s: seq<HeapData<T>>, i: int, j: int)
    requires 0 <= j < |DownPath(s, i)| - 1
    ensures var p := DownPath(s, i); SiftedDown(s, i)[p[j]] == s[p[j + 1]]
    decreases |s| - i
  {
    var p := DownPath(s, i);
    var c := SmallerChildIndex(s, i);
    assert p[0] == i && p[1] == c;
    if j == 0 {
      SiftDownIgnoresOrder(s, i);
    } else {
      DownPathUnfold(s, i);
      var t := Swapped(s, i, c);
      var q := DownPath(t, c);
      var a, b := q[j - 1], q[j];
      assert p[j] == a && p[j + 1] == b;
      assert t[b] == s[b] by {
        assert c < b;
      }
      RotatedOnPath(t, c, j - 1);
    }
  }

  /** heapDown(i) leaves the entry that was at i in the last slot of its path. */
  lemma {:induction false} RotatedLast<T>(s: seq<HeapData<T>>, i: int)
    requires ValidIndex(|s|, i)
    ensures var p := DownPath(s, i); SiftedDown(s, i)[p[|p| - 1]] == s[i]
    decreases |s| - i
  {
    var c := SmallerChildIndex(s, i);
    if ValidIndex(|s|, c) {
      DownPathUnfold(s, i);
      var t := Swapped(s, i, c);
      var q := DownPath(t, c);
      assert DownPath(s, i) == [i] + q;
      RotatedLast(t, c);
    }
  }

  /** heapDown(i) exchanges all the way down its path, whatever the
      priorities: the entry that was at i ends in the last slot of the path,
      every other slot of the path receives the entry of the next one (its
      smaller child), and no slot off the path changes. */
  lemma SiftDownRotatesPath<T>(s: seq<HeapData<T>>, i: int)
    requires ValidIndex(|s|, i)
    ensures var r, p := SiftedDown(s, i), DownPath(s, i);
      |p| > 0 &&
      (forall k :: 0 <= k < |s| && k !in p ==> r[k] == s[k]) &&
      (forall j :: 0 <= j < |p| - 1 ==> r[p[j]] == s[p[j + 1]]) &&
      r[p[|p| - 1]] == s[i]
  {
    forall k | 0 <= k < |s| && k !in DownPath(s, i)
      ensures SiftedDown(s, i)[k] == s[k]
    {
      RotatedOffPath(s, i, k);
    }
    forall j | 0 <= j < |DownPath(s, i)| - 1
      ensures SiftedDown(s, i)[DownPath(s, i)[j]] == s[DownPath(s, i)[j + 1]]
    {
      RotatedOnPath(s, i, j);
    }
    RotatedLast(s, i);
  }

  /** The last slot of a heapDown path is nobody's parent. */
  lemma PathEndIsLeaf<T>(s: seq<HeapData<T>>, i: int, k: int)
    requires ValidIndex(|s|, i) && 1 < k < |s|
    ensures var p := DownPath(s, i); k / 2 != p[|p| - 1]
  {
    var p := DownPath(s, i);
    var last := p[|p| - 1];
    assert !ValidIndex(|s|, 2 * last);
  }

  /** Links ordered except possibly those touching slot i. */
  ghost predicate OrderedAwayFrom<T>(s: seq<HeapData<T>>, i: int)
  {
    forall k :: 1 < k < |s| && k != i && k / 2 != i ==> s[k / 2].priority <= s[k].priority
  }

  /** A link from one path slot to the next, after heapDown. */
  lemma LinkAlongPath<T>(s: seq<HeapData<T>>, i: int, j: int)
    requires ValidIndex(|s|, i) && OrderedAwayFrom(s, i)
    requires var p := DownPath(s, i); 0 < j < |p| - 1
    ensures var r, p := SiftedDown(s, i), DownPath(s, i);
      r[p[j] / 2].priority <= r[p[j]].priority
  {
    var r, p := SiftedDown(s, i), DownPath(s, i);
    RotatedOnPath(s, i, j - 1);
    RotatedOnPath(s, i, j);
    DownPathStep(s, i, j);
    assert p[j] / 2 == p[j - 1];
    assert r[p[j - 1]] == s[p[j]] && r[p[j]] == s[p[j + 1]];
    DownPathStep(s, i, j + 1);
    assert p[j + 1] / 2 == p[j] && p[j + 1] != i && 1 < p[j + 1] < |s|;
  }

  /** The child heapDown picks has a priority no larger than any child. */
  lemma SmallerChildIsSmallest<T>(s: seq<HeapData<T>>, x: int, k: int)
    requires 0 < x && 1 < k < |s| && k / 2 == x
    ensures var c := SmallerChildIndex(s, x);
      ValidIndex(|s|, c) && s[c].priority <= s[k].priority
  {
    if k != 2 * x {
      assert k == 2 * x + 1;
    }
  }

  /** A link from a path slot to a child off the path, after heapDown. */
  lemma LinkLeavingPath<T>(s: seq<HeapData<T>>, i: int, j: int, k: int)
    requires ValidIndex(|s|, i)
    requires var p := DownPath(s, i); 0 <= j < |p| && 1 < k < |s| && k / 2 == p[j] && k !in p
    ensures var r, p := SiftedDown(s, i), DownPath(s, i);
      r[k / 2].priority <= r[k].priority
  {
    var r, p := SiftedDown(s, i), DownPath(s, i);
    assert j < |p| - 1 by {
      PathEndIsLeaf(s, i, k);
    }
    var c := p[j + 1];
    DownPathStep(s, i, j + 1);
    assert s[c].priority <= s[k].priority by {
      SmallerChildIsSmallest(s, p[j], k);
    }
    assert r[p[j]] == s[c] by {
      RotatedOnPath(s, i, j);
    }
    assert r[k] == s[k] by {
      RotatedOffPath(s, i, k);
    }
  }

  /** What heapDown does preserve: started on a list whose links are ordered
      except those touching slot i, it leaves every link ordered except the
      one into i and the one into the slot where the old entry of i lands. */
  lemma SiftDownOrdersAllButLanding<T>(s: seq<HeapData<T>>, i: int)
    requires ValidIndex(|s|, i) && OrderedAwayFrom(s, i)
    ensures var r, p := SiftedDown(s, i), DownPath(s, i);
      forall k :: 1 < k < |r| && k != i && k != p[|p| - 1] ==> r[k / 2].priority <= r[k].priority
  {
    var r, p := SiftedDown(s, i), DownPath(s, i);
    var m := |p|;
    forall k | 1 < k < |r| && k != i && k != p[m - 1]
      ensures r[k / 2].priority <= r[k].priority
    {
      if k in p {
        var j :| 0 <= j < m && p[j] == k;
        LinkAlongPath(s, i, j);
      } else if k / 2 in p {
        var j :| 0 <= j < m && p[j] == k / 2;
        LinkLeavingPath(s, i, j, k);
      } else {
        RotatedOffPath(s, i, k);
        RotatedOffPath(s, i, k / 2);
      }
    }
  }

  /** On a heap-ordered list, removeMin leaves every link ordered except,
      possibly, the one into the slot where the old last entry comes to rest. */
  lemma MinRemovedOrderedButLanding<T>(s: seq<HeapData<T>>)
    requires HeapOrdered(s) && |s| >= 3
    ensures var u := RemoveSlot(s, 1);
      var r, p := MinRemoved(s), DownPath(u, 1);
      |p| > 0 && r[p[|p| - 1]] == s[|s| - 1] &&
      forall k :: 1 < k < |r| && k != p[|p| - 1] ==> r[k / 2].priority <= r[k].priority
  {
    var u := RemoveSlot(s, 1);
    forall k | 1 < k < |u| && k != 1 && k / 2 != 1
      ensures u[k / 2].priority <= u[k].priority
    {
      assert u[k] == s[k] && u[k / 2] == s[k / 2];
    }
    assert OrderedAwayFrom(u, 1);
    SiftDownOrdersAllButLanding(u, 1);
    SiftDownRotatesPath(u, 1);
  }

  // ---------------------------------------------------------------------
  // The sentinel in slot 0 is never read: two lists that agree on their real
  // entries agree on them after every operation (and slot 0 itself is
  // carried over unchanged by each function's own contract).

  ghost predicate SameEntries<T>(s: seq<HeapData<T>>, t: seq<HeapData<T>>)
  {
    |s| == |t| && forall k :: 1 <= k < |s| ==> s[k] == t[k]
  }

  lemma {:induction false} SiftedUpIgnoresSentinel<T>(s: seq<HeapData<T>>, t: seq<HeapData<T>>, i: int)
    requires SameEntries(s, t)
    ensures SameEntries(SiftedUp(s, i), SiftedUp(t, i))
    decreases i
  {
    if ValidIndex(|s|, i) {
      var p := ParentIndex(|s|, i);
      if ValidIndex(|s|, p) && s[i].priority < s[p].priority {
        SiftedUpIgnoresSentinel(Swapped(s, i, p), Swapped(t, i, p), p);
      }
    }
  }

  lemma {:induction false} SiftedDownIgnoresSentinel<T>(s: seq<HeapData<T>>, t: seq<HeapData<T>>, i: int)
    requires SameEntries(s, t)
    ensures SameEntries(SiftedDown(s, i), SiftedDown(t, i))
    decreases |s| - i
  {
    var c := SmallerChildIndex(s, i);
    if ValidIndex(|s|, c) {
      assert c == SmallerChildIndex(t, i);
      SiftedDownIgnoresSentinel(Swapped(s, i, c), Swapped(t, i, c), c);
    } else {
      assert !ValidIndex(|t|, SmallerChildIndex(t, i));
    }
  }

  lemma {:induction false} FirstMaxIgnoresSentinel<T>(s: seq<HeapData<T>>, t: seq<HeapData<T>>, n: int)
    requires SameEntries(s, t) && 2 <= n <= |s|
    ensures FirstMaxIndex(s, n) == FirstMaxIndex(t, n)
    decreases n
  {
    if n > 2 {
      FirstMaxIgnoresSentinel(s, t, n - 1);
    }
  }

  lemma InsertedIgnoresSentinel<T>(s: seq<HeapData<T>>, t: seq<HeapData<T>>, value: T, priority: int)
    requires SameEntries(s, t)
    ensures SameEntries(Inserted(s, value, priority), Inserted(t, value, priority))
  {
    var e := [HeapData(value, priority)];
    assert SameEntries(s + e, t + e);
    SiftedUpIgnoresSentinel(s + e, t + e, |s|);
  }

  lemma RemoveSlotIgnoresSentinel<T>(s: seq<HeapData<T>>, t: seq<HeapData<T>>, m: int)
    requires SameEntries(s, t) && 1 <= m < |s|
    ensures SameEntries(RemoveSlot(s, m), RemoveSlot(t, m))
  {
  }

  lemma MinRemovedIgnoresSentinel<T>(s: seq<HeapData<T>>, t: seq<HeapData<T>>)
    requires SameEntries(s, t)
    ensures SameEntries(MinRemoved(s), MinRemoved(t))
  {
    if |s| >= 2 {
      RemoveSlotIgnoresSentinel(s, t, 1);
      SiftedDownIgnoresSentinel(RemoveSlot(s, 1), RemoveSlot(t, 1), 1);
    }
  }

  lemma MaxRemovedIgnoresSentinel<T>(s: seq<HeapData<T>>, t: seq<HeapData<T>>)
    requires SameEntries(s, t)
    ensures SameEntries(MaxRemoved(s), MaxRemoved(t))
  {
    if |s| >= 2 {
      FirstMaxIgnoresSentinel(s, t, |s|);
      var m := FirstMaxIndex(s, |s|);
      RemoveSlotIgnoresSentinel(s, t, m);
      SiftedDownIgnoresSentinel(RemoveSlot(s, m), RemoveSlot(t, m), m);
    }
  }

  // ---------------------------------------------------------------------
  // With no real entries, both removals change nothing, however often.

  lemma EmptyRemovalsAreNoOps<T>(s: seq<HeapData<T>>)
    requires |s| == 1
    ensures MinRemoved(s) == s && MaxRemoved(s) == s
    ensures MinRemoved(MaxRemoved(MinRemoved(s))) == s
  {
  }
}
