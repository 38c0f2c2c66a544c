/**
 * Concrete histories of MyHeap that show where removeMin and remove, as
 * written, break what a priority queue promises, next to the same
 * histories under the evidently intended versions.
 */
module HeapScenarios {
  import opened LinkedTree
  import opened TreeShape
  import opened HeapModel
  import opened Entries
  import opened HeapOrder
  import opened HeapProps
  import opened TreeScenarios

  function NoHeap<V>(): HeapState<V> { HeapState(Empty(), [], 0) }

  /** The heap after insert(1, v): entry 0 at the root. */
  function OneEntry<V>(v: V): HeapState<V>
  {
    HeapState(Tree([Node(0, -1, -1, -1)], 0, [0], 1), [EntryState(1, v, 0)], 1)
  }

  /** The heap after insert(1, v) and insert(2, v): entry 0 at the root, entry 1 its left child. */
  function TwoEntries<V>(v: V): HeapState<V>
  {
    HeapState(Tree([Node(0, -1, 1, -1), Node(1, 0, -1, -1)], 0, [0, 1], 2),
              [EntryState(1, v, 0), EntryState(2, v, 1)], 2)
  }

  /** insert(1, v) on a new heap hands out entry 0 and builds OneEntry. */
  lemma {:induction false} FirstInsert<V>(v: V)
    ensures InsertSpec(NoHeap(), Key(1), v) == (OneEntry(v), Returns(0))
  {
    var t := OneEntry(v).tree;
    assert [] + [Node(0, -1, -1, -1)] == t.nodes && [] + [0] == t.line;
    assert AddNode(Empty<int>(), 0) == (t, Ok(0));
    assert [] + [NewEntry(1, v).(pos := 0)] == OneEntry(v).entries;
  }

  /** insert(2, v) then hands out entry 1 and builds TwoEntries: 2 is not smaller than 1, nothing moves. */
  lemma {:induction false} SecondInsert<V>(v: V)
    ensures InsertSpec(OneEntry(v), Key(2), v) == (TwoEntries(v), Returns(1))
  {
    var a := OneEntry(v);
    var s1 := TwoEntries(v);
    assert a.tree.nodes[0 := a.tree.nodes[0].(left := 1)] + [Node(1, 0, -1, -1)] == s1.tree.nodes;
    assert [0] + [1] == s1.tree.line;
    assert AddNode(a.tree, 1) == (s1.tree, Ok(1));
    assert a.entries + [NewEntry(2, v).(pos := 1)] == s1.entries;
    assert UpSpec(s1, 1, 2) == (s1, Pass);
  }

  /**
   * MyHeapTest.java:192-199: insert(k, v) on a new heap, then remove its
   * entry twice.  The first remove returns the entry and empties the heap;
   * the second throws EmptyPriorityQueueException.
   */
  lemma {:induction false} RemoveTwiceThrows<V>(k: int, v: V)
    ensures var one := HeapState(Tree([Node(0, -1, -1, -1)], 0, [0], 1), [EntryState(k, v, 0)], 1);
            && InsertSpec(NoHeap(), Key(k), v) == (one, Returns(0))
            && RemoveSpec(one, Entry(0)).1 == Returns(0)
            && RemoveSpec(RemoveSpec(one, Entry(0)).0, Entry(0)).1 == Throws(EmptyPriorityQueue)
  {
    var one := HeapState(Tree([Node(0, -1, -1, -1)], 0, [0], 1), [EntryState(k, v, 0)], 1);
    var t := one.tree;
    assert [] + [Node(0, -1, -1, -1)] == t.nodes && [] + [0] == t.line;
    assert AddNode(Empty<int>(), 0) == (t, Ok(0));
    assert [] + [NewEntry(k, v).(pos := 0)] == one.entries;
    assert Swap(one, 0, 0) == one;
    assert RemoveLast(t) == (Tree(t.nodes, -1, [], 0), Ok(0));
    assert TakeLast(one, 0, 0) == (HeapState(Tree(t.nodes, -1, [], 0), one.entries, 0), Ok(0));
  }

  /**
   * TwoEntries after removeMin as written: entry 1 is at the root but
   * still records node 1, which has left the tree, and the deque lists the
   * root twice.
   */
  function StaleAfterMin<V>(v: V): HeapState<V>
  {
    HeapState(Tree([Node(1, -1, -1, -1), Node(0, 0, -1, -1)], 0, [0, 0], 1),
              [EntryState(1, v, 0), EntryState(2, v, 1)], 1)
  }

  /** removeMin as written on TwoEntries returns entry 0 and leaves StaleAfterMin. */
  lemma {:induction false} RemoveMinLeavesStale<V>(v: V)
    ensures RemoveMinSpec(TwoEntries(v)) == (StaleAfterMin(v), Returns(0))
  {
    var s := TwoEntries(v);
    var t := Tree([Node(1, -1, 1, -1), Node(0, 0, -1, -1)], 0, [0, 1], 2);
    assert Swap(s, 0, 1).tree == t;
    var t1 := StaleAfterMin(v).tree;
    assert t.nodes[0 := Node(1, -1, -1, -1)] == t1.nodes;
    assert [0] + t.line[..1] == [0, 0];
    assert Detach(t.(line := [0, 0], count := 1), 1) == (t1, Ok(0));
    assert RemoveLast(t) == (t1, Ok(0));
  }

  /**
   * remove(entry 1) on StaleAfterMin takes from the stale position: it
   * returns entry 0, which removeMin returned already, and leaves the heap
   * empty without entry 1 ever being returned.
   */
  lemma {:induction false} StaleEntryRemovedTwice<V>(v: V)
    ensures RemoveSpec(StaleAfterMin(v), Entry(1))
            == (HeapState(Tree([Node(0, -1, -1, -1), Node(1, 0, -1, -1)], -1, [], 0),
                          [EntryState(1, v, 0), EntryState(2, v, 0)], 0),
                Returns(0))
  {
    var m := StaleAfterMin(v);
    var u := Tree([Node(0, -1, -1, -1), Node(1, 0, -1, -1)], 0, [0, 0], 1);
    assert Swap(m, 1, 0).tree == u;
    assert RemoveLast(u) == (Tree(u.nodes, -1, [], 0), Ok(0));
    assert TakeLast(m, 1, 0) == (HeapState(Tree(u.nodes, -1, [], 0), m.entries, 0), Ok(0));
    assert m.entries[1 := m.entries[1].(pos := 0)] == [EntryState(1, v, 0), EntryState(2, v, 0)];
  }

  /** TwoEntries after the intended removeMin: entry 1 at the root, and it knows it. */
  function AfterMin<V>(v: V): HeapState<V>
  {
    HeapState(Tree([Node(1, -1, -1, -1), Node(0, 0, -1, -1)], 0, [0], 1),
              [EntryState(1, v, 1), EntryState(2, v, 0)], 1)
  }

  /** The intended removeMin on TwoEntries returns entry 0 and leaves AfterMin. */
  lemma {:induction false} RemoveMinIntendedTracks<V>(v: V)
    ensures RemoveMinIntended(TwoEntries(v)) == (AfterMin(v), Returns(0))
  {
    var s := TwoEntries(v);
    var e := AfterMin(v).entries;
    var t := Tree([Node(1, -1, 1, -1), Node(0, 0, -1, -1)], 0, [0, 1], 2);
    assert Exchange(s, 0, 1) == HeapState(t, e, 2);
    var t1 := AfterMin(v).tree;
    assert t.nodes[0 := Node(1, -1, -1, -1)] == t1.nodes;
    assert t.line[..1] == [0];
    assert Detach(t.(line := [0], count := 1), 1) == (t1, Ok(0));
    assert RemoveIntended(t) == (t1, Ok(0));
  }

  /** The intended remove(entry 1) on AfterMin returns entry 1 and empties the heap. */
  lemma {:induction false} EachEntryRemovedOnce<V>(v: V)
    ensures RemoveEntryIntended(AfterMin(v), Entry(1))
            == (HeapState(AfterMin(v).tree.(root := -1, line := [], count := 0), AfterMin(v).entries, 0),
                Returns(1))
  {
    var m := AfterMin(v);
    assert Exchange(m, 0, 0) == m;
    assert RemoveIntended(m.tree) == (Tree(m.tree.nodes, -1, [], 0), Ok(1));
  }

  /** The keys 1; 10, 2; 11, 12, 3, 4 in level order, entry i at node i. */
  function SevenEntries<V>(v: V): HeapState<V>
  {
    HeapState(Tree([Node(0, -1, 1, 2), Node(1, 0, 3, 4), Node(2, 0, 5, 6), Node(3, 1, -1, -1),
                    Node(4, 1, -1, -1), Node(5, 2, -1, -1), Node(6, 2, -1, -1)], 0, [3, 4, 5, 6], 7),
              [EntryState(1, v, 0), EntryState(10, v, 1), EntryState(2, v, 2), EntryState(11, v, 3),
               EntryState(12, v, 4), EntryState(3, v, 5), EntryState(4, v, 6)], 7)
  }

  /** The tree of seven adds, which is the tree of SevenEntries, is complete with its deque right. */
  lemma {:induction false} SevenNodes<V>(v: V)
    ensures Frontier(SevenEntries(v).tree, [0, 1, 2, 3, 4, 5, 6])
  {
    var xs, o := [0, 1, 2, 3, 4, 5, 6], [0, 1, 2, 3, 4, 5, 6];
    assert o == Range(0, 7);
    AddsInArenaOrder(xs, o);
    SevenNodesAre(AddAll(Empty(), xs), v);
  }

  /** A complete tree of seven nodes in arena order holding 0..6 is the tree of SevenEntries. */
  lemma {:induction false} SevenNodesAre<V>(t: Tree<int>, v: V)
    requires Frontier(t, [0, 1, 2, 3, 4, 5, 6]) && Payloads(t.nodes) == [0, 1, 2, 3, 4, 5, 6]
    ensures t == SevenEntries(v).tree
  {
    var ns := SevenEntries(v).tree.nodes;
    assert FrontStart(7) == 3;
    SevenUpper(t, v);
    SevenLower(t, v);
    assert forall k :: 0 <= k < 7 ==> t.nodes[k] == ns[k];
  }

  lemma {:induction false} SevenUpper<V>(t: Tree<int>, v: V)
    requires Frontier(t, [0, 1, 2, 3, 4, 5, 6]) && Payloads(t.nodes) == [0, 1, 2, 3, 4, 5, 6]
    ensures forall k :: 0 <= k < 3 ==> t.nodes[k] == SevenEntries(v).tree.nodes[k]
  {
    var o := [0, 1, 2, 3, 4, 5, 6];
    forall k | 0 <= k < 3 ensures t.nodes[k] == SevenEntries(v).tree.nodes[k] {
      assert NodeAt(t, o, k);
      assert Payloads(t.nodes)[k] == k;
    }
  }

  lemma {:induction false} SevenLower<V>(t: Tree<int>, v: V)
    requires Frontier(t, [0, 1, 2, 3, 4, 5, 6]) && Payloads(t.nodes) == [0, 1, 2, 3, 4, 5, 6]
    ensures forall k :: 3 <= k < 7 ==> t.nodes[k] == SevenEntries(v).tree.nodes[k]
  {
    var o := [0, 1, 2, 3, 4, 5, 6];
    forall k | 3 <= k < 7 ensures t.nodes[k] == SevenEntries(v).tree.nodes[k] {
      assert NodeAt(t, o, k);
      assert Payloads(t.nodes)[k] == k;
    }
  }

  /** SevenEntries is a valid heap. */
  lemma {:induction false} SevenValid<V>(v: V)
    ensures Valid(SevenEntries(v), [0, 1, 2, 3, 4, 5, 6])
  {
    SevenNodes(v);
    SevenOrdered(v);
    var s, o := SevenEntries(v), [0, 1, 2, 3, 4, 5, 6];
    assert forall k :: 0 <= k < |o| ==> PosAt(s, o[k]);
  }

  lemma {:induction false} SevenOrdered<V>(v: V)
    ensures Fit(SevenEntries(v)) && HeapOrdered(SevenEntries(v))
  {
    SevenFit(v);
    var s := SevenEntries(v);
    SevenInnerOrdered(v);
    forall i | 3 <= i < 7 ensures NodeOrdered(s, i) {
      assert IsLeaf(s.tree.nodes[i]);
    }
  }

  lemma {:induction false} SevenFit<V>(v: V)
    ensures Fit(SevenEntries(v))
  {
    SevenNodes(v);
    var s := SevenEntries(v);
    assert forall i :: 0 <= i < 7 ==> 0 <= s.tree.nodes[i].elem < 7;
    assert forall h :: 0 <= h < 7 ==> 0 <= s.entries[h].pos < 7;
  }

  lemma {:induction false} SevenInnerOrdered<V>(v: V)
    requires Fit(SevenEntries(v))
    ensures forall i :: 0 <= i < 3 ==> NodeOrdered(SevenEntries(v), i)
  {
    var s := SevenEntries(v);
    assert NodeOrdered(s, 0);
    assert NodeOrdered(s, 1);
    assert NodeOrdered(s, 2);
  }

  /**
   * SevenEntries after remove as written of the entry with key 11: the
   * entry with key 4 sits at node 3, under the key 10 at node 1, and node 6
   * has left the tree.
   */
  function Disordered<V>(v: V): HeapState<V>
  {
    var s := SevenEntries(v);
    HeapState(Tree([Node(0, -1, 1, 2), Node(1, 0, 3, 4), Node(2, 0, 5, -1), Node(6, 1, -1, -1),
                    Node(4, 1, -1, -1), Node(5, 2, -1, -1), Node(3, 2, -1, -1)], 0, [3, 4, 5], 6),
              s.entries, 6)
  }

  /**
   * remove as written of the entry with key 11 (node 3) in SevenEntries:
   * the entry with key 4 moves from node 6 under the key 10 at node 1,
   * nothing sifts it up, and the heap returned is out of order.
   */
  lemma {:induction false} RemoveLeavesDisorder<V>(v: V)
    ensures RemoveSpec(SevenEntries(v), Entry(3)) == (Disordered(v), Returns(3))
    ensures !HeapOrdered(Disordered(v))
  {
    RemoveFromSeven(v);
    var d := Disordered(v);
    assert d.tree.nodes[1].left == 3 && KeyAt(d, 3) < KeyAt(d, 1);
    assert !NodeOrdered(d, 1);
  }

  /**
   * remove as written never tells the entry moved into the freed node
   * where it now is: after RemoveLeavesDisorder the entry with key 4 sits
   * at node 3 but still records node 6, which has left the tree.  Removing
   * that entry next then swaps at node 6 and returns the entry with key 11,
   * which the first remove handed back already.
   */
  lemma {:induction false} MovedEntryStale<V>(v: V)
    ensures Disordered(v).tree.nodes[3].elem == 6 && Disordered(v).entries[6].pos == 6
    ensures RemoveSpec(Disordered(v), Entry(6)).1 == Returns(3)
  {
    var d := Disordered(v);
    var t := d.tree.(nodes := d.tree.nodes[5 := Node(3, 2, -1, -1)][6 := Node(5, 2, -1, -1)]);
    assert Swap(d, 6, 5).tree == t;
    var t1 := Tree(t.nodes[2 := Node(2, 0, -1, -1)], 0, [2, 3, 4], 5);
    assert [2] + t.line[..2] == [2, 3, 4];
    assert Detach(t.(line := [2, 3, 4], count := 5), 5) == (t1, Ok(3));
    assert RemoveLast(t) == (t1, Ok(3));
    var s2 := HeapState(t1, d.entries[6 := d.entries[6].(pos := 3)], 5);
    assert TakeLast(d, 6, 5) == (HeapState(t1, d.entries, 5), Ok(3));
    assert DownSpec(s2, 3) == (s2, Pass);
  }

  lemma {:induction false} RemoveFromSeven<V>(v: V)
    ensures RemoveSpec(SevenEntries(v), Entry(3)) == (Disordered(v), Returns(3))
  {
    var s, s2 := SevenEntries(v), Disordered(v);
    TakeFromSeven(v);
    assert s.entries[3 := s.entries[3].(pos := s.entries[3].pos)] == s.entries;
    assert DownSpec(s2, 3) == (s2, Pass);
  }

  /** The first steps of remove(entry 3) on SevenEntries: nodes 3 and 6 trade entries, node 6 is cut off. */
  lemma {:induction false} TakeFromSeven<V>(v: V)
    ensures TakeLast(SevenEntries(v), 3, 6) == (Disordered(v), Ok(3))
  {
    var s := SevenEntries(v);
    var t := s.tree.(nodes := s.tree.nodes[3 := Node(6, 1, -1, -1)][6 := Node(3, 2, -1, -1)]);
    assert Swap(s, 3, 6).tree == t;
    CutSixth(t, Disordered(v).tree);
  }

  lemma {:induction false} CutSixth(t: Tree<int>, t1: Tree<int>)
    requires t == Tree([Node(0, -1, 1, 2), Node(1, 0, 3, 4), Node(2, 0, 5, 6), Node(6, 1, -1, -1),
                        Node(4, 1, -1, -1), Node(5, 2, -1, -1), Node(3, 2, -1, -1)], 0, [3, 4, 5, 6], 7)
    requires t1 == Tree(t.nodes[2 := Node(2, 0, 5, -1)], 0, [3, 4, 5], 6)
    ensures WellFormed(t) && RemoveLast(t) == (t1, Ok(3))
  {
    assert t.line[..3] == [3, 4, 5];
    assert Detach(t.(line := [3, 4, 5], count := 6), 6) == (t1, Ok(3));
  }

  /**
   * The intended remove of the same entry keeps heap order: it returns the
   * entry and leaves a valid heap of the other six.
   */
  lemma {:induction false} RemoveIntendedKeepsOrder<V>(v: V)
    ensures var r := RemoveEntryIntended(SevenEntries(v), Entry(3));
            r.1 == Returns(3) && Valid(r.0, [0, 1, 2, 3, 4, 5]) && HeapOrdered(r.0)
  {
    var o := [0, 1, 2, 3, 4, 5, 6];
    SevenValid(v);
    assert Held(SevenEntries(v), o)[3] == 3;
    assert DropLast(o) == [0, 1, 2, 3, 4, 5];
    RemoveIntendedKeeps(SevenEntries(v), o, 3);
  }
}
