/**
 * The removeMin history of MyHeapTest.java:63-106: the keys 11, 13, 64,
 * 16, 44 are inserted into a new heap and five calls of removeMin, as
 * written, hand them back as 11, 13, 16, 44, 64, each call leaving one
 * entry fewer.  The states in between are written out node by node.
 */
module DrainScenario {
  import opened LinkedTree
  import opened HeapModel
  import opened Entries
  import opened HeapScenarios

  /** After insert(11, v): entry 0 at the root. */
  function Built1<V>(v: V): HeapState<V>
  {
    HeapState(Tree([Node(0, -1, -1, -1)], 0, [0], 1), [EntryState(11, v, 0)], 1)
  }

  /** After insert(13, v): entry 1 the root's left child. */
  function Built2<V>(v: V): HeapState<V>
  {
    HeapState(Tree([Node(0, -1, 1, -1), Node(1, 0, -1, -1)], 0, [0, 1], 2),
              [EntryState(11, v, 0), EntryState(13, v, 1)], 2)
  }

  /** After insert(64, v): entry 2 the root's right child; the root leaves the deque. */
  function Built3<V>(v: V): HeapState<V>
  {
    HeapState(Tree([Node(0, -1, 1, 2), Node(1, 0, -1, -1), Node(2, 0, -1, -1)], 0, [1, 2], 3),
              [EntryState(11, v, 0), EntryState(13, v, 1), EntryState(64, v, 2)], 3)
  }

  /** After insert(16, v): entry 3 the left child of node 1. */
  function Built4<V>(v: V): HeapState<V>
  {
    HeapState(Tree([Node(0, -1, 1, 2), Node(1, 0, 3, -1), Node(2, 0, -1, -1), Node(3, 1, -1, -1)], 0, [1, 2, 3], 4),
              [EntryState(11, v, 0), EntryState(13, v, 1), EntryState(64, v, 2), EntryState(16, v, 3)], 4)
  }

  /** After insert(44, v): entry 4 the right child of node 1; no key was smaller than its parent's. */
  function Built5<V>(v: V): HeapState<V>
  {
    HeapState(Tree([Node(0, -1, 1, 2), Node(1, 0, 3, 4), Node(2, 0, -1, -1), Node(3, 1, -1, -1), Node(4, 1, -1, -1)],
                   0, [2, 3, 4], 5),
              [EntryState(11, v, 0), EntryState(13, v, 1), EntryState(64, v, 2), EntryState(16, v, 3), EntryState(44, v, 4)], 5)
  }

  lemma {:induction false} BuildEleven<V>(v: V)
    ensures InsertSpec(NoHeap(), Key(11), v) == (Built1(v), Returns(0))
  {
    var t := Built1(v).tree;
    assert [] + [Node(0, -1, -1, -1)] == t.nodes && [] + [0] == t.line;
    assert AddNode(Empty<int>(), 0) == (t, Ok(0));
    assert [] + [NewEntry(11, v).(pos := 0)] == Built1(v).entries;
  }

  lemma {:induction false} BuildThirteen<V>(v: V)
    ensures InsertSpec(Built1(v), Key(13), v) == (Built2(v), Returns(1))
  {
    var a, s1 := Built1(v), Built2(v);
    assert a.tree.nodes[0 := a.tree.nodes[0].(left := 1)] + [Node(1, 0, -1, -1)] == s1.tree.nodes;
    assert [0] + [1] == s1.tree.line;
    assert AddNode(a.tree, 1) == (s1.tree, Ok(1));
    assert a.entries + [NewEntry(13, v).(pos := 1)] == s1.entries;
    assert UpSpec(s1, 1, 13) == (s1, Pass);
  }

  lemma {:induction false} BuildSixtyFour<V>(v: V)
    ensures InsertSpec(Built2(v), Key(64), v) == (Built3(v), Returns(2))
  {
    var a, s1 := Built2(v), Built3(v);
    var nodes := a.tree.nodes[0 := a.tree.nodes[0].(right := 2)] + [Node(2, 0, -1, -1)];
    assert nodes == s1.tree.nodes;
    assert (a.tree.line + [2])[1..] == [1, 2];
    assert UpdatedLine(nodes, [1, 2]) == [1, 2];
    assert AddNode(a.tree, 2) == (s1.tree, Ok(2));
    assert a.entries + [NewEntry(64, v).(pos := 2)] == s1.entries;
    assert UpSpec(s1, 2, 64) == (s1, Pass);
  }

  lemma {:induction false} BuildSixteen<V>(v: V)
    ensures InsertSpec(Built3(v), Key(16), v) == (Built4(v), Returns(3))
  {
    var a, s1 := Built3(v), Built4(v);
    assert a.tree.nodes[1 := a.tree.nodes[1].(left := 3)] + [Node(3, 1, -1, -1)] == s1.tree.nodes;
    assert [1, 2] + [3] == s1.tree.line;
    assert AddNode(a.tree, 3) == (s1.tree, Ok(3));
    assert a.entries + [NewEntry(16, v).(pos := 3)] == s1.entries;
    assert UpSpec(s1, 3, 16) == (s1, Pass);
  }

  lemma {:induction false} BuildFortyFour<V>(v: V)
    ensures InsertSpec(Built4(v), Key(44), v) == (Built5(v), Returns(4))
  {
    var a, s1 := Built4(v), Built5(v);
    var nodes := a.tree.nodes[1 := a.tree.nodes[1].(right := 4)] + [Node(4, 1, -1, -1)];
    assert nodes == s1.tree.nodes;
    assert (a.tree.line + [4])[1..] == [2, 3, 4];
    assert UpdatedLine(nodes, [2, 3, 4]) == [2, 3, 4];
    assert AddNode(a.tree, 4) == (s1.tree, Ok(4));
    assert a.entries + [NewEntry(44, v).(pos := 4)] == s1.entries;
    assert UpSpec(s1, 4, 44) == (s1, Pass);
  }

  /** After the first removeMin: 44 went to the root and sank past 13 and 16. */
  function Drained1<V>(v: V): HeapState<V>
  {
    HeapState(Tree([Node(1, -1, 1, 2), Node(3, 0, 3, -1), Node(2, 0, -1, -1), Node(4, 1, -1, -1), Node(0, 1, -1, -1)],
                   0, [2, 3], 4),
              [EntryState(11, v, 0), EntryState(13, v, 0), EntryState(64, v, 2), EntryState(16, v, 1), EntryState(44, v, 3)], 4)
  }

  /** After the second: 44 went to the root and sank past 16. */
  function Drained2<V>(v: V): HeapState<V>
  {
    HeapState(Tree([Node(3, -1, 1, 2), Node(4, 0, -1, -1), Node(2, 0, -1, -1), Node(1, 1, -1, -1), Node(0, 1, -1, -1)],
                   0, [1, 2], 3),
              [EntryState(11, v, 0), EntryState(13, v, 0), EntryState(64, v, 2), EntryState(16, v, 0), EntryState(44, v, 1)], 3)
  }

  /** After the third: 64 went to the root and sank past 44. */
  function Drained3<V>(v: V): HeapState<V>
  {
    HeapState(Tree([Node(4, -1, 1, -1), Node(2, 0, -1, -1), Node(3, 0, -1, -1), Node(1, 1, -1, -1), Node(0, 1, -1, -1)],
                   0, [1], 2),
              [EntryState(11, v, 0), EntryState(13, v, 0), EntryState(64, v, 1), EntryState(16, v, 0), EntryState(44, v, 0)], 2)
  }

  /** After the fourth: 64 alone at the root. */
  function Drained4<V>(v: V): HeapState<V>
  {
    HeapState(Tree([Node(2, -1, -1, -1), Node(4, 0, -1, -1), Node(3, 0, -1, -1), Node(1, 1, -1, -1), Node(0, 1, -1, -1)],
                   0, [0], 1),
              [EntryState(11, v, 0), EntryState(13, v, 0), EntryState(64, v, 1), EntryState(16, v, 0), EntryState(44, v, 0)], 1)
  }

  /** After the fifth: the tree is reset to empty. */
  function Drained5<V>(v: V): HeapState<V>
  {
    Drained4(v).(tree := Drained4(v).tree.(root := -1, line := [], count := 0), size := 0)
  }

  /** The first removeMin takes the last node, 4, and moves entry 4 to the root. */
  lemma {:induction false} TakeFirst<V>(v: V)
    ensures TakeLast(Built5(v), 0, 4) == (Taken1(v), Ok(0))
  {
    var s := Built5(v);
    var t := Tree([Node(4, -1, 1, 2), Node(1, 0, 3, 4), Node(2, 0, -1, -1), Node(3, 1, -1, -1), Node(0, 1, -1, -1)],
                  0, [2, 3, 4], 5);
    assert Swap(s, 0, 4).tree == t;
    var t1 := Taken1(v).tree;
    assert t.line[..2] == [2, 3];
    assert t.nodes[1 := t.nodes[1].(right := -1)] == t1.nodes;
    assert Detach(t.(line := [2, 3], count := 4), 4) == (t1, Ok(0));
    assert RemoveLast(t) == (t1, Ok(0));
  }

  /** The state right after the first removal, before 44 sinks. */
  function Taken1<V>(v: V): HeapState<V>
  {
    HeapState(Tree([Node(4, -1, 1, 2), Node(1, 0, 3, -1), Node(2, 0, -1, -1), Node(3, 1, -1, -1), Node(0, 1, -1, -1)],
                   0, [2, 3], 4), Built5(v).entries, 4)
  }

  /** Halfway through the first sinking: 44 has traded places with 13. */
  function Sinking1<V>(v: V): HeapState<V>
  {
    HeapState(Tree([Node(1, -1, 1, 2), Node(4, 0, 3, -1), Node(2, 0, -1, -1), Node(3, 1, -1, -1), Node(0, 1, -1, -1)],
                   0, [2, 3], 4),
              [EntryState(11, v, 0), EntryState(13, v, 0), EntryState(64, v, 2), EntryState(16, v, 3), EntryState(44, v, 1)], 4)
  }

  /** From node 1, entry 4 (key 44) sinks past its only child, 16, and stops at a leaf. */
  lemma {:induction false} SinkFirstLower<V>(v: V)
    ensures DownSpec(Sinking1(v), 1) == (Drained1(v), Pass) && Retest(Drained1(v), 1) == (Drained1(v), Pass)
  {
    assert Exchange(Sinking1(v), 3, 1) == Drained1(v);
    assert DownSpec(Drained1(v), 3) == (Drained1(v), Pass);
    assert DownOne(Sinking1(v), 1) == (Drained1(v), Pass);
    assert Retest(Drained1(v), 1) == (Drained1(v), Pass);
  }

  /** 44 at the root trades places with 13, the smaller of its children. */
  lemma {:induction false} SinkFirstSwap<V>(v: V)
    ensures Exchange(Taken1(v), 1, 0) == Sinking1(v)
  {
  }

  /** Entry 4 (key 44) sinks from the root past 13 and then past 16. */
  lemma {:induction false} SinkFirst<V>(v: V)
    ensures DownSpec(Taken1(v), 0) == (Drained1(v), Pass)
  {
    var d := Taken1(v);
    assert KeyAt(d, 1) == 13 && KeyAt(d, 2) == 64 && KeyAt(d, 0) == 44;
    SinkFirstSwap(v);
    SinkFirstLower(v);
    assert DownTwo(d, 0) == (Drained1(v), Pass);
  }

  lemma {:induction false} DrainFirst<V>(v: V)
    ensures RemoveMinSpec(Built5(v)) == (Drained1(v), Returns(0))
    ensures Built5(v).entries[0].key == 11
  {
    TakeFirst(v);
    SinkFirst(v);
  }

  /** The state right after the second removal, before 44 sinks. */
  function Taken2<V>(v: V): HeapState<V>
  {
    HeapState(Tree([Node(4, -1, 1, 2), Node(3, 0, -1, -1), Node(2, 0, -1, -1), Node(1, 1, -1, -1), Node(0, 1, -1, -1)],
                   0, [1, 2], 3), Drained1(v).entries, 3)
  }

  /** The second removeMin takes the last node, 3, whose parent 1 goes back to the front of the deque. */
  lemma {:induction false} TakeSecond<V>(v: V)
    ensures TakeLast(Drained1(v), 0, 3) == (Taken2(v), Ok(1))
  {
    var t := Tree([Node(4, -1, 1, 2), Node(3, 0, 3, -1), Node(2, 0, -1, -1), Node(1, 1, -1, -1), Node(0, 1, -1, -1)],
                  0, [2, 3], 4);
    assert Swap(Drained1(v), 0, 3).tree == t;
    var t1 := Taken2(v).tree;
    assert [1] + t.line[..1] == [1, 2];
    assert t.nodes[1 := t.nodes[1].(left := -1)] == t1.nodes;
    assert Detach(t.(line := [1, 2], count := 3), 3) == (t1, Ok(1));
    assert RemoveLast(t) == (t1, Ok(1));
  }

  /** Entry 4 (key 44) sinks from the root past 16 and stops at a leaf. */
  lemma {:induction false} SinkSecond<V>(v: V)
    ensures DownSpec(Taken2(v), 0) == (Drained2(v), Pass)
  {
    assert Exchange(Taken2(v), 1, 0) == Drained2(v);
    assert DownSpec(Drained2(v), 1) == (Drained2(v), Pass);
    assert Retest(Drained2(v), 1) == (Drained2(v), Pass);
    assert DownTwo(Taken2(v), 0) == (Drained2(v), Pass);
  }

  lemma {:induction false} DrainSecond<V>(v: V)
    ensures RemoveMinSpec(Drained1(v)) == (Drained2(v), Returns(1))
    ensures Drained1(v).entries[1].key == 13
  {
    TakeSecond(v);
    SinkSecond(v);
  }

  /** The state right after the third removal, before 64 sinks. */
  function Taken3<V>(v: V): HeapState<V>
  {
    HeapState(Tree([Node(2, -1, 1, -1), Node(4, 0, -1, -1), Node(3, 0, -1, -1), Node(1, 1, -1, -1), Node(0, 1, -1, -1)],
                   0, [1], 2), Drained2(v).entries, 2)
  }

  /** The third removeMin takes the last node, 2, the root's right child. */
  lemma {:induction false} TakeThird<V>(v: V)
    ensures TakeLast(Drained2(v), 0, 2) == (Taken3(v), Ok(3))
  {
    var t := Tree([Node(2, -1, 1, 2), Node(4, 0, -1, -1), Node(3, 0, -1, -1), Node(1, 1, -1, -1), Node(0, 1, -1, -1)],
                  0, [1, 2], 3);
    assert Swap(Drained2(v), 0, 2).tree == t;
    var t1 := Taken3(v).tree;
    assert t.line[..1] == [1];
    assert t.nodes[0 := t.nodes[0].(right := -1)] == t1.nodes;
    assert Detach(t.(line := [1], count := 2), 2) == (t1, Ok(3));
    assert RemoveLast(t) == (t1, Ok(3));
  }

  /** Entry 2 (key 64) sinks from the root past its only child, 44. */
  lemma {:induction false} SinkThird<V>(v: V)
    ensures DownSpec(Taken3(v), 0) == (Drained3(v), Pass)
  {
    assert Exchange(Taken3(v), 1, 0) == Drained3(v);
    assert DownSpec(Drained3(v), 1) == (Drained3(v), Pass);
    assert DownOne(Taken3(v), 0) == (Drained3(v), Pass);
  }

  lemma {:induction false} DrainThird<V>(v: V)
    ensures RemoveMinSpec(Drained2(v)) == (Drained3(v), Returns(3))
    ensures Drained2(v).entries[3].key == 16
  {
    TakeThird(v);
    SinkThird(v);
  }

  /** The fourth removeMin takes the last node, 1; one node is left and nothing sinks. */
  lemma {:induction false} DrainFourth<V>(v: V)
    ensures RemoveMinSpec(Drained3(v)) == (Drained4(v), Returns(4))
    ensures Drained3(v).entries[4].key == 44
  {
    TakeFourth(v);
  }

  lemma {:induction false} TakeFourth<V>(v: V)
    ensures TakeLast(Drained3(v), 0, 1) == (Drained4(v), Ok(4))
  {
    var t := Tree([Node(2, -1, 1, -1), Node(4, 0, -1, -1), Node(3, 0, -1, -1), Node(1, 1, -1, -1), Node(0, 1, -1, -1)],
                  0, [1], 2);
    assert Swap(Drained3(v), 0, 1).tree == t;
    assert [0] + t.line[..0] == [0];
    assert t.nodes[0 := t.nodes[0].(left := -1)] == Drained4(v).tree.nodes;
    assert Detach(t.(line := [0], count := 1), 1) == (Drained4(v).tree, Ok(4));
    assert RemoveLast(t) == (Drained4(v).tree, Ok(4));
  }

  /** The fifth removeMin detaches the root itself and resets the tree. */
  lemma {:induction false} DrainFifth<V>(v: V)
    ensures RemoveMinSpec(Drained4(v)) == (Drained5(v), Returns(2))
    ensures Drained4(v).entries[2].key == 64
  {
    TakeFifth(v);
  }

  lemma {:induction false} TakeFifth<V>(v: V)
    ensures TakeLast(Drained4(v), 0, 0) == (Drained5(v), Ok(2))
  {
    var s := Drained4(v);
    assert Swap(s, 0, 0) == s;
    assert Detach(s.tree, 0) == (s.tree.(root := -1), Ok(2));
    assert RemoveLast(s.tree) == (Drained5(v).tree, Ok(2));
  }

  /** Inserting 11, 13, 64, 16, 44 into a new heap builds Built5. */
  lemma {:induction false} InsertsBuild<V>(v: V)
    ensures InsertSpec(InsertSpec(InsertSpec(InsertSpec(InsertSpec(
              NoHeap(), Key(11), v).0, Key(13), v).0, Key(64), v).0, Key(16), v).0, Key(44), v).0 == Built5(v)
  {
    BuildEleven(v);
    BuildThirteen(v);
    BuildSixtyFour(v);
    BuildSixteen(v);
    BuildFortyFour(v);
  }
}
