/**
 * MyHeap as functions on its state: the tree of MyLinkedHeapTree whose
 * payloads are entries, the counter `node_num`, and the entries the heap
 * has handed out.  An entry is named by a handle, its index in `entries`;
 * a tree node holds the handle of its entry, and the entry's `pos` names
 * the node back.  Each function follows one method of MyHeap.java branch
 * by branch, and returns the state reached when the method returns or
 * throws.
 */
module HeapModel {
  import opened LinkedTree
  import opened Entries

  /** A key argument: an integer, null, or a value the comparator cannot compare. */
  datatype KeyArg = Key(k: int) | NullKey | Incomparable

  /** An entry argument: null, an Entry that is not a MyHeapEntry, or one of this heap's entries. */
  datatype EntryArg = NullEntry | OtherEntry | Entry(handle: int)

  datatype HeapError =
    | EmptyPriorityQueue       // EmptyPriorityQueueException
    | InvalidKey               // InvalidKeyException
    | InvalidEntry             // InvalidEntryException
    | NullKeyCompare           // NullPointerException out of the comparator
    | IllegalArgument          // IllegalArgumentException
    | IllegalState             // IllegalStateException
    | TreeFault(fault: TreeError)  // an exception of the tree library

  /** What a method of MyHeap does: return a value or throw. */
  datatype Reply<T> = Returns(value: T) | Throws(error: HeapError)

  /** The fields of MyHeap (`_tree`, `node_num`) and the entries it made. */
  datatype HeapState<V> = HeapState(tree: Tree<int>, entries: seq<EntryState<V>>, size: int)

  /**
   * The tree is well formed, every node holds the handle of an entry, and
   * every entry's position is a node of the arena (the heap sets it when
   * it inserts the entry and only ever moves it to another node).
   */
  ghost predicate Fit<V>(s: HeapState<V>)
  {
    && WellFormed(s.tree)
    && (forall i :: 0 <= i < |s.tree.nodes| ==> 0 <= s.tree.nodes[i].elem < |s.entries|)
    && (forall h :: 0 <= h < |s.entries| ==> 0 <= s.entries[h].pos < |s.tree.nodes|)
  }

  /** The key of the entry held by node i. */
  function KeyAt<V>(s: HeapState<V>, i: int): int
    requires Fit(s) && 0 <= i < |s.tree.nodes|
  {
    s.entries[s.tree.nodes[i].elem].key
  }

  /** The entry held by node i knows that it is there. */
  ghost predicate PosAt<V>(s: HeapState<V>, i: int)
    requires Fit(s) && 0 <= i < |s.tree.nodes|
  {
    s.entries[s.tree.nodes[i].elem].pos == i
  }

  /**
   * r differs from s only in where entries sit and what they record as
   * their position: same links, same deque and counters, same keys and
   * values, and the same handles in the nodes, permuted.
   */
  ghost predicate Rearranged<V>(s: HeapState<V>, r: HeapState<V>)
  {
    && Links(r.tree.nodes) == Links(s.tree.nodes)
    && r.tree.root == s.tree.root && r.tree.line == s.tree.line && r.tree.count == s.tree.count
    && r.size == s.size
    && |r.entries| == |s.entries|
    && (forall h :: 0 <= h < |s.entries| ==>
          r.entries[h].key == s.entries[h].key && r.entries[h].value == s.entries[h].value)
    && multiset(Payloads(r.tree.nodes)) == multiset(Payloads(s.tree.nodes))
  }

  /** swap(a, b) of the tree: the payloads of a and b trade places, nothing else changes. */
  function Swap<V>(s: HeapState<V>, a: int, b: int): (r: HeapState<V>)
    requires Fit(s) && 0 <= a < |s.tree.nodes| && 0 <= b < |s.tree.nodes|
    ensures Fit(r) && Rearranged(s, r) && r.entries == s.entries
    ensures r.tree.nodes[a].elem == s.tree.nodes[b].elem && r.tree.nodes[b].elem == s.tree.nodes[a].elem
    ensures forall i :: 0 <= i < |s.tree.nodes| && i != a && i != b ==> r.tree.nodes[i] == s.tree.nodes[i]
  {
    var nodes := SwapElements(s.tree.nodes, a, b);
    SameLinksOK(nodes, s.tree.nodes);
    assert Payloads(nodes) == Payloads(s.tree.nodes)[a := s.tree.nodes[b].elem][b := s.tree.nodes[a].elem];
    s.(tree := s.tree.(nodes := nodes))
  }

  /**
   * One step of upHeap or downHeap: the entry at a is told it moves to b,
   * the entry at b that it moves to a (MyHeap.java:269-270, 321-322), and
   * the tree swaps the two payloads.
   */
  function Exchange<V>(s: HeapState<V>, a: int, b: int): (r: HeapState<V>)
    requires Fit(s) && 0 <= a < |s.tree.nodes| && 0 <= b < |s.tree.nodes|
    ensures Fit(r) && Rearranged(s, r)
    ensures r.tree.nodes[a].elem == s.tree.nodes[b].elem && r.tree.nodes[b].elem == s.tree.nodes[a].elem
    ensures forall i :: 0 <= i < |s.tree.nodes| && i != a && i != b ==> r.tree.nodes[i] == s.tree.nodes[i]
    ensures KeyAt(r, a) == KeyAt(s, b) && KeyAt(r, b) == KeyAt(s, a)
    ensures forall i :: 0 <= i < |s.tree.nodes| && i != a && i != b ==> KeyAt(r, i) == KeyAt(s, i)
    ensures a == b || s.tree.nodes[a].elem != s.tree.nodes[b].elem ==> PosAt(r, a) && PosAt(r, b)
    ensures forall h :: 0 <= h < |s.entries| && h != s.tree.nodes[a].elem && h != s.tree.nodes[b].elem ==>
              r.entries[h] == s.entries[h]
  {
    var ha, hb := s.tree.nodes[a].elem, s.tree.nodes[b].elem;
    var es := s.entries[ha := s.entries[ha].(pos := b)];
    Swap(s.(entries := es[hb := es[hb].(pos := a)]), a, b)
  }

  /**
   * upHeap(pos, key), MyHeap.java:316-328: while pos is not the root and key
   * is smaller than the key at pos's parent, exchange the two.  root()
   * throws on an empty tree, parent() on a node without parent.
   */
  function UpSpec<V>(s: HeapState<V>, p: int, key: int): (r: (HeapState<V>, Outcome))
    requires Fit(s) && 0 <= p < |s.tree.nodes|
    ensures Fit(r.0) && Rearranged(s, r.0)
    decreases p
  {
    if s.tree.root == -1 then (s, Fail(EmptyTree))
    else if p == s.tree.root then (s, Pass)
    else
      var g := s.tree.nodes[p].parent;
      assert LinksOK(s.tree.nodes, p);
      if g == -1 then (s, Fail(NoParent))
      else if key < KeyAt(s, g) then UpSpec(Exchange(s, p, g), g, key)
      else (s, Pass)
  }

  /**
   * downHeap(pos), MyHeap.java:260-314, as written.  A leaf stays; a node
   * with two children goes to DownTwo, one with a single child to DownOne.
   */
  function DownSpec<V>(s: HeapState<V>, p: int): (r: (HeapState<V>, Outcome))
    requires Fit(s) && 0 <= p < |s.tree.nodes|
    ensures Fit(r.0) && Rearranged(s, r.0)
    decreases |s.tree.nodes| - p, 2
  {
    var n := s.tree.nodes[p];
    if n.left == -1 && n.right == -1 then (s, Pass)
    else if n.left != -1 && n.right != -1 then DownTwo(s, p)
    else DownOne(s, p)
  }

  /**
   * The two-children case, MyHeap.java:265-288: exchange with the left
   * child if it is no larger than the right one and smaller than pos, go
   * on down from there, and then run the right-child test of Retest at the
   * node reached (pos itself or its left child).
   */
  function DownTwo<V>(s: HeapState<V>, p: int): (r: (HeapState<V>, Outcome))
    requires Fit(s) && 0 <= p < |s.tree.nodes|
    requires s.tree.nodes[p].left != -1 && s.tree.nodes[p].right != -1
    ensures Fit(r.0) && Rearranged(s, r.0)
    decreases |s.tree.nodes| - p, 1
  {
    var n := s.tree.nodes[p];
    assert LinksOK(s.tree.nodes, p);
    if KeyAt(s, n.left) <= KeyAt(s, n.right) && KeyAt(s, n.left) < KeyAt(s, p) then
      var d := DownSpec(Exchange(s, n.left, p), n.left);
      if d.1.Fail? then d else Retest(d.0, n.left)
    else Retest(s, p)
  }

  /**
   * The one-child cases, MyHeap.java:289-310 (they differ only in which
   * child there is): exchange with the child if it is smaller and go on
   * down from there.
   */
  function DownOne<V>(s: HeapState<V>, p: int): (r: (HeapState<V>, Outcome))
    requires Fit(s) && 0 <= p < |s.tree.nodes|
    requires (s.tree.nodes[p].left == -1) != (s.tree.nodes[p].right == -1)
    ensures Fit(r.0) && Rearranged(s, r.0)
    decreases |s.tree.nodes| - p, 1
  {
    var n := s.tree.nodes[p];
    assert LinksOK(s.tree.nodes, p);
    var c := if n.left != -1 then n.left else n.right;
    if KeyAt(s, c) < KeyAt(s, p) then DownSpec(Exchange(s, c, p), c) else (s, Pass)
  }

  /**
   * The second test of downHeap's two-children case, MyHeap.java:277-287:
   * if p has a right child no larger than its left child and smaller than
   * p, exchange with it and go on down from there.  left() throws when
   * there is a right child but no left one.
   */
  function Retest<V>(s: HeapState<V>, p: int): (r: (HeapState<V>, Outcome))
    requires Fit(s) && 0 <= p < |s.tree.nodes|
    ensures Fit(r.0) && Rearranged(s, r.0)
    decreases |s.tree.nodes| - p, 0
  {
    var m := s.tree.nodes[p];
    assert LinksOK(s.tree.nodes, p);
    if m.right == -1 then (s, Pass)
    else if m.left == -1 then (s, Fail(NoSuchChild))
    else if KeyAt(s, m.right) <= KeyAt(s, m.left) && KeyAt(s, m.right) < KeyAt(s, p) then
      DownSpec(Exchange(s, m.right, p), m.right)
    else (s, Pass)
  }

  /** The reply of a method whose last step was an upHeap or a downHeap. */
  function After<T>(o: Outcome, x: T): (r: Reply<T>)
    ensures r.Returns? <==> o.Pass?
    ensures r.Returns? ==> r.value == x
    ensures o.Fail? ==> r == Throws(TreeFault(o.error))
  {
    if o.Fail? then Throws(TreeFault(o.error)) else Returns(x)
  }

  /**
   * insert(key, value), MyHeap.java:121-136.  A null or incomparable key is
   * refused; otherwise the new entry (its handle is the next index of the
   * entry table) is added as the tree's new last node, told its position,
   * counted, and sifted up when the tree has more than one node.
   */
  function InsertSpec<V>(s: HeapState<V>, key: KeyArg, v: V): (r: (HeapState<V>, Reply<int>))
    requires Fit(s)
    ensures Fit(r.0)
    ensures !key.Key? ==> r == (s, Throws(InvalidKey))
    ensures r.1.Returns? ==> r.1.value == |s.entries| && |r.0.entries| == |s.entries| + 1
                             && r.0.entries[|s.entries|].key == key.k && r.0.entries[|s.entries|].value == v
                             && r.0.size == s.size + 1
  {
    if !key.Key? then (s, Throws(InvalidKey))
    else
      var h := |s.entries|;
      var a := AddNode(s.tree, h);
      if a.1.Err? then (s, Throws(TreeFault(a.1.error)))
      else
        var p := a.1.value;
        var s1 := HeapState(a.0, s.entries + [NewEntry(key.k, v).(pos := p)], s.size + 1);
        assert forall i :: 0 <= i < |a.0.nodes| ==> a.0.nodes[i].elem == Payloads(a.0.nodes)[i];
        if a.0.count > 1 then
          var u := UpSpec(s1, p, key.k);
          (u.0, After(u.1, h))
        else (s1, Returns(h))
  }

  /** The tree with root and last node swapped, the last node removed and the counter decremented. */
  function TakeLast<V>(s: HeapState<V>, a: int, b: int): (r: (HeapState<V>, Result<int>))
    requires Fit(s) && 0 <= a < |s.tree.nodes| && 0 <= b < |s.tree.nodes|
    ensures Fit(r.0) && r.0.entries == s.entries && |r.0.tree.nodes| == |s.tree.nodes|
    ensures r.1.Ok? ==> r.0.size == s.size - 1 && r.0.tree.count == s.tree.count - 1
    ensures r.1.Err? ==> r.0.size == s.size
    ensures r.1.Ok? ==> 0 <= r.1.value < |s.entries|
  {
    var s1 := Swap(s, a, b);
    var d := RemoveLast(s1.tree);
    assert forall i :: 0 <= i < |d.0.nodes| ==> d.0.nodes[i].elem == s1.tree.nodes[i].elem;
    assert forall x :: x in Payloads(s1.tree.nodes) ==> 0 <= x < |s.entries|;
    (HeapState(d.0, s.entries, if d.1.Ok? then s.size - 1 else s.size), d.1)
  }

  /**
   * removeMin(), MyHeap.java:145-161, as written.  The root and the back
   * of the deque trade entries and the tree removes its last node; the
   * entry moved to the root is not told its new position.  Then, unless
   * the heap is now empty, the root is sifted down when more than one
   * node is left.
   */
  function RemoveMinSpec<V>(s: HeapState<V>): (r: (HeapState<V>, Reply<int>))
    requires Fit(s)
    ensures Fit(r.0) && |r.0.entries| == |s.entries|
    ensures s.tree.count == 0 <==> r == (s, Throws(EmptyPriorityQueue))
  {
    if s.tree.count == 0 then (s, Throws(EmptyPriorityQueue))
    else if s.tree.line == [] then (s, Throws(TreeFault(EmptyDeque)))
    else
      var d := TakeLast(s, s.tree.root, s.tree.line[|s.tree.line| - 1]);
      if d.1.Err? then (d.0, Throws(TreeFault(d.1.error)))
      else if d.0.size == 0 then (d.0, Returns(d.1.value))
      else if d.0.tree.root == -1 then (d.0, Throws(TreeFault(EmptyTree)))
      else if d.0.tree.count > 1 then
        var dd := DownSpec(d.0, d.0.tree.root);
        (dd.0, After(dd.1, d.1.value))
      else (d.0, Returns(d.1.value))
  }

  /**
   * remove(entry), MyHeap.java:171-186, as written.  The entry's node and
   * the back of the deque trade entries and the tree removes its last
   * node; the entry takes over the position of the entry removed, and that
   * position is sifted down when more than one node is left.  The entry
   * moved into the freed node is not told its new position, and nothing is
   * sifted up.
   */
  function RemoveSpec<V>(s: HeapState<V>, e: EntryArg): (r: (HeapState<V>, Reply<int>))
    requires Fit(s) && (e.Entry? ==> 0 <= e.handle < |s.entries|)
    ensures Fit(r.0) && |r.0.entries| == |s.entries|
    ensures !e.Entry? ==> r == (s, Throws(InvalidEntry))
    ensures e.Entry? && s.tree.count == 0 ==> r == (s, Throws(EmptyPriorityQueue))
  {
    if !e.Entry? then (s, Throws(InvalidEntry))
    else if s.tree.count == 0 then (s, Throws(EmptyPriorityQueue))
    else if s.tree.line == [] then (s, Throws(TreeFault(EmptyDeque)))
    else
      var h := e.handle;
      var d := TakeLast(s, s.entries[h].pos, s.tree.line[|s.tree.line| - 1]);
      if d.1.Err? then (d.0, Throws(TreeFault(d.1.error)))
      else
        var save := d.1.value;
        var s2 := d.0.(entries := s.entries[h := s.entries[h].(pos := s.entries[save].pos)]);
        if s2.tree.count > 1 then
          var dd := DownSpec(s2, s2.entries[h].pos);
          (dd.0, After(dd.1, save))
        else (s2, Returns(save))
  }

  /**
   * What removeMin and remove evidently mean to do when they give up the
   * last node: the two entries trade places and are both told where they
   * now are, and the tree removes its last node with the deque kept right
   * (RemoveIntended).
   */
  function TakeLastIntended<V>(s: HeapState<V>, a: int, b: int): (r: (HeapState<V>, Result<int>))
    requires Fit(s) && 0 <= a < |s.tree.nodes| && 0 <= b < |s.tree.nodes|
    ensures Fit(r.0) && |r.0.entries| == |s.entries| && |r.0.tree.nodes| == |s.tree.nodes|
    ensures r.1.Ok? ==> r.0.size == s.size - 1 && r.0.tree.count == s.tree.count - 1
    ensures r.1.Err? ==> r.0.size == s.size
    ensures r.1.Ok? ==> 0 <= r.1.value < |s.entries|
  {
    var s1 := Exchange(s, a, b);
    var d := RemoveIntended(s1.tree);
    assert forall i :: 0 <= i < |d.0.nodes| ==> d.0.nodes[i].elem == s1.tree.nodes[i].elem;
    assert forall x :: x in Payloads(s1.tree.nodes) ==> 0 <= x < |s.entries|;
    (HeapState(d.0, s1.entries, if d.1.Ok? then s.size - 1 else s.size), d.1)
  }

  /**
   * removeMin() as evidently intended: the entry moved to the root is told
   * its position, and the tree keeps its deque right.
   */
  function RemoveMinIntended<V>(s: HeapState<V>): (r: (HeapState<V>, Reply<int>))
    requires Fit(s)
    ensures Fit(r.0) && |r.0.entries| == |s.entries|
    ensures s.tree.count == 0 <==> r == (s, Throws(EmptyPriorityQueue))
  {
    if s.tree.count == 0 then (s, Throws(EmptyPriorityQueue))
    else if s.tree.line == [] then (s, Throws(TreeFault(EmptyDeque)))
    else
      var d := TakeLastIntended(s, s.tree.root, s.tree.line[|s.tree.line| - 1]);
      if d.1.Err? then (d.0, Throws(TreeFault(d.1.error)))
      else if d.0.tree.count > 1 then
        var dd := DownSpec(d.0, d.0.tree.root);
        (dd.0, After(dd.1, d.1.value))
      else (d.0, Returns(d.1.value))
  }

  /**
   * remove(entry) as evidently intended: the entry moved into the freed
   * node is told its position, and it is sifted up when its key is smaller
   * than its new parent's, down otherwise.  Nothing is sifted when the
   * node freed was the last one.
   */
  function RemoveEntryIntended<V>(s: HeapState<V>, e: EntryArg): (r: (HeapState<V>, Reply<int>))
    requires Fit(s) && (e.Entry? ==> 0 <= e.handle < |s.entries|)
    ensures Fit(r.0) && |r.0.entries| == |s.entries|
    ensures !e.Entry? ==> r == (s, Throws(InvalidEntry))
    ensures e.Entry? && s.tree.count == 0 ==> r == (s, Throws(EmptyPriorityQueue))
  {
    if !e.Entry? then (s, Throws(InvalidEntry))
    else if s.tree.count == 0 then (s, Throws(EmptyPriorityQueue))
    else if s.tree.line == [] then (s, Throws(TreeFault(EmptyDeque)))
    else
      var p, back := s.entries[e.handle].pos, s.tree.line[|s.tree.line| - 1];
      var d := TakeLastIntended(s, p, back);
      if d.1.Err? then (d.0, Throws(TreeFault(d.1.error)))
      else if p == back then (d.0, Returns(d.1.value))
      else
        var g := d.0.tree.nodes[p].parent;
        assert LinksOK(d.0.tree.nodes, p);
        if g != -1 && KeyAt(d.0, p) < KeyAt(d.0, g) then
          var u := UpSpec(d.0, p, KeyAt(d.0, p));
          (u.0, After(u.1, d.1.value))
        else
          var dd := DownSpec(d.0, p);
          (dd.0, After(dd.1, d.1.value))
  }

  /**
   * replaceKey(entry, key), MyHeap.java:198-221.  An incomparable key is
   * refused; a null key makes the comparator throw, which is not caught
   * here.  The entry's key is set; a larger key is sifted down from the
   * entry's position, a smaller one up, and the old key is returned.
   */
  function ReplaceKeySpec<V>(s: HeapState<V>, e: EntryArg, key: KeyArg): (r: (HeapState<V>, Reply<int>))
    requires Fit(s) && (e.Entry? ==> 0 <= e.handle < |s.entries|)
    ensures Fit(r.0) && |r.0.entries| == |s.entries|
    ensures key.Incomparable? ==> r == (s, Throws(InvalidKey))
    ensures key.NullKey? ==> r == (s, Throws(NullKeyCompare))
    ensures key.Key? && !e.Entry? ==> r == (s, Throws(InvalidEntry))
    ensures key.Key? && e.Entry? ==>
              r.0.entries[e.handle].key == key.k && (r.1.Returns? ==> r.1.value == s.entries[e.handle].key)
  {
    if key.Incomparable? then (s, Throws(InvalidKey))
    else if key.NullKey? then (s, Throws(NullKeyCompare))
    else if !e.Entry? then (s, Throws(InvalidEntry))
    else
      var h, k := e.handle, key.k;
      var was := s.entries[h].key;
      var s1 := s.(entries := s.entries[h := s.entries[h].(key := k)]);
      if k == was then (s1, Returns(was))
      else if k > was then
        var dd := DownSpec(s1, s1.entries[h].pos);
        (dd.0, After(dd.1, was))
      else
        var u := UpSpec(s1, s1.entries[h].pos, k);
        (u.0, After(u.1, was))
  }

  /** replaceValue(entry, value), MyHeap.java:232-240: the entry's value is set and the old one returned. */
  function ReplaceValueSpec<V>(s: HeapState<V>, e: EntryArg, v: V): (r: (HeapState<V>, Reply<V>))
    requires Fit(s) && (e.Entry? ==> 0 <= e.handle < |s.entries|)
    ensures Fit(r.0)
    ensures !e.Entry? ==> r == (s, Throws(InvalidEntry))
    ensures e.Entry? ==> r.1 == Returns(s.entries[e.handle].value)
                         && r.0 == s.(entries := s.entries[e.handle := s.entries[e.handle].(value := v)])
  {
    if !e.Entry? then (s, Throws(InvalidEntry))
    else
      var h := e.handle;
      (s.(entries := s.entries[h := s.entries[h].(value := v)]), Returns(s.entries[h].value))
  }

  /** min(), MyHeap.java:105-110: the entry at the root. */
  function MinSpec<V>(s: HeapState<V>): (r: Reply<int>)
    requires Fit(s)
    ensures s.tree.count == 0 <==> r == Throws(EmptyPriorityQueue)
    ensures r.Returns? ==> 0 <= r.value < |s.entries|
  {
    if s.tree.count == 0 then Throws(EmptyPriorityQueue)
    else Returns(s.tree.nodes[s.tree.root].elem)
  }

  /**
   * setComparator(comparator), MyHeap.java:48-58: a null comparator is
   * refused, a non-empty heap keeps its comparator, and an empty one takes
   * the new comparator and then throws all the same.
   */
  function SetComparatorSpec<V>(s: HeapState<V>, isNull: bool): (r: Reply<()>)
    ensures r.Throws?
    ensures r.error == IllegalArgument <==> isNull
  {
    if isNull then Throws(IllegalArgument) else Throws(IllegalState)
  }
}
