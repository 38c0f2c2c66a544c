/**
 * MyHeap as the source writes it: an object holding a MyLinkedHeapTree
 * (`_tree`), the counter `node_num` (`size`) and, here, the table of the
 * entries it has handed out.  Every method is proved to reach the state
 * and reply of the function of HeapModel that describes it; what those
 * functions keep and return is proved in HeapProps.
 */
module AdaptableHeap {
  import opened LinkedTree
  import opened Entries
  import opened HeapModel

  /** Swapping two payloads does not depend on the order the two nodes are named in. */
  lemma SwapElementsSymmetric<E>(nodes: seq<Node<E>>, a: int, b: int)
    requires 0 <= a < |nodes| && 0 <= b < |nodes|
    ensures SwapElements(nodes, a, b) == SwapElements(nodes, b, a)
  {
    var x, y := SwapElements(nodes, a, b), SwapElements(nodes, b, a);
    assert forall i :: 0 <= i < |nodes| ==> x[i] == y[i];
  }

  /** What insert does once the tree has taken the new node at p (MyHeap.java:131-135). */
  function Climbed<V>(s1: HeapState<V>, p: int, key: int, h: int): (HeapState<V>, Reply<int>)
    requires Fit(s1) && 0 <= p < |s1.tree.nodes|
  {
    if s1.tree.count > 1 then
      var u := UpSpec(s1, p, key);
      (u.0, After(u.1, h))
    else (s1, Returns(h))
  }

  /** insert(key, v) with a valid key, split at the tree's add. */
  lemma InsertSpecUnfold<V>(s: HeapState<V>, key: int, v: V, a: (Tree<int>, Result<int>))
    requires Fit(s) && a == AddNode(s.tree, |s.entries|)
    ensures a.1.Err? ==> InsertSpec(s, Key(key), v) == (s, Throws(TreeFault(a.1.error)))
    ensures a.1.Ok? ==> 0 <= a.1.value < |a.0.nodes|
    ensures a.1.Ok? ==> Fit(HeapState(a.0, s.entries + [NewEntry(key, v).(pos := a.1.value)], s.size + 1))
    ensures a.1.Ok? ==>
              InsertSpec(s, Key(key), v) ==
              Climbed(HeapState(a.0, s.entries + [NewEntry(key, v).(pos := a.1.value)], s.size + 1), a.1.value, key, |s.entries|)
  {
    assert forall i :: 0 <= i < |a.0.nodes| ==> a.0.nodes[i].elem == Payloads(a.0.nodes)[i];
  }

  /** What removeMin does once the tree has given up its last node (MyHeap.java:151-160). */
  function RemoveMinRest<V>(d: (HeapState<V>, Result<int>)): (HeapState<V>, Reply<int>)
    requires Fit(d.0)
  {
    if d.1.Err? then (d.0, Throws(TreeFault(d.1.error)))
    else if d.0.size == 0 then (d.0, Returns(d.1.value))
    else if d.0.tree.root == -1 then (d.0, Throws(TreeFault(EmptyTree)))
    else if d.0.tree.count > 1 then
      var dd := DownSpec(d.0, d.0.tree.root);
      (dd.0, After(dd.1, d.1.value))
    else (d.0, Returns(d.1.value))
  }

  /** What remove(entry h) does once the tree has given up its last node (MyHeap.java:178-185). */
  function RemoveRest<V>(s: HeapState<V>, h: int, d: (HeapState<V>, Result<int>)): (HeapState<V>, Reply<int>)
    requires Fit(d.0) && d.0.entries == s.entries && 0 <= h < |s.entries|
    requires d.1.Ok? ==> 0 <= d.1.value < |s.entries|
  {
    if d.1.Err? then (d.0, Throws(TreeFault(d.1.error)))
    else
      var save := d.1.value;
      Settled(d.0.(entries := s.entries[h := s.entries[h].(pos := s.entries[save].pos)]), h, save)
  }

  /** The end of remove (MyHeap.java:181-185): downHeap from the entry's recorded position. */
  function Settled<V>(s2: HeapState<V>, h: int, save: int): (HeapState<V>, Reply<int>)
    requires Fit(s2) && 0 <= h < |s2.entries|
  {
    if s2.tree.count > 1 then
      var dd := DownSpec(s2, s2.entries[h].pos);
      (dd.0, After(dd.1, save))
    else (s2, Returns(save))
  }

  /** remove(entry) on a non-empty heap whose deque has a back, split at the tree's remove. */
  lemma RemoveSpecUnfold<V>(s: HeapState<V>, h: int)
    requires Fit(s) && 0 <= h < |s.entries| && s.tree.count != 0 && s.tree.line != []
    ensures RemoveSpec(s, Entry(h)) == RemoveRest(s, h, TakeLast(s, s.entries[h].pos, s.tree.line[|s.tree.line| - 1]))
  {
  }

  class Heap<V> {
    const tree: LinkedHeapTree<int>
    var entries: seq<EntryState<V>>
    var size: int

    function State(): HeapState<V>
      reads this, tree
    {
      HeapState(tree.State(), entries, size)
    }

    ghost predicate Valid()
      reads this, tree
    {
      Fit(State())
    }

    /** MyHeap(comparator), MyHeap.java:35-38: an empty tree and no entries. */
    constructor ()
      ensures Valid() && State() == HeapState(Empty(), [], 0) && fresh(tree)
    {
      tree := new LinkedHeapTree();
      entries, size := [], 0;
    }

    /** size, MyHeap.java:81-83. */
    method Size() returns (n: int)
      ensures n == State().size
    {
      n := size;
    }

    /** isEmpty, MyHeap.java:91-96. */
    method IsEmpty() returns (b: bool)
      ensures b <==> State().size == 0
    {
      b := size == 0;
    }

    /** min, MyHeap.java:105-110. */
    method Min() returns (r: Reply<int>)
      requires Valid()
      ensures r == MinSpec(State())
    {
      var n := tree.Size();
      if n == 0 {
        return Throws(EmptyPriorityQueue);
      }
      var m := tree.ReturnMin();
      r := Returns(m.value);
    }

    /** setComparator, MyHeap.java:48-58; the comparator itself is not modelled. */
    method SetComparator(isNull: bool) returns (r: Reply<()>)
      ensures r == SetComparatorSpec(State(), isNull)
    {
      if isNull {
        return Throws(IllegalArgument);
      }
      r := Throws(IllegalState);
    }

    /**
     * The two setPos calls of one step of upHeap or downHeap: the entry at
     * a is told it goes to b, then the entry at b that it goes to a.
     */
    method Relocate(a: int, b: int)
      requires Valid() && 0 <= a < |tree.nodes| && 0 <= b < |tree.nodes|
      modifies this`entries
      ensures var ha, hb := tree.nodes[a].elem, tree.nodes[b].elem;
              var es := old(entries)[ha := old(entries)[ha].(pos := b)];
              entries == es[hb := es[hb].(pos := a)]
    {
      var ha := tree.nodes[a].elem;
      entries := entries[ha := entries[ha].(pos := b)];
      var hb := tree.nodes[b].elem;
      entries := entries[hb := entries[hb].(pos := a)];
    }

    /** upHeap, MyHeap.java:316-328. */
    method UpHeap(p0: int, key: int) returns (o: Outcome)
      requires Valid() && 0 <= p0 < |tree.nodes|
      modifies this, tree
      ensures Valid() && (State(), o) == UpSpec(old(State()), p0, key)
    {
      var p := p0;
      while true
        invariant Valid() && 0 <= p < |tree.nodes|
        invariant UpSpec(State(), p, key) == UpSpec(old(State()), p0, key)
        decreases p
      {
        var r := tree.Root();
        if r.Err? {
          return Fail(EmptyTree);
        }
        if p == r.value {
          return Pass;
        }
        var g := tree.nodes[p].parent;
        assert LinksOK(tree.nodes, p);
        if g == -1 {
          return Fail(NoParent);
        }
        if !(key < entries[tree.nodes[g].elem].key) {
          return Pass;
        }
        ghost var s := State();
        Relocate(p, g);
        var sw := tree.Swap(p, g);
        assert State() == Exchange(s, p, g);
        p := g;
      }
    }

    /**
     * downHeap, MyHeap.java:260-314.  `Downheap(p, c)` of the tree swaps p
     * with its left child when c < 0, its right child otherwise.
     */
    method DownHeap(p: int) returns (o: Outcome)
      requires Valid() && 0 <= p < |tree.nodes|
      modifies this, tree
      ensures Valid() && (State(), o) == DownSpec(old(State()), p)
      decreases |tree.nodes| - p, 2
    {
      var n := tree.nodes[p];
      if IsLeaf(n) {
        return Pass;
      }
      if n.left != -1 && n.right != -1 {
        o := DownBoth(p);
      } else {
        o := DownSingle(p);
      }
    }

    /** The two-children case of downHeap, MyHeap.java:265-288. */
    method DownBoth(p: int) returns (o: Outcome)
      requires Valid() && 0 <= p < |tree.nodes|
      requires tree.nodes[p].left != -1 && tree.nodes[p].right != -1
      modifies this, tree
      ensures Valid() && (State(), o) == DownTwo(old(State()), p)
      decreases |tree.nodes| - p, 1
    {
      var n := tree.nodes[p];
      assert LinksOK(tree.nodes, p);
      var s := State();
      var q := p;
      if KeyAt(s, n.left) <= KeyAt(s, n.right) && KeyAt(s, n.left) < KeyAt(s, p) {
        Relocate(n.left, p);
        var sw := tree.Downheap(p, -1);
        SwapElementsSymmetric(s.tree.nodes, p, n.left);
        assert State() == Exchange(s, n.left, p);
        o := DownHeap(n.left);
        if o.Fail? {
          return;
        }
        q := n.left;
      }
      o := DownRight(q);
    }

    /** The one-child cases of downHeap, MyHeap.java:289-310. */
    method DownSingle(p: int) returns (o: Outcome)
      requires Valid() && 0 <= p < |tree.nodes|
      requires (tree.nodes[p].left == -1) != (tree.nodes[p].right == -1)
      modifies this, tree
      ensures Valid() && (State(), o) == DownOne(old(State()), p)
      decreases |tree.nodes| - p, 1
    {
      var n := tree.nodes[p];
      assert LinksOK(tree.nodes, p);
      var s := State();
      var c := if n.left != -1 then n.left else n.right;
      if KeyAt(s, c) < KeyAt(s, p) {
        Relocate(c, p);
        var sw := tree.Downheap(p, if n.left != -1 then -1 else 1);
        SwapElementsSymmetric(s.tree.nodes, p, c);
        assert State() == Exchange(s, c, p);
        o := DownHeap(c);
      } else {
        o := Pass;
      }
    }

    /** The right-child test of downHeap's two-children case, MyHeap.java:277-287. */
    method DownRight(p: int) returns (o: Outcome)
      requires Valid() && 0 <= p < |tree.nodes|
      modifies this, tree
      ensures Valid() && (State(), o) == Retest(old(State()), p)
      decreases |tree.nodes| - p, 0
    {
      var m := tree.nodes[p];
      assert LinksOK(tree.nodes, p);
      if m.right == -1 {
        return Pass;
      }
      if m.left == -1 {
        return Fail(NoSuchChild);
      }
      var s := State();
      if KeyAt(s, m.right) <= KeyAt(s, m.left) && KeyAt(s, m.right) < KeyAt(s, p) {
        Relocate(m.right, p);
        var sw := tree.Downheap(p, 1);
        SwapElementsSymmetric(s.tree.nodes, p, m.right);
        assert State() == Exchange(s, m.right, p);
        o := DownHeap(m.right);
      } else {
        o := Pass;
      }
    }

    /** insert, MyHeap.java:121-136. */
    method Insert(key: KeyArg, v: V) returns (r: Reply<int>)
      requires Valid()
      modifies this, tree
      ensures Valid() && (State(), r) == InsertSpec(old(State()), key, v)
    {
      if !key.Key? {
        return Throws(InvalidKey);
      }
      var h := |entries|;
      ghost var s := State();
      var a := tree.Add(h);
      ghost var a0 := tree.State();
      InsertSpecUnfold(s, key.k, v, (a0, a));
      if a.Err? {
        return Throws(TreeFault(a.error));
      }
      var p := a.value;
      entries := entries + [NewEntry(key.k, v).(pos := p)];
      size := size + 1;
      ghost var s1 := State();
      assert s1 == HeapState(a0, s.entries + [NewEntry(key.k, v).(pos := p)], s.size + 1);
      assert key == Key(key.k);
      r := Climb(h, p, key.k);
      assert (State(), r) == Climbed(s1, p, key.k, h);
      assert s == old(State());
      assert InsertSpec(s, key, v) == Climbed(s1, p, key.k, h);
      assert Valid();
      assert (State(), r) == InsertSpec(old(State()), key, v);
    }

    /** The end of insert, MyHeap.java:131-135: upHeap from the new node unless it is alone. */
    method Climb(h: int, p: int, key: int) returns (r: Reply<int>)
      requires Valid() && 0 <= p < |tree.nodes|
      modifies this, tree
      ensures Valid() && (State(), r) == Climbed(old(State()), p, key, h)
    {
      var n := tree.Size();
      if n > 1 {
        var o := UpHeap(p, key);
        r := After(o, h);
      } else {
        r := Returns(h);
      }
    }

    /**
     * The swap with the deque back and the tree's remove, shared by
     * removeMin (MyHeap.java:150-151) and remove (MyHeap.java:177-178).
     */
    method SwapAndRemove(a: int, b: int) returns (r: Result<int>)
      requires Valid() && 0 <= a < |tree.nodes| && 0 <= b < |tree.nodes|
      modifies tree
      ensures Valid()
      ensures var d := TakeLast(old(State()), a, b);
              r == d.1 && d.0 == HeapState(tree.State(), entries, if r.Ok? then size - 1 else size)
    {
      var sw := tree.Swap(a, b);
      assert tree.State() == Swap(old(State()), a, b).tree;
      r := tree.Remove();
      assert forall i :: 0 <= i < |tree.nodes| ==> tree.nodes[i].elem == Payloads(tree.nodes)[i];
    }

    /** removeMin, MyHeap.java:145-161. */
    method RemoveMin() returns (r: Reply<int>)
      requires Valid()
      modifies this, tree
      ensures Valid() && (State(), r) == RemoveMinSpec(old(State()))
    {
      var n := tree.Size();
      if n == 0 {
        return Throws(EmptyPriorityQueue);
      }
      var swapPos := tree.Root();
      var newest := tree.ReturnNewest();
      if newest.Err? {
        return Throws(TreeFault(newest.error));
      }
      ghost var d := TakeLast(State(), swapPos.value, newest.value);
      assert RemoveMinSpec(State()) == RemoveMinRest(d);
      var save := SwapAndRemove(swapPos.value, newest.value);
      if save.Err? {
        return Throws(TreeFault(save.error));
      }
      size := size - 1;
      assert State() == d.0;
      if size != 0 {
        var pos := tree.Root();
        if pos.Err? {
          return Throws(TreeFault(pos.error));
        }
        n := tree.Size();
        if n > 1 {
          var o := DownHeap(pos.value);
          return After(o, save.value);
        }
      }
      r := Returns(save.value);
    }

    /** remove, MyHeap.java:171-186. */
    method Remove(e: EntryArg) returns (r: Reply<int>)
      requires Valid() && (e.Entry? ==> 0 <= e.handle < |entries|)
      modifies this, tree
      ensures Valid() && (State(), r) == RemoveSpec(old(State()), e)
    {
      if !e.Entry? {
        return Throws(InvalidEntry);
      }
      var n := tree.Size();
      if n == 0 {
        return Throws(EmptyPriorityQueue);
      }
      var h := e.handle;
      var swapPos := entries[h].pos;
      var newest := tree.ReturnNewest();
      if newest.Err? {
        return Throws(TreeFault(newest.error));
      }
      ghost var s := State();
      ghost var d := TakeLast(s, swapPos, newest.value);
      RemoveSpecUnfold(s, h);
      var save := SwapAndRemove(swapPos, newest.value);
      if save.Err? {
        return Throws(TreeFault(save.error));
      }
      r := Settle(h, save.value, s, d);
    }

    /**
     * The end of remove, MyHeap.java:179-185: the entry's position is
     * handed to the moved entry, the count drops, and the tree is
     * down-heaped from the entry's recorded position.
     */
    method Settle(h: int, save: int, ghost s: HeapState<V>, ghost d: (HeapState<V>, Result<int>)) returns (r: Reply<int>)
      requires Valid() && 0 <= h < |entries| && 0 <= save < |entries| && entries == s.entries
      requires d == (HeapState(tree.State(), entries, size - 1), Ok(save))
      modifies this, tree
      ensures Valid() && (State(), r) == RemoveRest(s, h, d)
    {
      entries := entries[h := entries[h].(pos := entries[save].pos)];
      size := size - 1;
      assert State() == d.0.(entries := s.entries[h := s.entries[h].(pos := s.entries[save].pos)]);
      var pos := entries[h].pos;
      var n := tree.Size();
      if n > 1 {
        var o := DownHeap(pos);
        r := After(o, save);
      } else {
        r := Returns(save);
      }
    }

    /** replaceKey, MyHeap.java:198-221. */
    method ReplaceKey(e: EntryArg, key: KeyArg) returns (r: Reply<int>)
      requires Valid() && (e.Entry? ==> 0 <= e.handle < |entries|)
      modifies this, tree
      ensures Valid() && (State(), r) == ReplaceKeySpec(old(State()), e, key)
    {
      if key.Incomparable? {
        return Throws(InvalidKey);
      }
      if key.NullKey? {
        return Throws(NullKeyCompare);
      }
      if !e.Entry? {
        return Throws(InvalidEntry);
      }
      var h, k := e.handle, key.k;
      var save := entries[h].key;
      entries := entries[h := entries[h].(key := k)];
      if k == save {
        return Returns(save);
      }
      var o;
      if k > save {
        o := DownHeap(entries[h].pos);
      } else {
        o := UpHeap(entries[h].pos, k);
      }
      r := After(o, save);
    }

    /** replaceValue, MyHeap.java:232-240. */
    method ReplaceValue(e: EntryArg, v: V) returns (r: Reply<V>)
      requires Valid() && (e.Entry? ==> 0 <= e.handle < |entries|)
      modifies this`entries
      ensures Valid() && (State(), r) == ReplaceValueSpec(old(State()), e, v)
    {
      if !e.Entry? {
        return Throws(InvalidEntry);
      }
      var h := e.handle;
      var save := entries[h].value;
      entries := entries[h := entries[h].(value := v)];
      r := Returns(save);
    }
  }
}
