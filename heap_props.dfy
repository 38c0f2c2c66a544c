/**
 * What MyHeap promises as a priority queue, stated on the model: an
 * invariant every operation keeps (complete tree with its deque, heap
 * order, every entry in the heap knowing its node, size equal to the
 * tree's count), which entries the heap holds, and what each operation
 * returns.
 */
module HeapProps {
  import opened LinkedTree
  import opened TreeShape
  import opened HeapModel
  import opened Entries
  import opened HeapOrder

  /** The handles of the entries in the heap, in level order of their nodes. */
  function Held<V>(s: HeapState<V>, order: seq<int>): (r: seq<int>)
    requires InArena(s.tree, order)
    ensures |r| == |order| && forall k :: 0 <= k < |order| ==> r[k] == s.tree.nodes[order[k]].elem
  {
    seq(|order|, k requires 0 <= k < |order| => s.tree.nodes[order[k]].elem)
  }

  /** Every entry in the heap records the node that holds it. */
  ghost predicate Located<V>(s: HeapState<V>, order: seq<int>)
    requires Fit(s) && InArena(s.tree, order)
  {
    forall k :: 0 <= k < |order| ==> PosAt(s, order[k])
  }

  /** The tree is complete with its deque right, and every entry in it records its node. */
  ghost predicate Tracked<V>(s: HeapState<V>, order: seq<int>)
  {
    Fit(s) && Frontier(s.tree, order) && Located(s, order)
  }

  /** The invariant of a MyHeap whose tree lists its nodes in level order as `order`. */
  ghost predicate Valid<V>(s: HeapState<V>, order: seq<int>)
  {
    && Fit(s) && Frontier(s.tree, order)
    && HeapOrdered(s) && Located(s, order)
    && s.size == s.tree.count
  }

  /**
   * r is s after exchanges between nodes of the heap: the same entries
   * held, and every entry still located if every entry was.
   */
  ghost predicate Shuffled<V>(s: HeapState<V>, r: HeapState<V>, order: seq<int>)
    requires Fit(s) && Fit(r) && InArena(s.tree, order) && InArena(r.tree, order)
  {
    && multiset(Held(r, order)) == multiset(Held(s, order))
    && (Located(s, order) ==> Located(r, order))
  }

  lemma {:induction false} ShuffledTrans<V>(s: HeapState<V>, m: HeapState<V>, r: HeapState<V>, order: seq<int>)
    requires Fit(s) && Fit(m) && Fit(r) && InArena(s.tree, order) && InArena(m.tree, order) && InArena(r.tree, order)
    requires Shuffled(s, m, order) && Shuffled(m, r, order)
    ensures Shuffled(s, r, order)
  {
  }

  lemma {:induction false} ShuffledRefl<V>(s: HeapState<V>, order: seq<int>)
    requires Fit(s) && InArena(s.tree, order)
    ensures Shuffled(s, s, order)
  {
  }

  lemma {:induction false} ShuffledSame<V>(s: HeapState<V>, a: HeapState<V>, b: HeapState<V>, order: seq<int>)
    requires Fit(s) && Fit(a) && InArena(s.tree, order) && InArena(a.tree, order)
    requires Shuffled(s, a, order) && a == b
    ensures Shuffled(s, b, order)
  {
  }

  /** Two numbers in level order name two different nodes. */
  lemma {:induction false} Distinct<E>(t: Tree<E>, order: seq<int>, j: int, k: int)
    requires LevelOrder(t, order) && 0 <= j < |order| && 0 <= k < |order| && j != k
    ensures order[j] != order[k]
  {
    if j < k {
      assert Earlier(order, j, k);
    } else {
      assert Earlier(order, k, j);
    }
  }

  /** Entries that record their nodes are different entries when their nodes are. */
  lemma {:induction false} LocatedDistinct<V>(s: HeapState<V>, order: seq<int>, j: int, k: int)
    requires Fit(s) && LevelOrder(s.tree, order) && Located(s, order)
    requires 0 <= j < |order| && 0 <= k < |order| && j != k
    ensures Held(s, order)[j] != Held(s, order)[k]
  {
    Distinct(s.tree, order, j, k);
    assert PosAt(s, order[j]) && PosAt(s, order[k]);
  }

  /**
   * Exchanging the entries of two nodes in the heap keeps the shape and
   * the entries held, and keeps every entry located.
   */
  lemma {:induction false} ExchangeKeeps<V>(s: HeapState<V>, order: seq<int>, a: int, b: int)
    requires Fit(s) && LevelOrder(s.tree, order) && 0 <= a < |order| && 0 <= b < |order|
    ensures LevelOrder(Exchange(s, order[a], order[b]).tree, order)
    ensures Shuffled(s, Exchange(s, order[a], order[b]), order)
  {
    var r := Exchange(s, order[a], order[b]);
    RearrangedKeepsLevelOrder(s, r, order);
    ExchangeHeld(s, order, a, b);
    if Located(s, order) {
      ExchangeLocated(s, order, a, b);
    }
  }

  /** An exchange of two nodes in the heap exchanges their places in Held. */
  lemma {:induction false} ExchangeHeld<V>(s: HeapState<V>, order: seq<int>, a: int, b: int)
    requires Fit(s) && LevelOrder(s.tree, order) && 0 <= a < |order| && 0 <= b < |order|
    ensures var q := Held(s, order);
            Held(Exchange(s, order[a], order[b]), order) == q[a := q[b]][b := q[a]]
  {
    var r := Exchange(s, order[a], order[b]);
    var q := Held(s, order);
    forall k | 0 <= k < |order| && k != a && k != b
      ensures r.tree.nodes[order[k]] == s.tree.nodes[order[k]]
    {
      Distinct(s.tree, order, k, a);
      Distinct(s.tree, order, k, b);
    }
    if a != b {
      Distinct(s.tree, order, a, b);
    }
    assert Held(r, order) == q[a := q[b]][b := q[a]];
  }

  /** An exchange of two nodes in the heap keeps every entry located. */
  lemma {:induction false} ExchangeLocated<V>(s: HeapState<V>, order: seq<int>, a: int, b: int)
    requires Fit(s) && LevelOrder(s.tree, order) && 0 <= a < |order| && 0 <= b < |order|
    requires Located(s, order)
    ensures Located(Exchange(s, order[a], order[b]), order)
  {
    var r := Exchange(s, order[a], order[b]);
    forall k | 0 <= k < |order|
      ensures PosAt(r, order[k])
    {
      if k != a && k != b {
        LocatedDistinct(s, order, k, a);
        LocatedDistinct(s, order, k, b);
        Distinct(s.tree, order, k, a);
        Distinct(s.tree, order, k, b);
      } else if a != b {
        LocatedDistinct(s, order, a, b);
      }
    }
  }

  /** upHeap from a node in the heap keeps the shape and the entries held, and keeps every entry located. */
  lemma {:induction false} UpKeeps<V>(s: HeapState<V>, order: seq<int>, k: int, key: int)
    requires Fit(s) && LevelOrder(s.tree, order) && 0 <= k < |order|
    ensures Shuffled(s, UpSpec(s, order[k], key).0, order)
    decreases k
  {
    var p := order[k];
    if k == 0 {
      assert UpSpec(s, p, key) == (s, Pass);
    } else {
      var j := (k - 1) / 2;
      var g := order[j];
      UpParent(s, order, k);
      UpSpecUnfold(s, p, g, key);
      if key < KeyAt(s, g) {
        ExchangeKeeps(s, order, k, j);
        UpKeeps(Exchange(s, p, g), order, j, key);
        ShuffledTrans(s, Exchange(s, p, g), UpSpec(s, p, key).0, order);
      }
    }
  }

  /**
   * downHeap from a node in the heap never fails on a complete tree, and
   * keeps the shape and the entries held, and keeps every entry located.
   */
  lemma {:induction false} DownKeeps<V>(s: HeapState<V>, order: seq<int>, k: int)
    requires Fit(s) && LevelOrder(s.tree, order) && 0 <= k < |order|
    ensures DownSpec(s, order[k]).1 == Pass && Shuffled(s, DownSpec(s, order[k]).0, order)
    decreases |s.tree.nodes| - order[k], 4
  {
    var p := order[k];
    var n := s.tree.nodes[p];
    if n.left == -1 && n.right == -1 {
      ShuffledRefl(s, order);
    } else if n.left != -1 && n.right != -1 {
      DownTwoKeeps(s, order, k);
      ShuffledSame(s, DownTwo(s, p).0, DownSpec(s, p).0, order);
    } else {
      DownOneKeeps(s, order, k);
      ShuffledSame(s, DownOne(s, p).0, DownSpec(s, p).0, order);
    }
  }

  /** The two-children case of downHeap. */
  lemma {:induction false} DownTwoKeeps<V>(s: HeapState<V>, order: seq<int>, k: int)
    requires Fit(s) && LevelOrder(s.tree, order) && 0 <= k < |order|
    requires s.tree.nodes[order[k]].left != -1 && s.tree.nodes[order[k]].right != -1
    ensures DownTwo(s, order[k]).1 == Pass && Shuffled(s, DownTwo(s, order[k]).0, order)
    decreases |s.tree.nodes| - order[k], 3
  {
    var p := order[k];
    var n := s.tree.nodes[p];
    assert NodeAt(s.tree, order, k);
    if KeyAt(s, n.left) <= KeyAt(s, n.right) && KeyAt(s, n.left) < KeyAt(s, p) {
      DownKeepsLeft(s, order, k);
      DownTwoLeft(s, p);
    } else {
      RetestKeeps(s, order, k);
      DownTwoRetest(s, p);
    }
  }

  /** The one-child case of downHeap: in a complete tree the child is the left one. */
  lemma {:induction false} DownOneKeeps<V>(s: HeapState<V>, order: seq<int>, k: int)
    requires Fit(s) && LevelOrder(s.tree, order) && 0 <= k < |order|
    requires (s.tree.nodes[order[k]].left == -1) != (s.tree.nodes[order[k]].right == -1)
    ensures DownOne(s, order[k]).1 == Pass && Shuffled(s, DownOne(s, order[k]).0, order)
    decreases |s.tree.nodes| - order[k], 3
  {
    var p := order[k];
    var l := s.tree.nodes[p].left;
    assert NodeAt(s.tree, order, k);
    if KeyAt(s, l) < KeyAt(s, p) {
      assert Earlier(order, k, 2 * k + 1);
      ExchangeThenDown(s, order, 2 * k + 1, k);
    } else {
      ShuffledRefl(s, order);
    }
  }

  /** An exchange of a node with one of its children, then downHeap from the child. */
  lemma {:induction false} ExchangeThenDown<V>(s: HeapState<V>, order: seq<int>, c: int, k: int)
    requires Fit(s) && LevelOrder(s.tree, order) && 0 <= k < c < |order|
    ensures var s1 := Exchange(s, order[c], order[k]);
            DownSpec(s1, order[c]).1 == Pass && Shuffled(s, DownSpec(s1, order[c]).0, order)
    decreases |s.tree.nodes| - order[c], 5
  {
    var s1 := Exchange(s, order[c], order[k]);
    ExchangeKeeps(s, order, c, k);
    DownKeeps(s1, order, c);
    ShuffledTrans(s, s1, DownSpec(s1, order[c]).0, order);
  }

  /** Both children, the left one taken: the exchange, the recursion and the re-test. */
  lemma {:induction false} DownKeepsLeft<V>(s: HeapState<V>, order: seq<int>, k: int)
    requires Fit(s) && LevelOrder(s.tree, order) && 0 <= k < |order| && 2 * k + 1 < |order|
    ensures var s1 := Exchange(s, order[2 * k + 1], order[k]);
            var d := DownSpec(s1, order[2 * k + 1]);
            && d.1 == Pass && Retest(d.0, order[2 * k + 1]).1 == Pass
            && Shuffled(s, Retest(d.0, order[2 * k + 1]).0, order)
    decreases |s.tree.nodes| - order[k], 2
  {
    var c := order[2 * k + 1];
    assert Earlier(order, k, 2 * k + 1);
    var s1 := Exchange(s, c, order[k]);
    ExchangeThenDown(s, order, 2 * k + 1, k);
    var d := DownSpec(s1, c);
    RearrangedKeepsLevelOrder(s, s1, order);
    RearrangedKeepsLevelOrder(s1, d.0, order);
    RetestKeeps(d.0, order, 2 * k + 1);
    ShuffledTrans(s, d.0, Retest(d.0, c).0, order);
  }

  /** The re-test of the two-children case: it only ever exchanges with the right child. */
  lemma {:induction false} RetestKeeps<V>(s: HeapState<V>, order: seq<int>, k: int)
    requires Fit(s) && LevelOrder(s.tree, order) && 0 <= k < |order|
    ensures Retest(s, order[k]).1 == Pass && Shuffled(s, Retest(s, order[k]).0, order)
    decreases |s.tree.nodes| - order[k], 1
  {
    var p := order[k];
    var n := s.tree.nodes[p];
    assert NodeAt(s.tree, order, k);
    assert LinksOK(s.tree.nodes, p);
    var l, r := n.left, n.right;
    if r != -1 && KeyAt(s, r) <= KeyAt(s, l) && KeyAt(s, r) < KeyAt(s, p) {
      RetestKeepsRight(s, order, k);
    } else {
      assert Retest(s, p) == (s, Pass);
      ShuffledRefl(s, order);
    }
  }

  lemma {:induction false} RetestKeepsRight<V>(s: HeapState<V>, order: seq<int>, k: int)
    requires Fit(s) && LevelOrder(s.tree, order) && 0 <= k && 2 * k + 2 < |order|
    requires var n, l, r := s.tree.nodes[order[k]], order[2 * k + 1], order[2 * k + 2];
             && n.left == l && n.right == r
             && KeyAt(s, r) <= KeyAt(s, l) && KeyAt(s, r) < KeyAt(s, order[k])
    ensures Retest(s, order[k]).1 == Pass && Shuffled(s, Retest(s, order[k]).0, order)
    decreases |s.tree.nodes| - order[k], 0
  {
    var p, c := order[k], order[2 * k + 2];
    assert Earlier(order, k, 2 * k + 2);
    var d := DownSpec(Exchange(s, c, p), c);
    RetestRight(s, p);
    ExchangeThenDown(s, order, 2 * k + 2, k);
    ShuffledSame(s, d.0, Retest(s, p).0, order);
  }

  /** How the two-children case unfolds when it takes the left child. */
  lemma {:induction false} DownTwoLeft<V>(s: HeapState<V>, p: int)
    requires Fit(s) && 0 <= p < |s.tree.nodes|
    requires var n := s.tree.nodes[p];
             0 <= n.left < |s.tree.nodes| && 0 <= n.right < |s.tree.nodes|
             && KeyAt(s, n.left) <= KeyAt(s, n.right) && KeyAt(s, n.left) < KeyAt(s, p)
    ensures var l := s.tree.nodes[p].left;
            var d := DownSpec(Exchange(s, l, p), l);
            DownTwo(s, p) == if d.1.Fail? then d else Retest(d.0, l)
  {
    assert LinksOK(s.tree.nodes, p);
  }

  /** How the two-children case unfolds when it does not take the left child. */
  lemma {:induction false} DownTwoRetest<V>(s: HeapState<V>, p: int)
    requires Fit(s) && 0 <= p < |s.tree.nodes|
    requires var n := s.tree.nodes[p];
             0 <= n.left < |s.tree.nodes| && 0 <= n.right < |s.tree.nodes|
             && !(KeyAt(s, n.left) <= KeyAt(s, n.right) && KeyAt(s, n.left) < KeyAt(s, p))
    ensures DownTwo(s, p) == Retest(s, p)
  {
    assert LinksOK(s.tree.nodes, p);
  }

  /** How the re-test unfolds when it takes the right child. */
  lemma {:induction false} RetestRight<V>(s: HeapState<V>, p: int)
    requires Fit(s) && 0 <= p < |s.tree.nodes|
    requires var n := s.tree.nodes[p];
             0 <= n.left < |s.tree.nodes| && 0 <= n.right < |s.tree.nodes|
             && KeyAt(s, n.right) <= KeyAt(s, n.left) && KeyAt(s, n.right) < KeyAt(s, p)
    ensures var r := s.tree.nodes[p].right;
            Retest(s, p) == DownSpec(Exchange(s, r, p), r)
  {
    assert LinksOK(s.tree.nodes, p);
  }

  /** In a heap-ordered complete tree the root's key is no larger than any key in the heap. */
  lemma {:induction false} RootIsLeast<V>(s: HeapState<V>, order: seq<int>, k: int)
    requires HeapOrdered(s) && LevelOrder(s.tree, order) && 0 <= k < |order|
    ensures KeyAt(s, order[0]) <= KeyAt(s, order[k])
    decreases k
  {
    if k > 0 {
      var j := (k - 1) / 2;
      RootIsLeast(s, order, j);
      assert NodeAt(s.tree, order, j);
      assert NodeOrdered(s, order[j]);
    }
  }

  /**
   * min(), MyHeap.java:105-110: on a non-empty heap it returns the entry at
   * the root, which records the root as its position and whose key is no
   * larger than the key of any entry in the heap.
   */
  lemma {:induction false} MinIsLeast<V>(s: HeapState<V>, order: seq<int>)
    requires Valid(s, order) && s.tree.count > 0
    ensures var q := Held(s, order);
            && MinSpec(s) == Returns(q[0]) && s.entries[q[0]].pos == s.tree.root
            && forall h :: h in q ==> s.entries[q[0]].key <= s.entries[h].key
  {
    var q := Held(s, order);
    assert PosAt(s, order[0]);
    forall h | h in q ensures s.entries[q[0]].key <= s.entries[h].key {
      var k :| 0 <= k < |q| && q[k] == h;
      RootIsLeast(s, order, k);
    }
  }

  /** A node with a child in a complete tree is in the heap, and so are its children. */
  lemma {:induction false} EdgeInOrder<E>(t: Tree<E>, o: seq<int>, i: int)
    requires LevelOrder(t, o) && 0 <= i < |t.nodes| && !IsLeaf(t.nodes[i])
    ensures i in o
    ensures t.nodes[i].left != -1 ==> t.nodes[i].left in o
    ensures t.nodes[i].right != -1 ==> t.nodes[i].right in o
  {
    var k :| 0 <= k < |o| && o[k] == i;
    assert NodeAt(t, o, k);
  }

  /** The parent of a node in a complete tree is in the heap and has the node as a child. */
  lemma {:induction false} ParentInOrder<E>(t: Tree<E>, o: seq<int>, p: int)
    requires LevelOrder(t, o) && p in o && t.nodes[p].parent != -1
    ensures t.nodes[p].parent in o
    ensures var g := t.nodes[p].parent; t.nodes[g].left == p || t.nodes[g].right == p
  {
    var k :| 0 <= k < |o| && o[k] == p;
    assert NodeAt(t, o, k);
    var j := (k - 1) / 2;
    assert NodeAt(t, o, j);
  }

  /**
   * r is s with the key at node p changed, some child links cut, and the
   * nodes of the heap (listed by o) otherwise holding the keys they held.
   */
  ghost predicate Rekeyed<V>(s: HeapState<V>, r: HeapState<V>, o: seq<int>, p: int)
  {
    && Fit(s) && Fit(r)
    && |r.tree.nodes| == |s.tree.nodes| && Pruned(r.tree.nodes, s.tree.nodes)
    && 0 <= p < |r.tree.nodes|
    && forall i :: 0 <= i < |r.tree.nodes| && i in o && i != p ==> KeyAt(r, i) == KeyAt(s, i)
  }

  /** A smaller key at p in an ordered heap leaves the hole upHeap(p) repairs. */
  lemma {:induction false} RekeyedUp<V>(s: HeapState<V>, r: HeapState<V>, o: seq<int>, p: int)
    requires HeapOrdered(s) && LevelOrder(r.tree, o) && Rekeyed(s, r, o, p) && KeyAt(r, p) <= KeyAt(s, p)
    ensures UpHole(r, p)
  {
    forall i | 0 <= i < |r.tree.nodes|
      ensures r.tree.nodes[i].left == p || NoSmaller(r, i, r.tree.nodes[i].left)
      ensures r.tree.nodes[i].right == p || NoSmaller(r, i, r.tree.nodes[i].right)
    {
      if !IsLeaf(r.tree.nodes[i]) {
        EdgeInOrder(r.tree, o, i);
        assert NodeOrdered(s, i);
      }
    }
    RekeyedBridged(s, r, o, p);
  }

  /** Whatever the new key at p, its parent's key is no larger than the keys of p's children. */
  lemma {:induction false} RekeyedBridged<V>(s: HeapState<V>, r: HeapState<V>, o: seq<int>, p: int)
    requires HeapOrdered(s) && LevelOrder(r.tree, o) && Rekeyed(s, r, o, p)
    ensures Bridged(r, p)
  {
    var n := r.tree.nodes[p];
    if n.parent != -1 && !IsLeaf(n) {
      assert LinksOK(r.tree.nodes, p);
      EdgeInOrder(r.tree, o, p);
      ParentInOrder(r.tree, o, p);
      assert NodeOrdered(s, n.parent) && NodeOrdered(s, p);
    }
  }

  /**
   * A larger key at p, or one no smaller than its parent's, leaves the
   * hole downHeap(p) repairs.
   */
  lemma {:induction false} RekeyedDown<V>(s: HeapState<V>, r: HeapState<V>, o: seq<int>, p: int)
    requires HeapOrdered(s) && LevelOrder(r.tree, o) && Rekeyed(s, r, o, p)
    requires var g := r.tree.nodes[p].parent;
             KeyAt(s, p) <= KeyAt(r, p) || (0 <= g < |r.tree.nodes| ==> KeyAt(r, g) <= KeyAt(r, p))
    ensures DownHole(r, p)
  {
    forall i | 0 <= i < |r.tree.nodes| && i != p ensures NodeOrdered(r, i) {
      if !IsLeaf(r.tree.nodes[i]) {
        EdgeInOrder(r.tree, o, i);
        assert LinksOK(r.tree.nodes, i);
        assert NodeOrdered(s, i);
      }
    }
    RekeyedBridged(s, r, o, p);
  }

  /** The heap s with the new entry h, at position m, hung as the new last leaf m of the tree. */
  function Added<V>(s: HeapState<V>, key: int, v: V): (r: HeapState<V>)
    requires Fit(s)
  {
    var m, h := |s.tree.nodes|, |s.entries|;
    HeapState(AddNode(s.tree, h).0, s.entries + [NewEntry(key, v).(pos := m)], s.size + 1)
  }

  /**
   * The first steps of insert (MyHeap.java:128-131) on a valid heap: the
   * tree takes the new leaf m as its last node, the entry learns m, and
   * heap order holds but between m and its parent.
   */
  lemma {:induction false} AddedKeeps<V>(s: HeapState<V>, order: seq<int>, key: int, v: V)
    requires Valid(s, order)
    ensures var m, h, s1 := |s.tree.nodes|, |s.entries|, Added(s, key, v);
            && AddNode(s.tree, h).1 == Ok(m) && Fit(s1) && Frontier(s1.tree, order + [m])
            && Held(s1, order + [m]) == Held(s, order) + [h]
            && Located(s1, order + [m]) && s1.size == s1.tree.count
  {
    var m, h, s1 := |s.tree.nodes|, |s.entries|, Added(s, key, v);
    AddKeepsFrontier(s.tree, order, h);
    var a := AddNode(s.tree, h);
    forall i | 0 <= i < |a.0.nodes| ensures 0 <= a.0.nodes[i].elem <= h {
      assert a.0.nodes[i].elem == Payloads(a.0.nodes)[i];
      if i < m {
        assert Payloads(s.tree.nodes)[i] == s.tree.nodes[i].elem;
      }
    }
    assert Fit(s1);
    var o := order + [m];
    forall k | 0 <= k < |o| ensures s1.tree.nodes[o[k]].elem == (Held(s, order) + [h])[k] {
      if k < |order| {
        assert o[k] == order[k];
      }
    }
    assert Held(s1, o) == Held(s, order) + [h];
    forall k | 0 <= k < |o| ensures PosAt(s1, o[k]) {
      if k < |order| {
        assert o[k] == order[k] && PosAt(s, order[k]);
      }
    }
  }

  /** The new leaf of insert is the only node that may be out of order with its parent. */
  lemma {:induction false} AddedHole<V>(s: HeapState<V>, order: seq<int>, key: int, v: V)
    requires Valid(s, order)
    ensures Fit(Added(s, key, v)) && |s.tree.nodes| < |Added(s, key, v).tree.nodes|
    ensures UpHole(Added(s, key, v), |s.tree.nodes|)
  {
    var m, h, s1 := |s.tree.nodes|, |s.entries|, Added(s, key, v);
    AddedKeeps(s, order, key, v);
    var a := AddNode(s.tree, h);
    assert Grown(a.0.nodes, s.tree.nodes);
    forall i | 0 <= i < |s1.tree.nodes|
      ensures s1.tree.nodes[i].left == m || NoSmaller(s1, i, s1.tree.nodes[i].left)
      ensures s1.tree.nodes[i].right == m || NoSmaller(s1, i, s1.tree.nodes[i].right)
    {
      if i < m {
        assert NodeOrdered(s, i);
        assert LinksOK(s.tree.nodes, i);
      }
    }
  }

  /**
   * insert(key, value), MyHeap.java:121-136, on a valid heap with a
   * comparable key: it returns the handle of a new entry holding key and
   * value, the heap is valid again with the new entry added to the
   * entries it holds, and no other entry's key or value changes.
   */
  lemma {:induction false} InsertKeeps<V>(s: HeapState<V>, order: seq<int>, key: int, v: V)
    requires Valid(s, order)
    ensures var r, h, o := InsertSpec(s, Key(key), v), |s.entries|, order + [|s.tree.nodes|];
            && r.1 == Returns(h) && Valid(r.0, o)
            && multiset(Held(r.0, o)) == multiset(Held(s, order)) + multiset{h}
            && r.0.entries[h].key == key && r.0.entries[h].value == v
            && forall g :: 0 <= g < |s.entries| ==>
                 r.0.entries[g].key == s.entries[g].key && r.0.entries[g].value == s.entries[g].value
  {
    AddedKeeps(s, order, key, v);
    InsertUnfold(s, key, v);
    InsertTail(s, order, key, v);
  }

  /** The last steps of insert, once the tree has taken the new leaf: upHeap from it when it is not the root. */
  lemma {:induction false} InsertTail<V>(s: HeapState<V>, order: seq<int>, key: int, v: V)
    requires Valid(s, order)
    ensures Fit(Added(s, key, v)) && |s.tree.nodes| < |Added(s, key, v).tree.nodes|
    ensures var s1, m, h, o := Added(s, key, v), |s.tree.nodes|, |s.entries|, order + [|s.tree.nodes|];
            var x := if s1.tree.count > 1 then (UpSpec(s1, m, key).0, After(UpSpec(s1, m, key).1, h))
                     else (s1, Returns(h));
            && x.1 == Returns(h) && Valid(x.0, o)
            && multiset(Held(x.0, o)) == multiset(Held(s, order)) + multiset{h}
            && x.0.entries[h].key == key && x.0.entries[h].value == v
            && forall g :: 0 <= g < |s.entries| ==>
                 x.0.entries[g].key == s.entries[g].key && x.0.entries[g].value == s.entries[g].value
  {
    var m, s1 := |s.tree.nodes|, Added(s, key, v);
    AddedKeeps(s, order, key, v);
    if s1.tree.count > 1 {
      InsertClimbs(s, order, key, v);
    } else {
      AddedHole(s, order, key, v);
      UpHoleClosed(s1, m);
    }
  }

  /** How insert unfolds once the tree has taken the new leaf. */
  lemma {:induction false} InsertUnfold<V>(s: HeapState<V>, key: int, v: V)
    requires Fit(s) && AddNode(s.tree, |s.entries|).1.Ok?
    ensures Fit(Added(s, key, v)) && |s.tree.nodes| < |Added(s, key, v).tree.nodes|
    ensures var s1, m, h := Added(s, key, v), |s.tree.nodes|, |s.entries|;
            InsertSpec(s, Key(key), v) ==
              if s1.tree.count > 1 then (UpSpec(s1, m, key).0, After(UpSpec(s1, m, key).1, h))
              else (s1, Returns(h))
  {
    var a := AddNode(s.tree, |s.entries|);
    assert forall i :: 0 <= i < |a.0.nodes| ==> a.0.nodes[i].elem == Payloads(a.0.nodes)[i];
  }

  /** The upHeap of insert, from the new leaf of a valid heap. */
  lemma {:induction false} InsertClimbs<V>(s: HeapState<V>, order: seq<int>, key: int, v: V)
    requires Valid(s, order)
    ensures Fit(Added(s, key, v)) && |s.tree.nodes| < |Added(s, key, v).tree.nodes|
    ensures var s1, m, o := Added(s, key, v), |s.tree.nodes|, order + [|s.tree.nodes|];
            var u := UpSpec(s1, m, key);
            && u.1 == Pass && Valid(u.0, o)
            && multiset(Held(u.0, o)) == multiset(Held(s1, o))
            && forall g :: 0 <= g < |s1.entries| ==>
                 u.0.entries[g].key == s1.entries[g].key && u.0.entries[g].value == s1.entries[g].value
  {
    var m, s1 := |s.tree.nodes|, Added(s, key, v);
    var o := order + [m];
    AddedKeeps(s, order, key, v);
    AddedHole(s, order, key, v);
    var u := UpSpec(s1, m, key);
    assert o[|order|] == m;
    UpRestores(s1, o, |order|, key);
    UpKeeps(s1, o, |order|, key);
    RearrangedKeepsLevelOrder(s1, u.0, o);
  }

  /** Moving the last handle into place j and dropping the last place removes the handle at j. */
  lemma {:induction false} DropMoved(q: seq<int>, x: seq<int>, j: int)
    requires 0 <= j < |q| && |x| == |q| - 1
    requires forall k :: 0 <= k < |x| ==> x[k] == if k == j then q[|q| - 1] else q[k]
    ensures multiset(x) == multiset(q) - multiset{q[j]}
  {
    var n := |q|;
    assert q == q[..n - 1] + [q[n - 1]];
    if j < n - 1 {
      assert x == q[..n - 1][j := q[n - 1]];
      assert q[..n - 1][j] == q[j];
    } else {
      assert x == q[..n - 1];
    }
  }

  /** The nodes listed by order come in increasing arena order (a conjunct of LevelOrder). */
  ghost predicate Ascending(order: seq<int>)
  {
    forall j, k :: 0 <= j < k < |order| ==> Earlier(order, j, k)
  }

  /**
   * d is what giving up the last node leaves of a heap s whose nodes are
   * listed by order, for the node p numbered j + 1: the entry of p is
   * handed back, the last entry (of the node v) sits at p, every other
   * node holds what it held, links are only cut, and keys, values and the
   * difference between `node_num` and the tree's count are as before.
   */
  ghost predicate TookLast<V>(s: HeapState<V>, order: seq<int>, j: int, d: (HeapState<V>, Result<int>))
    requires Fit(s) && InArena(s.tree, order) && 0 <= j < |order|
  {
    var p, v := order[j], order[|order| - 1];
    && Fit(d.0) && |d.0.entries| == |s.entries| && |d.0.tree.nodes| == |s.tree.nodes|
    && (forall h :: 0 <= h < |s.entries| ==>
          d.0.entries[h].key == s.entries[h].key && d.0.entries[h].value == s.entries[h].value)
    && Pruned(d.0.tree.nodes, s.tree.nodes)
    && (forall i :: 0 <= i < |s.tree.nodes| && i != p && i != v ==> d.0.tree.nodes[i].elem == s.tree.nodes[i].elem)
    && d.0.tree.nodes[p].elem == s.tree.nodes[v].elem
    && d.0.tree.nodes[p].parent == s.tree.nodes[p].parent
    && d.1 == Ok(s.tree.nodes[p].elem)
    && d.0.size - d.0.tree.count == s.size - s.tree.count
  }

  /** The handles held after giving up the last node: the last one has taken the place of the one handed back. */
  lemma {:induction false} TookHeld<V>(s: HeapState<V>, order: seq<int>, j: int, d: (HeapState<V>, Result<int>))
    requires Fit(s) && InArena(s.tree, order) && Ascending(order) && 0 <= j < |order| && TookLast(s, order, j, d)
    ensures InArena(d.0.tree, DropLast(order))
    ensures var q := Held(s, order);
            multiset(Held(d.0, DropLast(order))) == multiset(q) - multiset{q[j]}
  {
    var n, q := |order|, Held(s, order);
    var o := DropLast(order);
    assert o == order[..n - 1];
    forall k | 0 <= k < n - 1
      ensures d.0.tree.nodes[o[k]].elem == if k == j then q[n - 1] else q[k]
    {
      assert o[k] == order[k] && Earlier(order, k, n - 1);
      if k < j {
        assert Earlier(order, k, j);
      } else if j < k {
        assert Earlier(order, j, k);
      }
    }
    DropMoved(q, Held(d.0, o), j);
  }

  /** After giving up the last node, the only key that changed in the heap is at p, where the last one now is. */
  lemma {:induction false} TookRekeyed<V>(s: HeapState<V>, order: seq<int>, j: int, d: (HeapState<V>, Result<int>))
    requires Fit(s) && InArena(s.tree, order) && Ascending(order) && 0 <= j < |order| && TookLast(s, order, j, d)
    ensures Rekeyed(s, d.0, DropLast(order), order[j])
    ensures KeyAt(d.0, order[j]) == KeyAt(s, order[|order| - 1])
  {
    var n := |order|;
    var o := DropLast(order);
    assert o == order[..n - 1];
    forall i | 0 <= i < |d.0.tree.nodes| && i in o && i != order[j] ensures KeyAt(d.0, i) == KeyAt(s, i) {
      var k :| 0 <= k < |o| && o[k] == i;
      assert Earlier(order, k, n - 1);
    }
  }

  /**
   * The first steps of removeMin and remove as written (MyHeap.java:151-153,
   * 176-179) on a valid heap, for the node numbered j + 1: its entry goes
   * to the last node, which is removed and returned; the last entry takes
   * its place, where it is not told its position, and the tree keeps its
   * shape but, as RemoveLast does, not necessarily its deque.
   */
  lemma {:induction false} TakeLastTook<V>(s: HeapState<V>, order: seq<int>, j: int)
    requires Fit(s) && Frontier(s.tree, order) && 0 <= j < |order|
    ensures s.tree.line != [] && s.tree.line[|s.tree.line| - 1] == order[|order| - 1]
    ensures var d := TakeLast(s, order[j], order[|order| - 1]);
            && TookLast(s, order, j, d) && d.0.entries == s.entries
            && LevelOrder(d.0.tree, DropLast(order))
  {
    var p, v := order[j], order[|order| - 1];
    TakeLastNodes(s, p, v);
    TakeLastResult(s, order, j);
    TakeLastOrder(s, order, j);
    assert Links(Swap(s, p, v).tree.nodes)[p] == Links(s.tree.nodes)[p];
  }

  /** Those entries of the heap that are neither handed back nor moved still record their nodes. */
  lemma {:induction false} TakeLastLocated<V>(s: HeapState<V>, order: seq<int>, j: int)
    requires Fit(s) && InArena(s.tree, order) && Ascending(order) && Located(s, order) && 0 <= j < |order|
    ensures var d := TakeLast(s, order[j], order[|order| - 1]);
            forall k :: 0 <= k < |order| - 1 && k != j ==> PosAt(d.0, order[k])
  {
    var n, p, v := |order|, order[j], order[|order| - 1];
    TakeLastNodes(s, p, v);
    var d := TakeLast(s, p, v);
    forall k | 0 <= k < n - 1 && k != j ensures PosAt(d.0, order[k]) {
      assert Earlier(order, k, n - 1);
      if k < j {
        assert Earlier(order, k, j);
      } else {
        assert Earlier(order, j, k);
      }
      assert PosAt(s, order[k]);
    }
  }

  /** How the first steps of removeMin and remove unfold. */
  lemma {:induction false} TakeLastUnfold<V>(s: HeapState<V>, a: int, b: int)
    requires Fit(s) && 0 <= a < |s.tree.nodes| && 0 <= b < |s.tree.nodes|
    ensures var d := RemoveLast(Swap(s, a, b).tree);
            TakeLast(s, a, b) == (HeapState(d.0, s.entries, if d.1.Ok? then s.size - 1 else s.size), d.1)
  {
  }

  /** Node by node, the first steps of removeMin and remove only swap two payloads and cut links. */
  lemma {:induction false} TakeLastNodes<V>(s: HeapState<V>, a: int, b: int)
    requires Fit(s) && 0 <= a < |s.tree.nodes| && 0 <= b < |s.tree.nodes|
    ensures var d := TakeLast(s, a, b);
            && d.0.entries == s.entries && |d.0.tree.nodes| == |s.tree.nodes|
            && Pruned(d.0.tree.nodes, s.tree.nodes)
            && SameElemsAndParents(d.0.tree.nodes, Swap(s, a, b).tree.nodes)
  {
    var s1 := Swap(s, a, b);
    TakeLastUnfold(s, a, b);
    var d := TakeLast(s, a, b);
    forall i | 0 <= i < |s.tree.nodes|
      ensures (d.0.tree.nodes[i].left == s.tree.nodes[i].left || d.0.tree.nodes[i].left == -1)
      ensures (d.0.tree.nodes[i].right == s.tree.nodes[i].right || d.0.tree.nodes[i].right == -1)
    {
      assert Links(s1.tree.nodes)[i] == Links(s.tree.nodes)[i];
    }
  }

  /** A swap keeps the shape and the deque. */
  lemma {:induction false} SwapFrontier<V>(s: HeapState<V>, order: seq<int>, a: int, b: int)
    requires Fit(s) && Frontier(s.tree, order) && 0 <= a < |s.tree.nodes| && 0 <= b < |s.tree.nodes|
    ensures Frontier(Swap(s, a, b).tree, order)
  {
    RearrangedKeepsLevelOrder(s, Swap(s, a, b), order);
  }

  /** removeMin and remove take out the last node, and hand back the entry moved into it. */
  lemma {:induction false} TakeLastResult<V>(s: HeapState<V>, order: seq<int>, j: int)
    requires Fit(s) && Frontier(s.tree, order) && 0 <= j < |order|
    ensures s.tree.line != [] && s.tree.line[|s.tree.line| - 1] == order[|order| - 1]
    ensures var d := TakeLast(s, order[j], order[|order| - 1]);
            d.1 == Ok(s.tree.nodes[order[j]].elem) && d.0.size == s.size - 1 && d.0.tree.count == s.tree.count - 1
  {
    var p, v := order[j], order[|order| - 1];
    FrontierLastAtBack(s.tree, order);
    SwapFrontier(s, order, p, v);
    var t := Swap(s, p, v).tree;
    FrontierLastAtBack(t, order);
    RemoveTakesLast(t, order);
    TakeLastUnfold(s, p, v);
  }

  /** After the first steps of removeMin and remove the tree is complete, one node short. */
  lemma {:induction false} TakeLastOrder<V>(s: HeapState<V>, order: seq<int>, j: int)
    requires Fit(s) && Frontier(s.tree, order) && 0 <= j < |order|
    ensures LevelOrder(TakeLast(s, order[j], order[|order| - 1]).0.tree, DropLast(order))
  {
    var p, v := order[j], order[|order| - 1];
    SwapFrontier(s, order, p, v);
    var t := Swap(s, p, v).tree;
    FrontierLastAtBack(t, order);
    RemoveKeepsLevelOrder(t, order);
    TakeLastUnfold(s, p, v);
  }

  lemma {:induction false} RemoveTakesLast<E>(t: Tree<E>, order: seq<int>)
    requires LevelOrder(t, order) && LastAtBack(t, order)
    ensures RemoveLast(t).1 == Ok(t.nodes[order[|order| - 1]].elem)
  {
    RemoveKeepsLevelOrder(t, order);
  }

  /**
   * The first steps of removeMin and remove as evidently intended, on a
   * valid heap: as TakeLastTook, but both entries are told where they
   * now are, and the tree keeps its deque, so the heap stays located and
   * keeps its frontier.
   */
  lemma {:induction false} TakeIntendedTook<V>(s: HeapState<V>, order: seq<int>, j: int)
    requires Fit(s) && Frontier(s.tree, order) && Located(s, order) && 0 <= j < |order|
    ensures s.tree.line != [] && s.tree.line[|s.tree.line| - 1] == order[|order| - 1]
    ensures var d := TakeLastIntended(s, order[j], order[|order| - 1]);
            && TookLast(s, order, j, d)
            && Frontier(d.0.tree, DropLast(order)) && Located(d.0, DropLast(order))
  {
    FrontierLastAtBack(s.tree, order);
    TakeIntendedTookLast(s, order, j);
    TakeIntendedResult(s, order, j);
    TakeIntendedLocated(s, order, j);
  }

  lemma {:induction false} TakeIntendedTookLast<V>(s: HeapState<V>, order: seq<int>, j: int)
    requires Fit(s) && Frontier(s.tree, order) && 0 <= j < |order|
    ensures TookLast(s, order, j, TakeLastIntended(s, order[j], order[|order| - 1]))
  {
    var p, v := order[j], order[|order| - 1];
    TakeIntendedNodes(s, p, v);
    TakeIntendedResult(s, order, j);
    assert Links(Exchange(s, p, v).tree.nodes)[p] == Links(s.tree.nodes)[p];
  }

  /** How the intended first steps of removeMin and remove unfold. */
  lemma {:induction false} TakeIntendedUnfold<V>(s: HeapState<V>, a: int, b: int)
    requires Fit(s) && 0 <= a < |s.tree.nodes| && 0 <= b < |s.tree.nodes|
    ensures var s1 := Exchange(s, a, b);
            var d := RemoveIntended(s1.tree);
            TakeLastIntended(s, a, b) == (HeapState(d.0, s1.entries, if d.1.Ok? then s.size - 1 else s.size), d.1)
  {
  }

  /** Node by node, the intended first steps only exchange two entries and cut links. */
  lemma {:induction false} TakeIntendedNodes<V>(s: HeapState<V>, a: int, b: int)
    requires Fit(s) && 0 <= a < |s.tree.nodes| && 0 <= b < |s.tree.nodes|
    ensures var d, s1 := TakeLastIntended(s, a, b), Exchange(s, a, b);
            && d.0.entries == s1.entries && |d.0.tree.nodes| == |s.tree.nodes|
            && Pruned(d.0.tree.nodes, s.tree.nodes)
            && SameElemsAndParents(d.0.tree.nodes, s1.tree.nodes)
  {
    var s1 := Exchange(s, a, b);
    TakeIntendedUnfold(s, a, b);
    var d := TakeLastIntended(s, a, b);
    forall i | 0 <= i < |s.tree.nodes|
      ensures (d.0.tree.nodes[i].left == s.tree.nodes[i].left || d.0.tree.nodes[i].left == -1)
      ensures (d.0.tree.nodes[i].right == s.tree.nodes[i].right || d.0.tree.nodes[i].right == -1)
    {
      assert Links(s1.tree.nodes)[i] == Links(s.tree.nodes)[i];
    }
  }

  /** An exchange keeps the shape and the deque. */
  lemma {:induction false} ExchangeFrontier<V>(s: HeapState<V>, order: seq<int>, a: int, b: int)
    requires Fit(s) && Frontier(s.tree, order) && 0 <= a < |s.tree.nodes| && 0 <= b < |s.tree.nodes|
    ensures Frontier(Exchange(s, a, b).tree, order)
  {
    RearrangedKeepsLevelOrder(s, Exchange(s, a, b), order);
  }

  /** The intended first steps take out the last node, hand back its entry, and keep the frontier. */
  lemma {:induction false} TakeIntendedResult<V>(s: HeapState<V>, order: seq<int>, j: int)
    requires Fit(s) && Frontier(s.tree, order) && 0 <= j < |order|
    ensures var d := TakeLastIntended(s, order[j], order[|order| - 1]);
            && d.1 == Ok(s.tree.nodes[order[j]].elem) && d.0.size == s.size - 1 && d.0.tree.count == s.tree.count - 1
            && Frontier(d.0.tree, DropLast(order))
  {
    var p, v := order[j], order[|order| - 1];
    ExchangeFrontier(s, order, p, v);
    RemoveIntendedKeepsFrontier(Exchange(s, p, v).tree, order);
    TakeIntendedUnfold(s, p, v);
  }

  /** The intended first steps leave every entry still in the heap located. */
  lemma {:induction false} TakeIntendedLocated<V>(s: HeapState<V>, order: seq<int>, j: int)
    requires Fit(s) && LevelOrder(s.tree, order) && Located(s, order) && 0 <= j < |order|
    ensures InArena(TakeLastIntended(s, order[j], order[|order| - 1]).0.tree, DropLast(order))
    ensures Located(TakeLastIntended(s, order[j], order[|order| - 1]).0, DropLast(order))
  {
    var n, p, v := |order|, order[j], order[|order| - 1];
    ExchangeLocated(s, order, j, n - 1);
    TakeIntendedNodes(s, p, v);
    var d := TakeLastIntended(s, p, v);
    var o := DropLast(order);
    assert o == order[..n - 1];
    forall k | 0 <= k < n - 1 ensures PosAt(d.0, o[k]) {
      assert o[k] == order[k];
    }
  }

  /** downHeap from a hole of a complete tree restores heap order, and keeps the shape and the entries held. */
  lemma {:induction false} SiftsDown<V>(r: HeapState<V>, o: seq<int>, k: int)
    requires LevelOrder(r.tree, o) && 0 <= k < |o| && DownHole(r, o[k])
    ensures var dd := DownSpec(r, o[k]);
            && dd.1 == Pass && HeapOrdered(dd.0) && LevelOrder(dd.0.tree, o) && Shuffled(r, dd.0, o)
  {
    LevelOrderLeftFirst(r.tree, o);
    DownRestores(r, o[k]);
    DownKeeps(r, o, k);
    RearrangedKeepsLevelOrder(r, DownSpec(r, o[k]).0, o);
  }

  /** upHeap from a hole of a complete tree restores heap order, and keeps the shape and the entries held. */
  lemma {:induction false} SiftsUp<V>(r: HeapState<V>, o: seq<int>, k: int)
    requires LevelOrder(r.tree, o) && 0 <= k < |o| && UpHole(r, o[k])
    ensures var u := UpSpec(r, o[k], KeyAt(r, o[k]));
            && u.1 == Pass && HeapOrdered(u.0) && LevelOrder(u.0.tree, o) && Shuffled(r, u.0, o)
  {
    UpRestores(r, o, k, KeyAt(r, o[k]));
    UpKeeps(r, o, k, KeyAt(r, o[k]));
    RearrangedKeepsLevelOrder(r, UpSpec(r, o[k], KeyAt(r, o[k])).0, o);
  }

  /**
   * r is what is left of the valid heap s (nodes listed by order) once
   * the entry h is removed: the tree is complete on the nodes but the
   * last, node_num agrees with the tree's count, the heap holds the other
   * entries, and no key or value changed.
   */
  ghost predicate Remains<V>(s: HeapState<V>, order: seq<int>, h: int, r: HeapState<V>)
    requires Fit(s) && InArena(s.tree, order)
  {
    var o := DropLast(order);
    && Fit(r) && LevelOrder(r.tree, o) && r.size == r.tree.count
    && |r.tree.nodes| == |s.tree.nodes| && |r.entries| == |s.entries|
    && multiset(Held(r, o)) == multiset(Held(s, order)) - multiset{h}
    && forall e :: 0 <= e < |s.entries| ==>
         r.entries[e].key == s.entries[e].key && r.entries[e].value == s.entries[e].value
  }

  /** downHeap from a hole of a valid-but-for-the-hole heap leaves a valid heap with the same entries. */
  lemma {:induction false} SiftsDownValid<V>(r: HeapState<V>, o: seq<int>, k: int)
    requires Fit(r) && Frontier(r.tree, o) && Located(r, o) && r.size == r.tree.count
    requires 0 <= k < |o| && DownHole(r, o[k])
    ensures var dd := DownSpec(r, o[k]);
            && dd.1 == Pass && Valid(dd.0, o) && multiset(Held(dd.0, o)) == multiset(Held(r, o))
            && forall h :: 0 <= h < |r.entries| ==>
                 dd.0.entries[h].key == r.entries[h].key && dd.0.entries[h].value == r.entries[h].value
  {
    SiftsDown(r, o, k);
  }

  /** upHeap from a hole of a valid-but-for-the-hole heap leaves a valid heap with the same entries. */
  lemma {:induction false} SiftsUpValid<V>(r: HeapState<V>, o: seq<int>, k: int)
    requires Fit(r) && Frontier(r.tree, o) && Located(r, o) && r.size == r.tree.count
    requires 0 <= k < |o| && UpHole(r, o[k])
    ensures var u := UpSpec(r, o[k], KeyAt(r, o[k]));
            && u.1 == Pass && Valid(u.0, o) && multiset(Held(u.0, o)) == multiset(Held(r, o))
            && forall h :: 0 <= h < |r.entries| ==>
                 u.0.entries[h].key == r.entries[h].key && u.0.entries[h].value == r.entries[h].value
  {
    SiftsUp(r, o, k);
  }

  /**
   * The first steps of removeMin and remove as written, for the entry at
   * the node numbered j + 1 of a valid heap: that entry is handed back
   * and the rest remains.
   */
  lemma {:induction false} TakenAsWritten<V>(s: HeapState<V>, order: seq<int>, j: int)
    requires Valid(s, order) && 0 <= j < |order|
    ensures s.tree.line != [] && s.tree.line[|s.tree.line| - 1] == order[|order| - 1]
    ensures var q := Held(s, order);
            var d := TakeLast(s, order[j], order[|order| - 1]);
            d.1 == Ok(q[j]) && d.0.entries == s.entries && Remains(s, order, q[j], d.0)
  {
    TakeLastTook(s, order, j);
    TookHeld(s, order, j, TakeLast(s, order[j], order[|order| - 1]));
  }

  /**
   * After those first steps, when the node freed is the last, nothing is
   * out of order and downHeap there does nothing.
   */
  lemma {:induction false} TakenLast<V>(s: HeapState<V>, order: seq<int>)
    requires Valid(s, order) && |order| > 0
    ensures var v := order[|order| - 1];
            var d := TakeLast(s, v, v);
            DownSpec(d.0, v) == (d.0, Pass) && HeapOrdered(d.0)
  {
    var n := |order|;
    TakeLastTook(s, order, n - 1);
    var d := TakeLast(s, order[n - 1], order[n - 1]);
    TookRekeyed(s, order, n - 1, d);
    RemoveLastNode(s, d.0, order);
  }

  /**
   * After those first steps, when the node freed is not the last, heap
   * order can only fail below it if it is the root or the entry moved in
   * is no smaller than its new parent.
   */
  lemma {:induction false} TakenHole<V>(s: HeapState<V>, order: seq<int>, j: int)
    requires Valid(s, order) && 0 <= j < |order| - 1
    ensures var n, p := |order|, order[j];
            var d := TakeLast(s, p, order[n - 1]);
            j == 0 || KeyAt(s, order[(j - 1) / 2]) <= KeyAt(s, order[n - 1]) ==> DownHole(d.0, p)
  {
    TakeLastTook(s, order, j);
    var d := TakeLast(s, order[j], order[|order| - 1]);
    TookRekeyed(s, order, j, d);
    TookDownHole(s, order, j, d.0);
  }

  /** When the entry removed sat in the last node, the node left behind is a detached leaf and nothing moves. */
  lemma {:induction false} RemoveLastNode<V>(s: HeapState<V>, r: HeapState<V>, order: seq<int>)
    requires Valid(s, order) && |order| > 0 && LevelOrder(r.tree, DropLast(order))
    requires Rekeyed(s, r, DropLast(order), order[|order| - 1])
    requires KeyAt(r, order[|order| - 1]) == KeyAt(s, order[|order| - 1])
    ensures var p := order[|order| - 1];
            && r.tree.nodes[p].left == -1 && r.tree.nodes[p].right == -1
            && DownSpec(r, p) == (r, Pass) && HeapOrdered(r)
  {
    var n, o := |order|, DropLast(order);
    var p := order[n - 1];
    assert o == order[..n - 1];
    forall k | 0 <= k < |o| ensures o[k] != p {
      assert Earlier(order, k, n - 1);
    }
    RekeyedDown(s, r, o, p);
    DownHoleClosed(r, p);
  }

  /**
   * The entry moved by remove into the node numbered j + 1 (not the last)
   * leaves at most a hole below it when it lands at the root, or when its
   * key is no smaller than its new parent's.
   */
  lemma {:induction false} TookDownHole<V>(s: HeapState<V>, order: seq<int>, j: int, r: HeapState<V>)
    requires Valid(s, order) && 0 <= j < |order| - 1
    requires LevelOrder(r.tree, DropLast(order)) && Rekeyed(s, r, DropLast(order), order[j])
    requires KeyAt(r, order[j]) == KeyAt(s, order[|order| - 1])
    requires r.tree.nodes[order[j]].parent == s.tree.nodes[order[j]].parent
    ensures j == 0 || KeyAt(s, order[(j - 1) / 2]) <= KeyAt(s, order[|order| - 1]) ==> DownHole(r, order[j])
  {
    var n, o, p := |order|, DropLast(order), order[j];
    assert NodeAt(s.tree, order, j);
    if j == 0 {
      RekeyedDown(s, r, o, p);
    } else if KeyAt(s, order[(j - 1) / 2]) <= KeyAt(s, order[n - 1]) {
      var g := order[(j - 1) / 2];
      assert Earlier(order, (j - 1) / 2, j) && Earlier(order, (j - 1) / 2, n - 1);
      assert o[(j - 1) / 2] == g;
      RekeyedDown(s, r, o, p);
    }
  }

  /**
   * The last steps of remove as written, for the entry moved into the
   * node numbered k + 1: downHeap from there when more than one node is
   * left.  What remains of s still remains, and heap order is restored
   * when the only disorder was below that node.
   */
  lemma {:induction false} SiftTail<V>(s: HeapState<V>, order: seq<int>, h: int, r: HeapState<V>, k: int)
    requires Fit(s) && InArena(s.tree, order) && Remains(s, order, h, r) && 0 <= k < |order|
    requires k == |order| - 1 ==> DownSpec(r, order[k]) == (r, Pass) && HeapOrdered(r)
    ensures var p := order[k];
            var x := if r.tree.count > 1 then (DownSpec(r, p).0, After(DownSpec(r, p).1, h))
                     else (r, Returns(h));
            && x.1 == Returns(h) && Remains(s, order, h, x.0)
            && (DownHole(r, p) ==> HeapOrdered(x.0))
  {
    var o, p := DropLast(order), order[k];
    if k == |order| - 1 {
      return;
    }
    assert o[k] == p;
    if r.tree.count > 1 {
      DownKeeps(r, o, k);
      RearrangedKeepsLevelOrder(r, DownSpec(r, p).0, o);
      if DownHole(r, p) {
        SiftsDown(r, o, k);
      }
    } else {
      assert NodeAt(r.tree, o, k);
      if DownHole(r, p) {
        DownHoleClosed(r, p);
      }
    }
  }

  /**
   * removeMin and remove as written, from the node numbered j + 1 of a
   * valid heap, once they have given up the last node: the entry of that
   * node is returned and the rest remains, heap-ordered when the node
   * freed is the root or the last, or the entry moved into it is no
   * smaller than its new parent.
   */
  lemma {:induction false} RemoveTail<V>(s: HeapState<V>, order: seq<int>, j: int)
    requires Valid(s, order) && 0 <= j < |order|
    ensures var n, p, h := |order|, order[j], Held(s, order)[j];
            var r := TakeLast(s, p, order[n - 1]).0;
            var x := if r.tree.count > 1 then (DownSpec(r, p).0, After(DownSpec(r, p).1, h)) else (r, Returns(h));
            && x.1 == Returns(h) && Remains(s, order, h, x.0)
            && (j == 0 || j == n - 1 || KeyAt(s, order[(j - 1) / 2]) <= KeyAt(s, order[n - 1]) ==> HeapOrdered(x.0))
  {
    TakenAsWritten(s, order, j);
    if j == |order| - 1 {
      TakenLast(s, order);
    } else {
      TakenHole(s, order, j);
    }
    SiftTail(s, order, Held(s, order)[j], TakeLast(s, order[j], order[|order| - 1]).0, j);
  }

  /** How removeMin as written unfolds on a heap with a frontier. */
  lemma {:induction false} RemoveMinUnfold<V>(s: HeapState<V>, order: seq<int>)
    requires Fit(s) && Frontier(s.tree, order) && s.size == s.tree.count && s.tree.count > 0
    ensures var d := TakeLast(s, order[0], order[|order| - 1]);
            var h := s.tree.nodes[order[0]].elem;
            RemoveMinSpec(s) ==
              if d.0.tree.count > 1 then (DownSpec(d.0, order[0]).0, After(DownSpec(d.0, order[0]).1, h))
              else (d.0, Returns(h))
  {
    TakeLastTook(s, order, 0);
    var d := TakeLast(s, order[0], order[|order| - 1]);
    assert s.tree.root == order[0];
    assert d.1 == Ok(s.tree.nodes[order[0]].elem);
    assert d.0.tree.count == |order| - 1 == d.0.size;
    if d.0.tree.count > 1 {
      assert DropLast(order)[0] == order[0];
      assert d.0.tree.root == order[0];
    }
  }

  /** How remove(entry) as written unfolds for an entry that records its node p. */
  lemma {:induction false} RemoveUnfold<V>(s: HeapState<V>, h: int, p: int, v: int)
    requires Fit(s) && 0 <= h < |s.entries| && s.tree.count > 0 && s.entries[h].pos == p
    requires s.tree.line != [] && s.tree.line[|s.tree.line| - 1] == v && 0 <= v < |s.tree.nodes|
    requires var d := TakeLast(s, p, v); d.1 == Ok(h) && d.0.entries == s.entries
    ensures var d := TakeLast(s, p, v);
            RemoveSpec(s, Entry(h)) ==
              if d.0.tree.count > 1 then (DownSpec(d.0, p).0, After(DownSpec(d.0, p).1, h))
              else (d.0, Returns(h))
  {
    var d := TakeLast(s, p, v);
    assert d.0.(entries := s.entries[h := s.entries[h].(pos := s.entries[h].pos)]) == d.0;
  }

  /** How remove(entry) as written unfolds for the entry at the node numbered j + 1 of a valid heap. */
  lemma {:induction false} RemoveUnfoldAt<V>(s: HeapState<V>, order: seq<int>, j: int)
    requires Valid(s, order) && 0 <= j < |order|
    ensures var p, h := order[j], Held(s, order)[j];
            var d := TakeLast(s, p, order[|order| - 1]);
            RemoveSpec(s, Entry(h)) ==
              if d.0.tree.count > 1 then (DownSpec(d.0, p).0, After(DownSpec(d.0, p).1, h))
              else (d.0, Returns(h))
  {
    var p := order[j];
    TakeLastTook(s, order, j);
    assert PosAt(s, p);
    RemoveUnfold(s, Held(s, order)[j], p, order[|order| - 1]);
  }

  /**
   * removeMin(), MyHeap.java:145-161, as written, on a non-empty valid
   * heap: it returns the entry with the least key, and leaves the tree
   * complete and heap-ordered, holding the other entries, with keys and
   * values untouched.  It does not keep every entry located (the entry
   * moved to the root may keep a stale position; see HeapScenarios), and
   * the tree loses its frontier (see TreeShape.RemoveLastLosesFrontier).
   */
  lemma {:induction false} RemoveMinAsWritten<V>(s: HeapState<V>, order: seq<int>)
    requires Valid(s, order) && s.tree.count > 0
    ensures var r, q := RemoveMinSpec(s), Held(s, order);
            && r.1 == Returns(q[0])
            && (forall h :: h in q ==> s.entries[q[0]].key <= s.entries[h].key)
            && Remains(s, order, q[0], r.0) && HeapOrdered(r.0)
  {
    MinIsLeast(s, order);
    RemoveMinUnfold(s, order);
    RemoveTail(s, order, 0);
  }

  /**
   * remove(entry), MyHeap.java:171-186, as written, for the entry at the
   * node numbered j + 1 of a valid heap: it returns that entry, and what
   * is left holds the other entries in a complete tree, with keys and
   * values untouched.  Heap order is restored only when the node freed is
   * the root or the last, or the entry moved into it has a key no smaller
   * than its new parent's: remove never sifts up (see HeapScenarios).
   */
  lemma {:induction false} RemoveAsWritten<V>(s: HeapState<V>, order: seq<int>, j: int)
    requires Valid(s, order) && 0 <= j < |order|
    ensures var q := Held(s, order);
            var r := RemoveSpec(s, Entry(q[j]));
            && r.1 == Returns(q[j]) && Remains(s, order, q[j], r.0)
            && (j == 0 || j == |order| - 1 || KeyAt(s, order[(j - 1) / 2]) <= KeyAt(s, order[|order| - 1]) ==>
                  HeapOrdered(r.0))
  {
    RemoveUnfoldAt(s, order, j);
    RemoveTail(s, order, j);
  }

  /**
   * The first steps of removeMin and remove as evidently intended, for the
   * entry at the node numbered j + 1 of a valid heap: that entry is handed
   * back, the rest remains with its frontier and every entry located, only
   * the key at the node freed changed, and that node is a hole of the
   * heap order when it is the root.
   */
  lemma {:induction false} TakenIntended<V>(s: HeapState<V>, order: seq<int>, j: int)
    requires Valid(s, order) && 0 <= j < |order|
    ensures s.tree.line != [] && s.tree.line[|s.tree.line| - 1] == order[|order| - 1]
    ensures var n, q, p, o := |order|, Held(s, order), order[j], DropLast(order);
            var d := TakeLastIntended(s, p, order[n - 1]);
            && d.1 == Ok(q[j]) && Remains(s, order, q[j], d.0)
            && Tracked(d.0, o)
            && (j == n - 1 ==> HeapOrdered(d.0))
            && (j < n - 1 ==> Rekeyed(s, d.0, o, p))
            && (j == 0 && n > 1 ==> DownHole(d.0, p))
  {
    var n, p, v, o := |order|, order[j], order[|order| - 1], DropLast(order);
    TakeIntendedTook(s, order, j);
    var d := TakeLastIntended(s, p, v);
    TookHeld(s, order, j, d);
    TookRekeyed(s, order, j, d);
    if j == n - 1 {
      RemoveLastNode(s, d.0, order);
    }
    if j == 0 && n > 1 {
      assert NodeAt(s.tree, order, 0);
      RekeyedDown(s, d.0, o, p);
    }
  }

  /**
   * The entry moved by remove into the node numbered j + 1 (not the last)
   * leaves at most a hole above it when its key is smaller than its new
   * parent's: it is then also smaller than the key of the entry removed.
   */
  lemma {:induction false} TookUpHole<V>(s: HeapState<V>, order: seq<int>, j: int, r: HeapState<V>)
    requires Valid(s, order) && 0 <= j < |order| - 1
    requires LevelOrder(r.tree, DropLast(order)) && Rekeyed(s, r, DropLast(order), order[j])
    requires var g := r.tree.nodes[order[j]].parent; 0 <= g < |r.tree.nodes| && KeyAt(r, order[j]) < KeyAt(r, g)
    ensures UpHole(r, order[j])
  {
    var o, p := DropLast(order), order[j];
    var g := r.tree.nodes[p].parent;
    assert o[j] == p;
    ParentInOrder(r.tree, o, p);
    assert LinksOK(r.tree.nodes, p);
    assert NodeOrdered(s, g);
    RekeyedUp(s, r, o, p);
  }

  /** How removeMin as evidently intended unfolds on a heap with a frontier. */
  lemma {:induction false} RemoveMinIntendedUnfold<V>(s: HeapState<V>, order: seq<int>)
    requires Fit(s) && Frontier(s.tree, order) && s.tree.count > 0
    ensures var d := TakeLastIntended(s, order[0], order[|order| - 1]);
            RemoveMinIntended(s) ==
              if d.0.tree.count > 1 then
                (DownSpec(d.0, order[0]).0, After(DownSpec(d.0, order[0]).1, s.tree.nodes[order[0]].elem))
              else (d.0, Returns(s.tree.nodes[order[0]].elem))
  {
    FrontierLastAtBack(s.tree, order);
    TakeIntendedResult(s, order, 0);
    TakeIntendedNodes(s, order[0], order[|order| - 1]);
  }

  /** How remove(entry) as evidently intended unfolds for an entry that records its node p. */
  lemma {:induction false} RemoveIntendedUnfold<V>(s: HeapState<V>, h: int, p: int, v: int)
    requires Fit(s) && 0 <= h < |s.entries| && s.tree.count > 0 && s.entries[h].pos == p
    requires s.tree.line != [] && s.tree.line[|s.tree.line| - 1] == v && 0 <= v < |s.tree.nodes|
    requires TakeLastIntended(s, p, v).1 == Ok(h)
    ensures var d := TakeLastIntended(s, p, v);
            var g := d.0.tree.nodes[p].parent;
            && (g != -1 ==> 0 <= g < |d.0.tree.nodes|)
            && RemoveEntryIntended(s, Entry(h)) ==
                 if p == v then (d.0, Returns(h))
                 else if g != -1 && KeyAt(d.0, p) < KeyAt(d.0, g) then
                   (UpSpec(d.0, p, KeyAt(d.0, p)).0, After(UpSpec(d.0, p, KeyAt(d.0, p)).1, h))
                 else (DownSpec(d.0, p).0, After(DownSpec(d.0, p).1, h))
  {
    assert LinksOK(TakeLastIntended(s, p, v).0.tree.nodes, p);
  }

  /**
   * The last steps of removeMin as evidently intended: downHeap from the
   * root when more than one node is left.  What remains of s still
   * remains, now as a valid heap.
   */
  lemma {:induction false} SiftRoot<V>(s: HeapState<V>, order: seq<int>, h: int, r: HeapState<V>)
    requires Fit(s) && InArena(s.tree, order) && |order| > 0 && Remains(s, order, h, r)
    requires Tracked(r, DropLast(order))
    requires |order| > 1 ==> DownHole(r, order[0])
    ensures var p := order[0];
            var x := if r.tree.count > 1 then (DownSpec(r, p).0, After(DownSpec(r, p).1, h))
                     else (r, Returns(h));
            && x.1 == Returns(h) && Remains(s, order, h, x.0) && Valid(x.0, DropLast(order))
  {
    var o, p := DropLast(order), order[0];
    if |o| > 0 {
      assert o[0] == p;
    }
    if r.tree.count > 1 {
      SiftsDownValid(r, o, 0);
    } else if |o| == 1 {
      assert NodeAt(r.tree, o, 0);
      DownHoleClosed(r, p);
    } else {
      forall i | 0 <= i < |r.tree.nodes| ensures NodeOrdered(r, i) {
        assert IsLeaf(r.tree.nodes[i]);
      }
    }
  }

  /**
   * The last steps of remove as evidently intended, for the entry moved
   * into the node numbered j + 1 (not the last): upHeap from there when
   * its key is smaller than its parent's, downHeap otherwise.  Either way
   * what remains of s is a valid heap again.
   */
  lemma {:induction false} RestoreMoved<V>(s: HeapState<V>, order: seq<int>, j: int, r: HeapState<V>, h: int)
    requires Valid(s, order) && 0 <= j < |order| - 1 && Remains(s, order, h, r)
    requires Tracked(r, DropLast(order))
    requires Rekeyed(s, r, DropLast(order), order[j])
    requires var g := r.tree.nodes[order[j]].parent; g != -1 ==> 0 <= g < |r.tree.nodes|
    ensures var p := order[j];
            var g := r.tree.nodes[p].parent;
            var x := if g != -1 && KeyAt(r, p) < KeyAt(r, g) then
                       (UpSpec(r, p, KeyAt(r, p)).0, After(UpSpec(r, p, KeyAt(r, p)).1, h))
                     else (DownSpec(r, p).0, After(DownSpec(r, p).1, h));
            && x.1 == Returns(h) && Remains(s, order, h, x.0) && Valid(x.0, DropLast(order))
  {
    var p, o := order[j], DropLast(order);
    var g := r.tree.nodes[p].parent;
    assert o[j] == p;
    if g != -1 && KeyAt(r, p) < KeyAt(r, g) {
      TookUpHole(s, order, j, r);
      SiftsUpValid(r, o, j);
    } else {
      RekeyedDown(s, r, o, p);
      SiftsDownValid(r, o, j);
    }
  }

  /**
   * removeMin() as evidently intended, on a non-empty valid heap: it
   * returns the entry with the least key and leaves a valid heap of the
   * other entries, with keys and values untouched.
   */
  lemma {:induction false} RemoveMinIntendedKeeps<V>(s: HeapState<V>, order: seq<int>)
    requires Valid(s, order) && s.tree.count > 0
    ensures var r, q := RemoveMinIntended(s), Held(s, order);
            && r.1 == Returns(q[0])
            && (forall h :: h in q ==> s.entries[q[0]].key <= s.entries[h].key)
            && Remains(s, order, q[0], r.0) && Valid(r.0, DropLast(order))
  {
    var q := Held(s, order);
    TakenIntended(s, order, 0);
    MinIsLeast(s, order);
    RemoveMinIntendedUnfold(s, order);
    SiftRoot(s, order, q[0], TakeLastIntended(s, order[0], order[|order| - 1]).0);
  }

  /**
   * remove(entry) as evidently intended, for the entry at the node
   * numbered j + 1 of a valid heap: it returns that entry and leaves a
   * valid heap of the other entries, with keys and values untouched.
   */
  lemma {:induction false} RemoveIntendedKeeps<V>(s: HeapState<V>, order: seq<int>, j: int)
    requires Valid(s, order) && 0 <= j < |order|
    ensures var q := Held(s, order);
            var r := RemoveEntryIntended(s, Entry(q[j]));
            && r.1 == Returns(q[j]) && Remains(s, order, q[j], r.0) && Valid(r.0, DropLast(order))
  {
    RemoveIntendedUnfoldAt(s, order, j);
    if j == |order| - 1 {
      RestoreLastAt(s, order);
    } else {
      assert Earlier(order, j, |order| - 1);
      RestoreMovedAt(s, order, j);
    }
  }

  /** How remove(entry) as evidently intended unfolds for the entry at the node numbered j + 1 of a valid heap. */
  lemma {:induction false} RemoveIntendedUnfoldAt<V>(s: HeapState<V>, order: seq<int>, j: int)
    requires Valid(s, order) && 0 <= j < |order|
    ensures var p, v := order[j], order[|order| - 1];
            var r := TakeLastIntended(s, p, v).0;
            var g := r.tree.nodes[p].parent;
            g != -1 ==> 0 <= g < |r.tree.nodes|
    ensures var p, v, h := order[j], order[|order| - 1], Held(s, order)[j];
            var r := TakeLastIntended(s, p, v).0;
            var g := r.tree.nodes[p].parent;
            RemoveEntryIntended(s, Entry(h)) ==
              if p == v then (r, Returns(h))
              else if g != -1 && KeyAt(r, p) < KeyAt(r, g) then
                (UpSpec(r, p, KeyAt(r, p)).0, After(UpSpec(r, p, KeyAt(r, p)).1, h))
              else (DownSpec(r, p).0, After(DownSpec(r, p).1, h))
  {
    var p, v := order[j], order[|order| - 1];
    TakeIntendedOk(s, order, j);
    assert PosAt(s, p);
    RemoveIntendedUnfold(s, Held(s, order)[j], p, v);
  }

  /** The intended first steps of remove hand back the entry of the node freed. */
  lemma {:induction false} TakeIntendedOk<V>(s: HeapState<V>, order: seq<int>, j: int)
    requires Fit(s) && Frontier(s.tree, order) && 0 <= j < |order|
    ensures s.tree.line != [] && s.tree.line[|s.tree.line| - 1] == order[|order| - 1]
    ensures TakeLastIntended(s, order[j], order[|order| - 1]).1 == Ok(s.tree.nodes[order[j]].elem)
  {
    FrontierLastAtBack(s.tree, order);
    TakeIntendedResult(s, order, j);
  }

  /** When the entry removed by remove as evidently intended sat in the last node, what remains is a valid heap. */
  lemma {:induction false} RestoreLastAt<V>(s: HeapState<V>, order: seq<int>)
    requires Valid(s, order) && |order| > 0
    ensures var v, h := order[|order| - 1], Held(s, order)[|order| - 1];
            var r := TakeLastIntended(s, v, v).0;
            Remains(s, order, h, r) && Valid(r, DropLast(order))
  {
    TakenIntended(s, order, |order| - 1);
  }

  /** RestoreMoved, at the node numbered j + 1 of a valid heap once the last node is given up. */
  lemma {:induction false} RestoreMovedAt<V>(s: HeapState<V>, order: seq<int>, j: int)
    requires Valid(s, order) && 0 <= j < |order| - 1
    ensures var p := order[j];
            var r := TakeLastIntended(s, p, order[|order| - 1]).0;
            var g := r.tree.nodes[p].parent;
            g != -1 ==> 0 <= g < |r.tree.nodes|
    ensures var p, h := order[j], Held(s, order)[j];
            var r := TakeLastIntended(s, p, order[|order| - 1]).0;
            var g := r.tree.nodes[p].parent;
            var x := if g != -1 && KeyAt(r, p) < KeyAt(r, g) then
                       (UpSpec(r, p, KeyAt(r, p)).0, After(UpSpec(r, p, KeyAt(r, p)).1, h))
                     else (DownSpec(r, p).0, After(DownSpec(r, p).1, h));
            && x.1 == Returns(h) && Remains(s, order, h, x.0) && Valid(x.0, DropLast(order))
  {
    var p, v := order[j], order[|order| - 1];
    TakenIntended(s, order, j);
    var r := TakeLastIntended(s, p, v).0;
    assert LinksOK(r.tree.nodes, p);
    RestoreMoved(s, order, j, r, Held(s, order)[j]);
  }

  /**
   * replaceKey's first step on an entry of a valid heap: with the key set,
   * the heap is still complete and located, and heap order fails only
   * where the sift that follows repairs it.
   */
  lemma {:induction false} RekeyHole<V>(s: HeapState<V>, order: seq<int>, j: int, k: int)
    requires Valid(s, order) && 0 <= j < |order|
    ensures var h, p := Held(s, order)[j], order[j];
            var s1 := s.(entries := s.entries[h := s.entries[h].(key := k)]);
            && Fit(s1) && Frontier(s1.tree, order) && Located(s1, order) && s1.size == s1.tree.count
            && s1.entries[h].pos == p && KeyAt(s1, p) == k
            && (k == s.entries[h].key ==> s1 == s)
            && (k > s.entries[h].key ==> DownHole(s1, p))
            && (k < s.entries[h].key ==> UpHole(s1, p))
  {
    var h, p := Held(s, order)[j], order[j];
    var s1 := s.(entries := s.entries[h := s.entries[h].(key := k)]);
    assert PosAt(s, p);
    forall i | 0 <= i < |s1.tree.nodes| && i in order && i != p ensures KeyAt(s1, i) == KeyAt(s, i) {
      var m :| 0 <= m < |order| && order[m] == i;
      assert PosAt(s, order[m]);
    }
    assert Rekeyed(s, s1, order, p);
    if k > s.entries[h].key {
      RekeyedDown(s, s1, order, p);
    } else if k < s.entries[h].key {
      RekeyedUp(s, s1, order, p);
    } else {
      assert s1.entries == s.entries;
    }
  }

  /**
   * replaceKey on an entry of a valid heap returns the old key, sets the
   * new one, changes no other key and no value, and leaves a valid heap
   * holding the same entries.
   */
  lemma {:induction false} ReplaceKeyKeeps<V>(s: HeapState<V>, order: seq<int>, j: int, k: int)
    requires Valid(s, order) && 0 <= j < |order|
    ensures var h := Held(s, order)[j];
            var r := ReplaceKeySpec(s, Entry(h), Key(k));
            && r.1 == Returns(s.entries[h].key) && Valid(r.0, order)
            && multiset(Held(r.0, order)) == multiset(Held(s, order))
            && r.0.entries[h].key == k && r.0.entries[h].value == s.entries[h].value
            && forall e :: 0 <= e < |s.entries| && e != h ==>
                 r.0.entries[e].key == s.entries[e].key && r.0.entries[e].value == s.entries[e].value
  {
    var h := Held(s, order)[j];
    RekeyHole(s, order, j, k);
    var s1 := s.(entries := s.entries[h := s.entries[h].(key := k)]);
    if k > s.entries[h].key {
      SiftsDownValid(s1, order, j);
    } else if k < s.entries[h].key {
      SiftsUpValid(s1, order, j);
    }
  }

  /**
   * replaceValue on an entry of a valid heap returns the old value and
   * leaves a valid heap holding the same entries with the same keys.
   */
  lemma {:induction false} ReplaceValueKeeps<V>(s: HeapState<V>, order: seq<int>, j: int, v: V)
    requires Valid(s, order) && 0 <= j < |order|
    ensures var h := Held(s, order)[j];
            var r := ReplaceValueSpec(s, Entry(h), v);
            && r.1 == Returns(s.entries[h].value) && Valid(r.0, order)
            && Held(r.0, order) == Held(s, order) && r.0.entries[h].value == v
            && forall e :: 0 <= e < |s.entries| ==>
                 r.0.entries[e].key == s.entries[e].key && r.0.entries[e].pos == s.entries[e].pos
  {
    var h := Held(s, order)[j];
    var r := ReplaceValueSpec(s, Entry(h), v).0;
    forall i | 0 <= i < |s.tree.nodes| ensures KeyAt(r, i) == KeyAt(s, i) && NodeOrdered(r, i) {
      assert NodeOrdered(s, i);
    }
    forall m | 0 <= m < |order| ensures PosAt(r, order[m]) {
      assert PosAt(s, order[m]);
    }
  }
}
