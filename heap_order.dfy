/**
 * Heap order on the model's state, and why upHeap and downHeap restore
 * it: each keeps the order everywhere but at one node, the "hole", and
 * moves the hole towards the root or a leaf until it closes.
 */
module HeapOrder {
  import opened LinkedTree
  import opened TreeShape
  import opened HeapModel

  /** c is no node, or a node whose key is no smaller than the key at i. */
  ghost predicate NoSmaller<V>(s: HeapState<V>, i: int, c: int)
    requires Fit(s) && 0 <= i < |s.tree.nodes|
  {
    c == -1 || (0 <= c < |s.tree.nodes| && KeyAt(s, i) <= KeyAt(s, c))
  }

  /** Neither child of i has a smaller key than i. */
  ghost predicate NodeOrdered<V>(s: HeapState<V>, i: int)
    requires Fit(s) && 0 <= i < |s.tree.nodes|
  {
    NoSmaller(s, i, s.tree.nodes[i].left) && NoSmaller(s, i, s.tree.nodes[i].right)
  }

  /** The heap-order property: no node has a child with a smaller key. */
  ghost predicate HeapOrdered<V>(s: HeapState<V>)
  {
    Fit(s) && forall i :: 0 <= i < |s.tree.nodes| ==> NodeOrdered(s, i)
  }

  /** The parent of p, if any, has no larger key than p's children. */
  ghost predicate Bridged<V>(s: HeapState<V>, p: int)
    requires Fit(s) && 0 <= p < |s.tree.nodes|
  {
    var g := s.tree.nodes[p].parent;
    0 <= g < |s.tree.nodes| ==> NoSmaller(s, g, s.tree.nodes[p].left) && NoSmaller(s, g, s.tree.nodes[p].right)
  }

  /** The parent of v, if any, has v as a child (a removed node keeps its parent link but is no child). */
  ghost predicate ParentLinks<E>(nodes: seq<Node<E>>, v: int)
    requires 0 <= v < |nodes|
  {
    var g := nodes[v].parent;
    0 <= g < |nodes| ==> nodes[g].left == v || nodes[g].right == v
  }

  /** Heap order holds except between p and its children: what downHeap(p) repairs. */
  ghost predicate DownHole<V>(s: HeapState<V>, p: int)
  {
    && Fit(s) && 0 <= p < |s.tree.nodes|
    && (forall i :: 0 <= i < |s.tree.nodes| && i != p ==> NodeOrdered(s, i))
    && Bridged(s, p)
  }

  /** Heap order holds except between p and its parent: what upHeap(p) repairs. */
  ghost predicate UpHole<V>(s: HeapState<V>, p: int)
  {
    && Fit(s) && 0 <= p < |s.tree.nodes|
    && (forall i :: 0 <= i < |s.tree.nodes| ==>
          (s.tree.nodes[i].left == p || NoSmaller(s, i, s.tree.nodes[i].left))
          && (s.tree.nodes[i].right == p || NoSmaller(s, i, s.tree.nodes[i].right)))
    && Bridged(s, p)
  }

  /** Rearranging entries keeps the shape: the links, root and count are the same. */
  lemma {:induction false} RearrangedKeepsLevelOrder<V>(s: HeapState<V>, r: HeapState<V>, order: seq<int>)
    requires LevelOrder(s.tree, order) && Fit(r) && Rearranged(s, r)
    ensures LevelOrder(r.tree, order) && LeftFirst(r.tree.nodes)
  {
    forall k | 0 <= k < |order| ensures NodeAt(r.tree, order, k) {
      assert NodeAt(s.tree, order, k);
      assert Links(r.tree.nodes)[order[k]] == Links(s.tree.nodes)[order[k]];
    }
    forall i | 0 <= i < |r.tree.nodes| && !IsLeaf(r.tree.nodes[i]) ensures i in order {
      assert Links(r.tree.nodes)[i] == Links(s.tree.nodes)[i];
      assert !IsLeaf(s.tree.nodes[i]);
    }
    LevelOrderLeftFirst(r.tree, order);
  }

  /** One round of upHeap's loop moves the hole from p to its parent. */
  lemma {:induction false} UpStep<V>(s: HeapState<V>, p: int, g: int)
    requires UpHole(s, p) && g == s.tree.nodes[p].parent && 0 <= g < |s.tree.nodes|
    requires KeyAt(s, p) < KeyAt(s, g) && ParentLinks(s.tree.nodes, g)
    ensures UpHole(Exchange(s, p, g), g)
  {
    UpStepEdges(s, p, g);
    UpStepBridge(s, p, g);
  }

  /** After the exchange every edge but the one above g is in order. */
  lemma {:induction false} UpStepEdges<V>(s: HeapState<V>, p: int, g: int)
    requires UpHole(s, p) && g == s.tree.nodes[p].parent && 0 <= g < |s.tree.nodes|
    requires KeyAt(s, p) < KeyAt(s, g)
    ensures var r, nodes := Exchange(s, p, g), s.tree.nodes;
            forall i :: 0 <= i < |nodes| ==>
              (nodes[i].left == g || NoSmaller(r, i, nodes[i].left))
              && (nodes[i].right == g || NoSmaller(r, i, nodes[i].right))
  {
    var nodes := s.tree.nodes;
    forall i | 0 <= i < |nodes|
      ensures (nodes[i].left == g || NoSmaller(Exchange(s, p, g), i, nodes[i].left))
              && (nodes[i].right == g || NoSmaller(Exchange(s, p, g), i, nodes[i].right))
    {
      if nodes[i].left != g {
        UpChild(s, p, g, i, nodes[i].left);
      }
      if nodes[i].right != g {
        UpChild(s, p, g, i, nodes[i].right);
      }
    }
  }

  /** The edge from i to its child x, other than g, is in order after the exchange. */
  lemma {:induction false} UpChild<V>(s: HeapState<V>, p: int, g: int, i: int, x: int)
    requires UpHole(s, p) && g == s.tree.nodes[p].parent && 0 <= g < |s.tree.nodes|
    requires KeyAt(s, p) < KeyAt(s, g)
    requires 0 <= i < |s.tree.nodes| && (x == s.tree.nodes[i].left || x == s.tree.nodes[i].right) && x != g
    ensures NoSmaller(Exchange(s, p, g), i, x)
  {
    var nodes := s.tree.nodes;
    var r := Exchange(s, p, g);
    assert LinksOK(nodes, i) && LinksOK(nodes, p) && LinksOK(nodes, g);
    if x == -1 {
    } else if i == g {
      if x == p {
        assert KeyAt(r, g) == KeyAt(s, p) && KeyAt(r, p) == KeyAt(s, g);
      } else {
        assert NoSmaller(s, g, x);
        assert KeyAt(r, g) == KeyAt(s, p) && KeyAt(r, x) == KeyAt(s, x);
      }
    } else if i == p {
      assert Bridged(s, p) && nodes[x].parent == p;
      assert KeyAt(r, p) == KeyAt(s, g) && KeyAt(r, x) == KeyAt(s, x);
    } else {
      assert nodes[x].parent == i && x != p;
      assert NoSmaller(s, i, x);
      assert KeyAt(r, i) == KeyAt(s, i) && KeyAt(r, x) == KeyAt(s, x);
    }
  }

  /** After the exchange g's parent has no larger key than g's children. */
  lemma {:induction false} UpStepBridge<V>(s: HeapState<V>, p: int, g: int)
    requires UpHole(s, p) && g == s.tree.nodes[p].parent && 0 <= g < |s.tree.nodes|
    requires KeyAt(s, p) < KeyAt(s, g) && ParentLinks(s.tree.nodes, g)
    ensures Bridged(Exchange(s, p, g), g)
  {
    var nodes := s.tree.nodes;
    var r := Exchange(s, p, g);
    assert LinksOK(nodes, p) && LinksOK(nodes, g);
    var gg := nodes[g].parent;
    if 0 <= gg {
      assert LinksOK(nodes, gg);
      assert NoSmaller(s, gg, g) && KeyAt(r, gg) == KeyAt(s, gg);
      var l, q := nodes[g].left, nodes[g].right;
      assert r.tree.nodes[g].left == l && r.tree.nodes[g].right == q;
      if l != -1 && l != p {
        assert NoSmaller(s, g, l) && KeyAt(r, l) == KeyAt(s, l);
      }
      if q != -1 && q != p {
        assert NoSmaller(s, g, q) && KeyAt(r, q) == KeyAt(s, q);
      }
      assert KeyAt(r, p) == KeyAt(s, g);
    }
  }

  /** An UpHole closes when p has no parent or a parent with no larger key. */
  lemma {:induction false} UpHoleClosed<V>(s: HeapState<V>, p: int)
    requires UpHole(s, p)
    requires var g := s.tree.nodes[p].parent; g < 0 || (g < |s.tree.nodes| && KeyAt(s, g) <= KeyAt(s, p))
    ensures HeapOrdered(s)
  {
    forall i | 0 <= i < |s.tree.nodes| ensures NodeOrdered(s, i) {
      assert LinksOK(s.tree.nodes, i);
    }
  }

  /**
   * upHeap(p, key) with key the key at p closes an UpHole at a node of a
   * complete tree: it ends normally, and the heap is ordered.
   */
  lemma {:induction false} UpRestores<V>(s: HeapState<V>, order: seq<int>, k: int, key: int)
    requires LevelOrder(s.tree, order) && 0 <= k < |order| && UpHole(s, order[k])
    requires key == KeyAt(s, order[k])
    ensures UpSpec(s, order[k], key).1 == Pass
    ensures HeapOrdered(UpSpec(s, order[k], key).0)
    decreases k
  {
    var p := order[k];
    if k == 0 {
      UpAtRoot(s, order, key);
    } else {
      var j := (k - 1) / 2;
      var g := order[j];
      UpParent(s, order, k);
      UpSpecUnfold(s, p, g, key);
      if key < KeyAt(s, g) {
        UpClimb(s, order, k);
        UpRestores(Exchange(s, p, g), order, j, key);
      } else {
        UpHoleClosed(s, p);
      }
    }
  }

  /** How upHeap unfolds at a node with a parent. */
  lemma {:induction false} UpSpecUnfold<V>(s: HeapState<V>, p: int, g: int, key: int)
    requires Fit(s) && 0 <= p < |s.tree.nodes| && s.tree.root != -1 && p != s.tree.root
    requires g == s.tree.nodes[p].parent && 0 <= g
    ensures g < |s.tree.nodes|
    ensures UpSpec(s, p, key) == if key < KeyAt(s, g) then UpSpec(Exchange(s, p, g), g, key) else (s, Pass)
  {
    assert LinksOK(s.tree.nodes, p);
  }

  lemma {:induction false} UpAtRoot<V>(s: HeapState<V>, order: seq<int>, key: int)
    requires LevelOrder(s.tree, order) && 0 < |order| && UpHole(s, order[0])
    ensures UpSpec(s, order[0], key) == (s, Pass) && HeapOrdered(s)
  {
    UpHoleClosed(s, order[0]);
  }

  /** A node other than the root has the node before it in level order as parent. */
  lemma {:induction false} UpParent<V>(s: HeapState<V>, order: seq<int>, k: int)
    requires LevelOrder(s.tree, order) && 0 < k < |order|
    ensures s.tree.root != -1 && order[k] != s.tree.root
    ensures s.tree.nodes[order[k]].parent == order[(k - 1) / 2]
  {
    assert NodeAt(s.tree, order, k);
    assert Earlier(order, 0, k);
  }

  /** The facts one round of the loop needs at the node numbered k + 1 and its parent. */
  lemma {:induction false} UpClimb<V>(s: HeapState<V>, order: seq<int>, k: int)
    requires LevelOrder(s.tree, order) && 0 < k < |order| && UpHole(s, order[k])
    requires KeyAt(s, order[k]) < KeyAt(s, order[(k - 1) / 2])
    ensures s.tree.nodes[order[k]].parent == order[(k - 1) / 2]
    ensures LevelOrder(Exchange(s, order[k], order[(k - 1) / 2]).tree, order)
    ensures UpHole(Exchange(s, order[k], order[(k - 1) / 2]), order[(k - 1) / 2])
  {
    var p, j := order[k], (k - 1) / 2;
    var g := order[j];
    assert NodeAt(s.tree, order, k);
    if j > 0 {
      assert NodeAt(s.tree, order, j) && NodeAt(s.tree, order, (j - 1) / 2);
    } else {
      assert NodeAt(s.tree, order, 0);
    }
    UpStep(s, p, g);
    RearrangedKeepsLevelOrder(s, Exchange(s, p, g), order);
  }

  /** Rearranging entries keeps every node's links, so no right child appears without a left one. */
  lemma {:induction false} RearrangedLeftFirst<V>(s: HeapState<V>, r: HeapState<V>)
    requires LeftFirst(s.tree.nodes) && Rearranged(s, r)
    ensures LeftFirst(r.tree.nodes)
  {
    forall i | 0 <= i < |r.tree.nodes| && r.tree.nodes[i].right != -1
      ensures r.tree.nodes[i].left != -1
    {
      assert Links(r.tree.nodes)[i] == Links(s.tree.nodes)[i];
    }
  }

  /** One level of downHeap: exchanging p with its child c, the smaller of the two, moves the hole to c. */
  lemma {:induction false} DownStep<V>(s: HeapState<V>, p: int, c: int, q: int)
    requires DownHole(s, p)
    requires (c == s.tree.nodes[p].left && q == s.tree.nodes[p].right)
             || (c == s.tree.nodes[p].right && q == s.tree.nodes[p].left)
    requires 0 <= c < |s.tree.nodes| && KeyAt(s, c) < KeyAt(s, p) && NoSmaller(s, c, q)
    ensures DownHole(Exchange(s, c, p), c)
  {
    DownStepEdges(s, p, c, q);
    DownStepBridge(s, p, c);
  }

  lemma {:induction false} DownStepEdges<V>(s: HeapState<V>, p: int, c: int, q: int)
    requires DownHole(s, p)
    requires (c == s.tree.nodes[p].left && q == s.tree.nodes[p].right)
             || (c == s.tree.nodes[p].right && q == s.tree.nodes[p].left)
    requires 0 <= c < |s.tree.nodes| && KeyAt(s, c) < KeyAt(s, p) && NoSmaller(s, c, q)
    ensures var r := Exchange(s, c, p);
            forall i :: 0 <= i < |s.tree.nodes| && i != c ==> NodeOrdered(r, i)
  {
    var nodes := s.tree.nodes;
    var r := Exchange(s, c, p);
    assert LinksOK(nodes, p) && LinksOK(nodes, c);
    forall i | 0 <= i < |nodes| && i != c ensures NodeOrdered(r, i) {
      if i == p {
        assert NodeOrdered(r, p);
      } else {
        DownStepOther(s, p, c, i);
      }
    }
  }

  /** A node other than p and c keeps its order through the exchange. */
  lemma {:induction false} DownStepOther<V>(s: HeapState<V>, p: int, c: int, i: int)
    requires DownHole(s, p) && (c == s.tree.nodes[p].left || c == s.tree.nodes[p].right)
    requires 0 <= c < |s.tree.nodes| && KeyAt(s, c) < KeyAt(s, p)
    requires 0 <= i < |s.tree.nodes| && i != p && i != c
    ensures NodeOrdered(Exchange(s, c, p), i)
  {
    var nodes := s.tree.nodes;
    var r := Exchange(s, c, p);
    assert LinksOK(nodes, p) && LinksOK(nodes, c) && LinksOK(nodes, i);
    assert r.tree.nodes[i] == nodes[i] && KeyAt(r, i) == KeyAt(s, i);
    assert NodeOrdered(s, i);
    ChildAfterExchange(s, p, c, i, nodes[i].left);
    ChildAfterExchange(s, p, c, i, nodes[i].right);
  }

  lemma {:induction false} ChildAfterExchange<V>(s: HeapState<V>, p: int, c: int, i: int, x: int)
    requires DownHole(s, p) && (c == s.tree.nodes[p].left || c == s.tree.nodes[p].right)
    requires 0 <= c < |s.tree.nodes| && KeyAt(s, c) < KeyAt(s, p)
    requires 0 <= i < |s.tree.nodes| && i != p && i != c && NoSmaller(s, i, x)
    requires x == s.tree.nodes[i].left || x == s.tree.nodes[i].right
    ensures NoSmaller(Exchange(s, c, p), i, x)
  {
    var nodes := s.tree.nodes;
    var r := Exchange(s, c, p);
    assert LinksOK(nodes, i) && LinksOK(nodes, p);
    if x == p {
      assert nodes[p].parent == i && Bridged(s, p);
      assert KeyAt(s, i) <= KeyAt(s, c) == KeyAt(r, p);
    } else if x != -1 {
      assert nodes[x].parent == i && nodes[c].parent == p;
      assert KeyAt(r, x) == KeyAt(s, x);
    }
  }

  lemma {:induction false} DownStepBridge<V>(s: HeapState<V>, p: int, c: int)
    requires DownHole(s, p) && (c == s.tree.nodes[p].left || c == s.tree.nodes[p].right)
    requires 0 <= c < |s.tree.nodes| && KeyAt(s, c) < KeyAt(s, p)
    ensures Bridged(Exchange(s, c, p), c)
  {
    var nodes := s.tree.nodes;
    var r := Exchange(s, c, p);
    assert LinksOK(nodes, p) && LinksOK(nodes, c);
    assert NodeOrdered(s, c) && nodes[c].parent == p;
    assert KeyAt(r, p) == KeyAt(s, c);
    var l, q := nodes[c].left, nodes[c].right;
    assert r.tree.nodes[c].left == l && r.tree.nodes[c].right == q;
    if l != -1 {
      assert KeyAt(r, l) == KeyAt(s, l);
    }
    if q != -1 {
      assert KeyAt(r, q) == KeyAt(s, q);
    }
  }

  /** A DownHole closes once p is no larger than its children. */
  lemma {:induction false} DownHoleClosed<V>(s: HeapState<V>, p: int)
    requires DownHole(s, p) && NodeOrdered(s, p)
    ensures HeapOrdered(s)
  {
  }

  /** In an ordered heap the second test of downHeap finds nothing to do. */
  lemma {:induction false} RetestOrdered<V>(s: HeapState<V>, p: int)
    requires HeapOrdered(s) && LeftFirst(s.tree.nodes) && 0 <= p < |s.tree.nodes|
    ensures Retest(s, p) == (s, Pass)
  {
    assert NodeOrdered(s, p);
  }

  /**
   * downHeap(p) closes a DownHole in a tree where no node has a right
   * child without a left one: it ends normally, and the heap is ordered.
   * The second test of the two-children case (MyHeap.java:277-287) is
   * harmless: after a left exchange the subtree below is ordered, and
   * otherwise it is the right exchange the first test skipped.
   */
  lemma {:induction false} DownRestores<V>(s: HeapState<V>, p: int)
    requires DownHole(s, p) && LeftFirst(s.tree.nodes)
    ensures DownSpec(s, p).1 == Pass
    ensures HeapOrdered(DownSpec(s, p).0)
    decreases |s.tree.nodes| - p, 2
  {
    var n := s.tree.nodes[p];
    assert LinksOK(s.tree.nodes, p);
    var l, r := n.left, n.right;
    if l == -1 && r == -1 {
      DownHoleClosed(s, p);
    } else if l != -1 && r != -1 {
      DownBoth(s, p);
    } else if KeyAt(s, l) < KeyAt(s, p) {
      DownOnlyLeft(s, p);
    } else {
      DownHoleClosed(s, p);
      assert DownSpec(s, p) == DownOne(s, p) == (s, Pass);
    }
  }

  /** A left child only, smaller than p: exchange and recurse. */
  lemma {:induction false} DownOnlyLeft<V>(s: HeapState<V>, p: int)
    requires DownHole(s, p) && LeftFirst(s.tree.nodes)
    requires var n := s.tree.nodes[p];
             0 <= n.left < |s.tree.nodes| && n.right == -1
             && KeyAt(s, n.left) < KeyAt(s, p)
    ensures DownSpec(s, p).1 == Pass
    ensures HeapOrdered(DownSpec(s, p).0)
    decreases |s.tree.nodes| - p, 0
  {
    var l := s.tree.nodes[p].left;
    assert LinksOK(s.tree.nodes, p);
    var s1 := Exchange(s, l, p);
    DownStep(s, p, l, -1);
    RearrangedLeftFirst(s, s1);
    DownRestores(s1, l);
    assert DownSpec(s, p) == DownOne(s, p) == DownSpec(s1, l);
  }

  /** The two-children case of DownRestores. */
  lemma {:induction false} DownBoth<V>(s: HeapState<V>, p: int)
    requires DownHole(s, p) && LeftFirst(s.tree.nodes)
    requires s.tree.nodes[p].left != -1 && s.tree.nodes[p].right != -1
    ensures DownSpec(s, p).1 == Pass
    ensures HeapOrdered(DownSpec(s, p).0)
    decreases |s.tree.nodes| - p, 1
  {
    var n := s.tree.nodes[p];
    assert LinksOK(s.tree.nodes, p);
    var l, r := n.left, n.right;
    if KeyAt(s, l) <= KeyAt(s, r) && KeyAt(s, l) < KeyAt(s, p) {
      DownBothLeft(s, p);
    } else if KeyAt(s, r) <= KeyAt(s, l) && KeyAt(s, r) < KeyAt(s, p) {
      DownBothRight(s, p);
    } else {
      DownHoleClosed(s, p);
      assert DownSpec(s, p) == DownTwo(s, p) == Retest(s, p) == (s, Pass);
    }
  }

  /** Both children, the left one the smaller and smaller than p: exchange, recurse, and the re-test passes. */
  lemma {:induction false} DownBothLeft<V>(s: HeapState<V>, p: int)
    requires DownHole(s, p) && LeftFirst(s.tree.nodes)
    requires var n := s.tree.nodes[p];
             0 <= n.left < |s.tree.nodes| && 0 <= n.right < |s.tree.nodes|
             && KeyAt(s, n.left) <= KeyAt(s, n.right) && KeyAt(s, n.left) < KeyAt(s, p)
    ensures DownSpec(s, p).1 == Pass
    ensures HeapOrdered(DownSpec(s, p).0)
    decreases |s.tree.nodes| - p, 0
  {
    var n := s.tree.nodes[p];
    assert LinksOK(s.tree.nodes, p);
    var l, r := n.left, n.right;
    var s1 := Exchange(s, l, p);
    DownStep(s, p, l, r);
    RearrangedLeftFirst(s, s1);
    DownRestores(s1, l);
    var d := DownSpec(s1, l);
    RearrangedLeftFirst(s1, d.0);
    RetestOrdered(d.0, l);
    DownSpecLeft(s, p);
  }

  /** Both children, the right one no larger than the left and smaller than p: the re-test exchanges. */
  lemma {:induction false} DownBothRight<V>(s: HeapState<V>, p: int)
    requires DownHole(s, p) && LeftFirst(s.tree.nodes)
    requires var n := s.tree.nodes[p];
             0 <= n.left < |s.tree.nodes| && 0 <= n.right < |s.tree.nodes|
             && !(KeyAt(s, n.left) <= KeyAt(s, n.right) && KeyAt(s, n.left) < KeyAt(s, p))
             && KeyAt(s, n.right) <= KeyAt(s, n.left) && KeyAt(s, n.right) < KeyAt(s, p)
    ensures DownSpec(s, p).1 == Pass
    ensures HeapOrdered(DownSpec(s, p).0)
    decreases |s.tree.nodes| - p, 0
  {
    var n := s.tree.nodes[p];
    assert LinksOK(s.tree.nodes, p);
    var l, r := n.left, n.right;
    var s1 := Exchange(s, r, p);
    DownStep(s, p, r, l);
    RearrangedLeftFirst(s, s1);
    DownRestores(s1, r);
    DownSpecRight(s, p);
  }

  /** How downHeap unfolds when it takes the left child of two. */
  lemma {:induction false} DownSpecLeft<V>(s: HeapState<V>, p: int)
    requires Fit(s) && 0 <= p < |s.tree.nodes|
    requires var n := s.tree.nodes[p];
             0 <= n.left < |s.tree.nodes| && 0 <= n.right < |s.tree.nodes|
             && KeyAt(s, n.left) <= KeyAt(s, n.right) && KeyAt(s, n.left) < KeyAt(s, p)
    ensures var l := s.tree.nodes[p].left;
            var d := DownSpec(Exchange(s, l, p), l);
            DownSpec(s, p) == if d.1.Fail? then d else Retest(d.0, l)
  {
    assert LinksOK(s.tree.nodes, p);
    assert DownSpec(s, p) == DownTwo(s, p);
  }

  /** How downHeap unfolds when its re-test takes the right child of two. */
  lemma {:induction false} DownSpecRight<V>(s: HeapState<V>, p: int)
    requires Fit(s) && 0 <= p < |s.tree.nodes|
    requires var n := s.tree.nodes[p];
             0 <= n.left < |s.tree.nodes| && 0 <= n.right < |s.tree.nodes|
             && !(KeyAt(s, n.left) <= KeyAt(s, n.right) && KeyAt(s, n.left) < KeyAt(s, p))
             && KeyAt(s, n.right) <= KeyAt(s, n.left) && KeyAt(s, n.right) < KeyAt(s, p)
    ensures var r := s.tree.nodes[p].right;
            DownSpec(s, p) == DownSpec(Exchange(s, r, p), r)
  {
    assert LinksOK(s.tree.nodes, p);
    assert DownSpec(s, p) == DownTwo(s, p) == Retest(s, p);
  }
}
