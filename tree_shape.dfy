/**
 * The shape of the tree: level order, the frontier deque, and what add and
 * remove do to them.
 *
 * `order[k]` is the arena index of the node numbered k + 1 in level order
 * (the root is number 1, the children of number m are 2m and 2m + 1);
 * with 0-based k the parent is (k - 1) / 2 and the children 2k + 1 and 2k + 2.
 */
module TreeShape {
  import opened LinkedTree

  ghost predicate InArena<E>(t: Tree<E>, order: seq<int>)
  {
    forall j :: 0 <= j < |order| ==> 0 <= order[j] < |t.nodes|
  }

  /** The node numbered k + 1 has exactly the links of a complete tree of |order| nodes. */
  ghost predicate NodeAt<E>(t: Tree<E>, order: seq<int>, k: int)
    requires InArena(t, order) && 0 <= k < |order|
  {
    var n := t.nodes[order[k]];
    && n.parent == (if k == 0 then -1 else order[(k - 1) / 2])
    && n.left == (if 2 * k + 1 < |order| then order[2 * k + 1] else -1)
    && n.right == (if 2 * k + 2 < |order| then order[2 * k + 2] else -1)
  }

  /**
   * The tree is complete: its count nodes, listed by `order`, are linked
   * level by level, left to right; every other node of the arena (a
   * removed one) is a leaf.
   */
  ghost predicate LevelOrder<E>(t: Tree<E>, order: seq<int>)
  {
    && WellFormed(t)
    && |order| == t.count
    && InArena(t, order)
    && (forall j, k :: 0 <= j < k < |order| ==> Earlier(order, j, k))
    && (|order| > 0 ==> order[0] == t.root)
    && (forall k :: 0 <= k < |order| ==> NodeAt(t, order, k))
    && (forall i :: 0 <= i < |t.nodes| && !IsLeaf(t.nodes[i]) ==> i in order)
  }

  /**
   * Nodes come in the arena in level order.  Kept behind a predicate so
   * that it is only used where a proof asks for it.
   */
  ghost predicate Earlier(order: seq<int>, j: int, k: int)
    requires 0 <= j < k < |order|
  {
    order[j] < order[k]
  }

  /** Level-order index of the first node that still misses a child (0 for the empty tree). */
  function FrontStart(n: nat): (a: nat)
    ensures n == 0 ==> a == 0
    ensures n > 0 ==> a < n && n <= 2 * a + 2 && 2 * a + 1 <= n
  {
    if n == 0 then 0 else (n - 1) / 2
  }

  /** `line` lists order[a], order[a + 1], ..., up to the last entry of `order`. */
  ghost predicate Suffix(line: seq<int>, order: seq<int>, a: int)
  {
    && 0 <= a <= |order|
    && |line| == |order| - a
    && forall i :: 0 <= i < |line| ==> line[i] == order[a + i]
  }

  /**
   * The complete shape together with the deque invariant the source relies
   * on: the deque lists the nodes numbered ceil(n/2) .. n, that is those
   * that still miss a child, followed by the last one.
   */
  ghost predicate Frontier<E>(t: Tree<E>, order: seq<int>)
  {
    LevelOrder(t, order) && Suffix(t.line, order, FrontStart(|order|))
  }

  /** The back of the deque names the last node (and the front does, when it is the only one). */
  ghost predicate LastAtBack<E>(t: Tree<E>, order: seq<int>)
  {
    && |order| >= 1
    && t.line != []
    && t.line[|t.line| - 1] == order[|order| - 1]
    && (|order| == 1 ==> t.line[0] == order[0])
  }

  /** Walking up through parents that link back down reaches the root. */
  ghost predicate Attached<E>(nodes: seq<Node<E>>, root: int, p: int)
    decreases p
  {
    && 0 <= p < |nodes|
    && (p == root ||
        var q := nodes[p].parent;
        0 <= q < p && (nodes[q].left == p || nodes[q].right == p) && Attached(nodes, root, q))
  }

  /** No node has a right child without a left one. */
  ghost predicate LeftFirst<E>(nodes: seq<Node<E>>)
  {
    forall i :: 0 <= i < |nodes| && nodes[i].right != -1 ==> nodes[i].left != -1
  }

  lemma {:induction false} LevelOrderAttached<E>(t: Tree<E>, order: seq<int>, k: int)
    requires LevelOrder(t, order) && 0 <= k < |order|
    ensures Attached(t.nodes, t.root, order[k])
    decreases k
  {
    if k > 0 {
      var pk := (k - 1) / 2;
      assert NodeAt(t, order, k) && NodeAt(t, order, pk);
      assert LinksOK(t.nodes, order[k]);
      LevelOrderAttached(t, order, pk);
    }
  }

  lemma {:induction false} LevelOrderLeftFirst<E>(t: Tree<E>, order: seq<int>)
    requires LevelOrder(t, order)
    ensures LeftFirst(t.nodes)
  {
    forall i | 0 <= i < |t.nodes| && t.nodes[i].right != -1
      ensures t.nodes[i].left != -1
    {
      assert i in order;
      var k :| 0 <= k < |order| && order[k] == i;
      assert NodeAt(t, order, k);
    }
  }

  lemma {:induction false} FrontierLastAtBack<E>(t: Tree<E>, order: seq<int>)
    requires Frontier(t, order) && |order| >= 1
    ensures LastAtBack(t, order)
  {
  }

  /**
   * t' is t with a new leaf m = |t.nodes| hung under the node numbered
   * (n + 1) / 2 (as its left child when n is odd, its right child when n is
   * even), or made the root when the tree was empty.
   */
  ghost predicate Appended<E>(t: Tree<E>, order: seq<int>, t': Tree<E>)
    requires InArena(t, order)
  {
    var m := |t.nodes|;
    && |t'.nodes| == m + 1 && t'.count == t.count + 1
    && t'.root == (if order == [] then m else t.root)
    && IsLeaf(t'.nodes[m])
    && t'.nodes[m].parent == (if order == [] then -1 else order[(|order| - 1) / 2])
    && (forall i :: 0 <= i < m && (order == [] || i != order[(|order| - 1) / 2]) ==>
          t'.nodes[i] == t.nodes[i])
    && (order != [] ==>
          var f := order[(|order| - 1) / 2];
          t'.nodes[f] == if |order| % 2 == 1 then t.nodes[f].(left := m)
                         else t.nodes[f].(right := m))
  }

  /** Appending a leaf extends the level order by it. */
  lemma {:induction false} AppendKeepsLevelOrder<E>(t: Tree<E>, order: seq<int>, t': Tree<E>)
    requires LevelOrder(t, order) && WellFormed(t') && Appended(t, order, t')
    ensures LevelOrder(t', order + [|t.nodes|])
  {
    var o' := order + [|t.nodes|];
    AppendKeepsNodes(t, order, t');
    AppendKeepsInner(t, order, t');
    forall j, k | 0 <= j < k < |o'| ensures Earlier(o', j, k) {
      if k < |order| {
        assert Earlier(order, j, k);
      }
    }
  }

  lemma {:induction false} AppendKeepsNodes<E>(t: Tree<E>, order: seq<int>, t': Tree<E>)
    requires LevelOrder(t, order) && Appended(t, order, t')
    ensures InArena(t', order + [|t.nodes|])
    ensures forall k :: 0 <= k <= |order| ==> NodeAt(t', order + [|t.nodes|], k)
  {
    var n, m := |order|, |t.nodes|;
    var o' := order + [m];
    if n == 0 {
      assert NodeAt(t', o', 0);
    } else {
      var fk := (n - 1) / 2;
      assert NodeAt(t, order, fk);
      forall k | 0 <= k < n + 1 ensures NodeAt(t', o', k) {
        if k < n {
          assert NodeAt(t, order, k);
          if k < fk {
            assert Earlier(order, k, fk);
          } else if k > fk {
            assert Earlier(order, fk, k);
          }
        }
      }
    }
  }

  lemma {:induction false} AppendKeepsInner<E>(t: Tree<E>, order: seq<int>, t': Tree<E>)
    requires LevelOrder(t, order) && Appended(t, order, t')
    ensures forall i :: 0 <= i < |t'.nodes| && !IsLeaf(t'.nodes[i]) ==> i in order + [|t.nodes|]
  {
    var n, m := |order|, |t.nodes|;
    var o' := order + [m];
    forall i | 0 <= i < |t'.nodes| && !IsLeaf(t'.nodes[i]) ensures i in o' {
      if i < m && (n == 0 || i != order[(n - 1) / 2]) {
        assert i in order;
      } else if i < m {
        assert o'[(n - 1) / 2] == i;
      }
    }
  }

  lemma {:induction false} SuffixAppend(line: seq<int>, order: seq<int>, a: int, m: int)
    requires Suffix(line, order, a)
    ensures Suffix(line + [m], order + [m], a)
  {
    var l', o' := line + [m], order + [m];
    forall i | 0 <= i < |l'| ensures l'[i] == o'[a + i] {
      if i < |line| {
        assert l'[i] == line[i];
      }
    }
  }

  lemma {:induction false} SuffixTail(line: seq<int>, order: seq<int>, a: int)
    requires Suffix(line, order, a) && line != []
    ensures Suffix(line[1..], order, a + 1)
  {
    var l' := line[1..];
    forall i | 0 <= i < |l'| ensures l'[i] == order[a + 1 + i] {
      assert l'[i] == line[i + 1];
    }
  }

  lemma {:induction false} SuffixDropLast(line: seq<int>, order: seq<int>, a: int)
    requires Suffix(line, order, a) && a < |order|
    ensures Suffix(DropLast(line), DropLast(order), a)
  {
    var l', o' := DropLast(line), DropLast(order);
    forall i | 0 <= i < |l'| ensures l'[i] == o'[a + i] {
      assert l'[i] == line[i];
    }
  }

  lemma {:induction false} SuffixCons(line: seq<int>, order: seq<int>, a: int)
    requires Suffix(line, order, a + 1) && a >= 0
    ensures Suffix([order[a]] + line, order, a)
  {
    var l' := [order[a]] + line;
    forall i | 0 <= i < |l'| ensures l'[i] == order[a + i] {
      if i > 0 {
        assert l'[i] == line[i - 1];
      }
    }
  }

  /** The deque after an add: the new node joins the back, and the front leaves once it has both children. */
  lemma {:induction false} FrontierOfAppend(line: seq<int>, order: seq<int>, m: int)
    requires order != [] && Suffix(line, order, FrontStart(|order|))
    ensures |order| % 2 == 1 ==> Suffix(line + [m], order + [m], FrontStart(|order| + 1))
    ensures |order| % 2 == 0 ==> Suffix(line[1..] + [m], order + [m], FrontStart(|order| + 1))
  {
    var a := FrontStart(|order|);
    if |order| % 2 == 1 {
      assert FrontStart(|order| + 1) == a;
      SuffixAppend(line, order, a, m);
    } else {
      assert FrontStart(|order| + 1) == a + 1;
      SuffixTail(line, order, a);
      SuffixAppend(line[1..], order, a + 1, m);
    }
  }

  /**
   * add keeps the complete shape and the deque invariant, and the new node
   * becomes the last one in level order.
   */
  lemma {:induction false} AddKeepsFrontier<E>(t: Tree<E>, order: seq<int>, x: E)
    requires Frontier(t, order)
    ensures AddNode(t, x).1 == Ok(|t.nodes|)
    ensures Frontier(AddNode(t, x).0, order + [|t.nodes|])
  {
    var n := |order|;
    if n == 0 {
      var t' := AddNode(t, x).0;
      assert t' == Tree(t.nodes + [Node(x, -1, -1, -1)], |t.nodes|, [|t.nodes|], 1);
      AppendKeepsLevelOrder(t, order, t');
    } else if n % 2 == 1 {
      AddAsLeftChild(t, order, x);
    } else {
      AddAsRightChild(t, order, x);
    }
  }

  lemma {:induction false} AddAsLeftChild<E>(t: Tree<E>, order: seq<int>, x: E)
    requires Frontier(t, order) && |order| % 2 == 1
    ensures AddNode(t, x).1 == Ok(|t.nodes|)
    ensures Frontier(AddNode(t, x).0, order + [|t.nodes|])
  {
    var n, m := |order|, |t.nodes|;
    var t' := AddNode(t, x).0;
    var f := order[(n - 1) / 2];
    assert t.line[0] == f && t.nodes[f].left == -1 by {
      assert NodeAt(t, order, (n - 1) / 2);
    }
    assert t' == Tree(t.nodes[f := t.nodes[f].(left := m)] + [Node(x, f, -1, -1)],
                      t.root, t.line + [m], t.count + 1);
    FrontierOfAppend(t.line, order, m);
    AppendKeepsLevelOrder(t, order, t');
  }

  lemma {:induction false} AddAsRightChild<E>(t: Tree<E>, order: seq<int>, x: E)
    requires Frontier(t, order) && |order| >= 2 && |order| % 2 == 0
    ensures AddNode(t, x).1 == Ok(|t.nodes|)
    ensures Frontier(AddNode(t, x).0, order + [|t.nodes|])
  {
    var n, m := |order|, |t.nodes|;
    var fk := (n - 1) / 2;
    var f := order[fk];
    assert t.line[0] == f && t.line[1] != f && t.nodes[t.line[1]].left == -1
        && t.nodes[f].left != -1 && t.nodes[f].right == -1 by {
      assert t.line[1] == order[fk + 1];
      assert NodeAt(t, order, fk) && NodeAt(t, order, fk + 1);
    }
    AddRightNoUpdate(t, x);
    var t' := AddNode(t, x).0;
    FrontierOfAppend(t.line, order, m);
    AppendKeepsLevelOrder(t, order, t');
  }

  /** When the front gets its right child and the next one in line has no left child, the front leaves the line. */
  lemma {:induction false} AddRightNoUpdate<E>(t: Tree<E>, x: E)
    requires WellFormed(t) && t.count > 0 && |t.line| >= 2
    requires var f := t.line[0];
             t.nodes[f].left != -1 && t.nodes[f].right == -1
             && t.line[1] != f && t.nodes[t.line[1]].left == -1
    ensures var f, m := t.line[0], |t.nodes|;
            AddNode(t, x) ==
              (Tree(t.nodes[f := t.nodes[f].(right := m)] + [Node(x, f, -1, -1)],
                    t.root, t.line[1..] + [m], t.count + 1), Ok(m))
  {
    var f, m := t.line[0], |t.nodes|;
    var nodes := t.nodes[f := t.nodes[f].(right := m)] + [Node(x, f, -1, -1)];
    assert (t.line + [m])[1..] == t.line[1..] + [m];
    assert nodes[t.line[1]] == t.nodes[t.line[1]];
  }

  /**
   * Clearing the link from the last node's parent (or the root, when it
   * is the only node) shortens the level order by its last entry.
   */
  lemma {:induction false} TruncateKeepsLevelOrder<E>(t: Tree<E>, order: seq<int>, t': Tree<E>)
    requires LevelOrder(t, order) && WellFormed(t') && |order| >= 1
    requires |t'.nodes| == |t.nodes| && t'.count == t.count - 1
    requires t'.root == (if |order| == 1 then -1 else t.root)
    requires forall i :: 0 <= i < |t.nodes| && (|order| == 1 || i != order[(|order| - 2) / 2]) ==>
               t'.nodes[i] == t.nodes[i]
    requires |order| >= 2 ==>
               var p := order[(|order| - 2) / 2];
               t'.nodes[p] == if |order| % 2 == 0 then t.nodes[p].(left := -1)
                              else t.nodes[p].(right := -1)
    ensures LevelOrder(t', DropLast(order))
  {
    var n := |order|;
    var o' := DropLast(order);
    assert NodeAt(t, order, n - 1);
    if n > 1 {
      var pk := (n - 2) / 2;
      assert NodeAt(t, order, pk);
      assert o' == order[..n - 1];
      forall k | 0 <= k < n - 1 ensures NodeAt(t', o', k) {
        assert NodeAt(t, order, k);
        if k < pk {
          assert Earlier(order, k, pk);
        } else if k > pk {
          assert Earlier(order, pk, k);
        }
      }
      forall j, k | 0 <= j < k < n - 1 ensures Earlier(o', j, k) {
        assert Earlier(order, j, k);
      }
      forall i | 0 <= i < |t'.nodes| && !IsLeaf(t'.nodes[i]) ensures i in o' {
        assert i in order;
        var k :| 0 <= k < n && order[k] == i;
        assert k != n - 1;
        assert o'[k] == i;
      }
    }
  }

  /**
   * When the back of the deque is the last node, remove detaches exactly
   * that node and the shape stays complete.  The deque loses its back and,
   * after removing a left child, gains the parent in front: the two
   * branches as the source writes them.
   */
  lemma {:induction false} RemoveKeepsLevelOrder<E>(t: Tree<E>, order: seq<int>)
    requires LevelOrder(t, order) && LastAtBack(t, order)
    ensures RemoveLast(t).1 == Ok(t.nodes[order[|order| - 1]].elem)
    ensures LevelOrder(RemoveLast(t).0, DropLast(order))
    ensures RemoveLast(t).0.line ==
              if |order| == 1 then []
              else if |order| % 2 == 1 then DropLast(t.line)
              else [order[(|order| - 2) / 2]] + DropLast(t.line)
  {
    var n := |order|;
    var v := order[n - 1];
    assert NodeAt(t, order, n - 1);
    var t' := RemoveLast(t).0;
    if n == 1 {
      assert t' == Tree(t.nodes, -1, [], 0);
    } else {
      var pk := (n - 2) / 2;
      var p := order[pk];
      assert NodeAt(t, order, pk);
      assert LinksOK(t.nodes, v);
      assert t.nodes[v].parent == p && p != v;
      if n % 2 == 1 {
        assert LinksOK(t.nodes, p);
        assert t.nodes[p].right == v && t.nodes[p].left != v;
        assert t'.nodes == t.nodes[p := t.nodes[p].(right := -1)];
      } else {
        assert t.nodes[p].right == -1 && t.nodes[p].left == v;
        assert t'.nodes == t.nodes[p := t.nodes[p].(left := -1)];
      }
    }
    TruncateKeepsLevelOrder(t, order, t');
  }

  /**
   * add(x) followed at once by remove() gives x back, restores the count
   * and leaves every earlier node as it was, on any history in which no
   * node has a right child without a left one and the add succeeds.
   */
  lemma {:induction false} AddThenRemove<E>(t: Tree<E>, x: E)
    requires WellFormed(t) && LeftFirst(t.nodes) && AddNode(t, x).1.Ok?
    ensures var t1 := AddNode(t, x).0;
            && RemoveLast(t1).1 == Ok(x)
            && RemoveLast(t1).0.count == t.count
            && RemoveLast(t1).0.nodes[..|t.nodes|] == t.nodes
  {
    var n, t1 := |t.nodes|, AddNode(t, x).0;
    if t.count == 0 {
      assert t1.line == [n] && t1.root == n;
      assert RemoveLast(t1) == (Tree(t1.nodes, -1, [], 0), Ok(x));
    } else {
      var f := t.line[0];
      var line := t1.line[..|t1.line| - 1];
      assert t1.line[|t1.line| - 1] == n && t1.nodes[n].parent == f;
      if t.nodes[f].left == -1 {
        assert t.nodes[f].right == -1;
        var t2 := t1.(line := [f] + line, count := t.count);
        assert Detach(t2, n) == (t2.(nodes := t1.nodes[f := t1.nodes[f].(left := -1)]), Ok(x));
      } else {
        assert LinksOK(t.nodes, f) && t.nodes[f].right == -1;
        assert t1.nodes[f] == t.nodes[f].(right := n);
        var t2 := t1.(line := line, count := t.count);
        assert Detach(t2, n) == (t2.(nodes := t1.nodes[f := t1.nodes[f].(right := -1)]), Ok(x));
      }
    }
  }

  /** On a complete tree with its deque right, add(x) then remove() also gives back the level order. */
  lemma {:induction false} AddThenRemoveShape<E>(t: Tree<E>, order: seq<int>, x: E)
    requires Frontier(t, order)
    ensures var t1 := AddNode(t, x).0;
            RemoveLast(t1).1 == Ok(x)
            && RemoveLast(t1).0.count == t.count
            && LevelOrder(RemoveLast(t1).0, order)
  {
    AddKeepsFrontier(t, order, x);
    var t1 := AddNode(t, x).0;
    var o1 := order + [|t.nodes|];
    FrontierLastAtBack(t1, o1);
    RemoveKeepsLevelOrder(t1, o1);
    assert DropLast(o1) == order;
  }

  /**
   * As written, remove() after taking a right child drops the parent from
   * the deque although that parent now misses its right child: with an odd
   * number (at least 3) of nodes the deque no longer is the frontier.
   */
  lemma {:induction false} RemoveLastLosesFrontier<E>(t: Tree<E>, order: seq<int>)
    requires Frontier(t, order) && |order| >= 3 && |order| % 2 == 1
    ensures order[(|order| - 2) / 2] !in RemoveLast(t).0.line
    ensures !Frontier(RemoveLast(t).0, DropLast(order))
  {
    var n := |order|;
    var a := n / 2;
    assert (n - 2) / 2 == a - 1 && (n - 1) / 2 == a;
    var line' := RemoveLast(t).0.line;
    assert line' == DropLast(t.line) by {
      FrontierLastAtBack(t, order);
      RemoveKeepsLevelOrder(t, order);
    }
    assert order[a - 1] !in line' by {
      FrontierNotIn(t.line, order, a - 1);
    }
    assert FrontStart(n - 1) == a - 1 && DropLast(order)[a - 1] == order[a - 1];
    assert line' != [] && line'[0] in line';
  }

  /** In a strictly increasing level order, a node before the frontier is in no part of it. */
  lemma {:induction false} FrontierNotIn(line: seq<int>, order: seq<int>, i: int)
    requires forall j, k :: 0 <= j < k < |order| ==> Earlier(order, j, k)
    requires Suffix(line, order, FrontStart(|order|)) && 0 <= i < FrontStart(|order|)
    ensures order[i] !in line && order[i] !in DropLast(line)
  {
    forall j | 0 <= j < |line| ensures line[j] != order[i] {
      assert Earlier(order, i, FrontStart(|order|) + j);
    }
    assert forall j :: 0 <= j < |DropLast(line)| ==> DropLast(line)[j] == line[j];
  }

  /**
   * The consequence: remove() then add(x) on a tree of 2a + 1 nodes hangs
   * the new node under the node numbered a + 1, while the node numbered a
   * is left without its right child.
   */
  lemma {:induction false} RemoveThenAddLeavesGap<E>(t: Tree<E>, order: seq<int>, x: E)
    requires Frontier(t, order) && |order| >= 3 && |order| % 2 == 1
    ensures var t1 := RemoveLast(t).0;
            var t2 := AddNode(t1, x).0;
            var a := |order| / 2;
            && AddNode(t1, x).1 == Ok(|t.nodes|)
            && t2.nodes[|t.nodes|].parent == order[a]
            && t2.nodes[order[a - 1]].right == -1
  {
    var n := |order|;
    var o1 := DropLast(order);
    RemoveRightLeavesGap(t, order);
    assert FrontStart(n - 1) + 1 == n / 2 && o1[n / 2] == order[n / 2] && o1[n / 2 - 1] == order[n / 2 - 1];
    AddIntoGap(RemoveLast(t).0, o1, x);
  }

  /** The state after the first remove of the pair: add(x) skips the node numbered a. */
  lemma {:induction false} AddIntoGap<E>(t: Tree<E>, order: seq<int>, x: E)
    requires LevelOrder(t, order) && |order| >= 2 && |order| % 2 == 0
    requires Suffix(t.line, order, FrontStart(|order|) + 1)
    ensures var a, t' := |order| / 2, AddNode(t, x).0;
            && AddNode(t, x).1 == Ok(|t.nodes|)
            && t'.nodes[|t.nodes|].parent == order[a]
            && t'.nodes[order[a - 1]].right == -1
  {
    var a := |order| / 2;
    assert FrontStart(|order|) + 1 == a && t.line[0] == order[a];
    assert t.nodes[order[a]].left == -1 && t.nodes[order[a - 1]].right == -1 by {
      assert NodeAt(t, order, a) && NodeAt(t, order, a - 1);
    }
    assert order[a - 1] != order[a] by {
      assert Earlier(order, a - 1, a);
    }
    AddUnderFront(t, x);
  }

  /** add(x) when the front of the deque misses its left child: x hangs there. */
  lemma {:induction false} AddUnderFront<E>(t: Tree<E>, x: E)
    requires WellFormed(t) && t.count > 0 && t.line != []
    requires 0 <= t.line[0] < |t.nodes| && t.nodes[t.line[0]].left == -1
    ensures var m, f := |t.nodes|, t.line[0];
            && AddNode(t, x).1 == Ok(m)
            && AddNode(t, x).0.nodes == t.nodes[f := t.nodes[f].(left := m)] + [Node(x, f, -1, -1)]
  {
  }

  /** The corrected remove() keeps the complete shape and the deque invariant. */
  lemma {:induction false} RemoveIntendedKeepsFrontier<E>(t: Tree<E>, order: seq<int>)
    requires Frontier(t, order) && |order| >= 1
    ensures RemoveIntended(t).1 == Ok(t.nodes[order[|order| - 1]].elem)
    ensures Frontier(RemoveIntended(t).0, DropLast(order))
  {
    var n := |order|;
    if n == 1 {
      var t' := RemoveIntended(t).0;
      assert t' == Tree(t.nodes, -1, [], 0) by {
        assert NodeAt(t, order, 0);
      }
      TruncateKeepsLevelOrder(t, order, t');
    } else if n % 2 == 1 {
      RemoveIntendedRight(t, order);
    } else {
      RemoveIntendedLeft(t, order);
    }
  }

  lemma {:induction false} RemoveIntendedRight<E>(t: Tree<E>, order: seq<int>)
    requires Frontier(t, order) && |order| >= 3 && |order| % 2 == 1
    ensures RemoveIntended(t).1 == Ok(t.nodes[order[|order| - 1]].elem)
    ensures Frontier(RemoveIntended(t).0, DropLast(order))
  {
    var n := |order|;
    var v, p := order[n - 1], order[(n - 2) / 2];
    LastNodeLinks(t, order);
    FrontierOfDropLast(t.line, order);
    RemoveIntendedTakesRight(t, v, p);
    var t' := Tree(t.nodes[p := t.nodes[p].(right := -1)], t.root, [p] + DropLast(t.line), t.count - 1);
    TruncateKeepsLevelOrder(t, order, t');
  }

  lemma {:induction false} RemoveIntendedLeft<E>(t: Tree<E>, order: seq<int>)
    requires Frontier(t, order) && |order| >= 2 && |order| % 2 == 0
    ensures RemoveIntended(t).1 == Ok(t.nodes[order[|order| - 1]].elem)
    ensures Frontier(RemoveIntended(t).0, DropLast(order))
  {
    var n := |order|;
    var v, p := order[n - 1], order[(n - 2) / 2];
    LastNodeLinks(t, order);
    FrontierOfDropLast(t.line, order);
    RemoveIntendedTakesLeft(t, v, p);
    var t' := Tree(t.nodes[p := t.nodes[p].(left := -1)], t.root, DropLast(t.line), t.count - 1);
    TruncateKeepsLevelOrder(t, order, t');
  }

  /** The last node in level order is a leaf hanging under the node numbered n / 2, at the back of the deque. */
  lemma {:induction false} LastNodeLinks<E>(t: Tree<E>, order: seq<int>)
    requires Frontier(t, order) && |order| >= 2
    ensures var n := |order|;
            var v, p := order[n - 1], order[(n - 2) / 2];
            && 0 <= v < |t.nodes| && 0 <= p < |t.nodes| && p != v && v != t.root
            && t.line != [] && t.line[|t.line| - 1] == v && t.count == n
            && IsLeaf(t.nodes[v]) && t.nodes[v].parent == p
            && (if n % 2 == 1 then t.nodes[p].right == v
                else t.nodes[p].left == v && t.nodes[p].right == -1)
  {
    var n := |order|;
    var v, p := order[n - 1], order[(n - 2) / 2];
    assert NodeAt(t, order, n - 1) && NodeAt(t, order, (n - 2) / 2);
    assert LinksOK(t.nodes, v);
  }

  /** The corrected remove() when the parent of the deque's back has a right child: that child goes. */
  lemma {:induction false} RemoveIntendedTakesRight<E>(t: Tree<E>, v: int, p: int)
    requires WellFormed(t) && t.count >= 2 && t.line != [] && t.line[|t.line| - 1] == v
    requires 0 <= v < |t.nodes| && 0 <= p < |t.nodes| && p != v
    requires t.nodes[v].parent == p && t.nodes[p].right == v && IsLeaf(t.nodes[v])
    ensures RemoveIntended(t) ==
              (Tree(t.nodes[p := t.nodes[p].(right := -1)], t.root, [p] + DropLast(t.line), t.count - 1),
               Ok(t.nodes[v].elem))
  {
    assert LinksOK(t.nodes, v) && LinksOK(t.nodes, p);
    assert t.nodes[p].left != v;
  }

  /** The corrected remove() when that parent has only its left child: the left child goes. */
  lemma {:induction false} RemoveIntendedTakesLeft<E>(t: Tree<E>, v: int, p: int)
    requires WellFormed(t) && t.count >= 2 && t.line != [] && t.line[|t.line| - 1] == v
    requires 0 <= v < |t.nodes| && 0 <= p < |t.nodes| && p != v
    requires t.nodes[v].parent == p && t.nodes[p].right == -1 && t.nodes[p].left == v && IsLeaf(t.nodes[v])
    ensures RemoveIntended(t) ==
              (Tree(t.nodes[p := t.nodes[p].(left := -1)], t.root, DropLast(t.line), t.count - 1),
               Ok(t.nodes[v].elem))
  {
    assert LinksOK(t.nodes, v);
  }

  /** The deque after a remove, as an edit of the deque before it. */
  lemma {:induction false} FrontierOfDropLast(line: seq<int>, order: seq<int>)
    requires |order| >= 2 && Suffix(line, order, FrontStart(|order|))
    ensures |order| % 2 == 1 ==>
              Suffix([order[(|order| - 2) / 2]] + DropLast(line), DropLast(order), FrontStart(|order| - 1))
    ensures |order| % 2 == 0 ==> Suffix(DropLast(line), DropLast(order), FrontStart(|order| - 1))
  {
    var n, a := |order|, FrontStart(|order|);
    SuffixDropLast(line, order, a);
    if n % 2 == 1 {
      assert FrontStart(n - 1) == a - 1 == (n - 2) / 2;
      assert DropLast(order)[a - 1] == order[a - 1];
      SuffixCons(DropLast(line), DropLast(order), a - 1);
    } else {
      assert FrontStart(n - 1) == a;
    }
  }

  /**
   * As written, the two slips cancel out in pairs: from a complete tree
   * with an odd number n >= 3 of nodes, remove() twice yields the last two
   * elements and again a complete tree whose deque is the frontier.
   */
  lemma {:induction false} TwoRemovesRestoreFrontier<E>(t: Tree<E>, order: seq<int>)
    requires Frontier(t, order) && |order| >= 3 && |order| % 2 == 1
    ensures var t1 := RemoveLast(t).0;
            && RemoveLast(t).1 == Ok(t.nodes[order[|order| - 1]].elem)
            && RemoveLast(t1).1 == Ok(t.nodes[order[|order| - 2]].elem)
            && Frontier(RemoveLast(t1).0, DropLast(DropLast(order)))
            && SameElemsAndParents(RemoveLast(t1).0.nodes, t.nodes)
  {
    var t1 := RemoveLast(t).0;
    RemoveRightLeavesGap(t, order);
    RemoveLeftClosesGap(t1, DropLast(order));
  }

  /** The first of the pair: the right child goes, and so does its parent from the deque. */
  lemma {:induction false} RemoveRightLeavesGap<E>(t: Tree<E>, order: seq<int>)
    requires Frontier(t, order) && |order| >= 3 && |order| % 2 == 1
    ensures RemoveLast(t).1 == Ok(t.nodes[order[|order| - 1]].elem)
    ensures LevelOrder(RemoveLast(t).0, DropLast(order))
    ensures Suffix(RemoveLast(t).0.line, DropLast(order), FrontStart(|order| - 1) + 1)
  {
    FrontierLastAtBack(t, order);
    RemoveKeepsLevelOrder(t, order);
    SuffixDropLast(t.line, order, FrontStart(|order|));
  }

  /** The second of the pair: the left child goes and the parent comes back to the front. */
  lemma {:induction false} RemoveLeftClosesGap<E>(t: Tree<E>, order: seq<int>)
    requires LevelOrder(t, order) && |order| >= 2 && |order| % 2 == 0
    requires Suffix(t.line, order, FrontStart(|order|) + 1)
    ensures RemoveLast(t).1 == Ok(t.nodes[order[|order| - 1]].elem)
    ensures Frontier(RemoveLast(t).0, DropLast(order))
    ensures SameElemsAndParents(RemoveLast(t).0.nodes, t.nodes)
  {
    var n, a := |order|, FrontStart(|order|);
    assert LastAtBack(t, order) by {
      assert t.line[|t.line| - 1] == order[a + 1 + (|t.line| - 1)];
    }
    RemoveKeepsLevelOrder(t, order);
    GapClosed(t.line, order, RemoveLast(t).0.line);
  }

  /** The deque of the second remove: the gap's parent returns to the front, the back leaves. */
  lemma {:induction false} GapClosed(line: seq<int>, order: seq<int>, line': seq<int>)
    requires |order| >= 2 && |order| % 2 == 0 && Suffix(line, order, FrontStart(|order|) + 1)
    requires line' == [order[(|order| - 2) / 2]] + DropLast(line)
    ensures Suffix(line', DropLast(order), FrontStart(|order| - 1))
  {
    var n, a, o' := |order|, FrontStart(|order|), DropLast(order);
    assert a == (n - 2) / 2 == FrontStart(n - 1) && o'[a] == order[a];
    SuffixDropLast(line, order, a + 1);
    SuffixCons(DropLast(line), o', a);
  }
}
