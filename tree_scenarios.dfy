/**
 * Histories of add and remove on MyLinkedHeapTree, starting from an empty
 * tree, as MyLinkedHeapTreeTest.java exercises them.
 */
module TreeScenarios {
  import opened LinkedTree
  import opened TreeShape

  /** add each element of xs in turn. */
  function AddAll<E>(t: Tree<E>, xs: seq<E>): (r: Tree<E>)
    requires WellFormed(t)
    ensures WellFormed(r)
    decreases |xs|
  {
    if xs == [] then t else AddAll(AddNode(t, xs[0]).0, xs[1..])
  }

  /** The results of k successive calls of remove. */
  function Drain<E>(t: Tree<E>, k: nat): (r: seq<Result<E>>)
    requires WellFormed(t)
    ensures |r| == k
    decreases k
  {
    if k == 0 then [] else [RemoveLast(t).1] + Drain(RemoveLast(t).0, k - 1)
  }

  /** The indices lo, lo + 1, ..., hi - 1. */
  function Range(lo: int, hi: int): (r: seq<int>)
    requires lo <= hi
    ensures |r| == hi - lo && forall j :: 0 <= j < |r| ==> r[j] == lo + j
    decreases hi - lo
  {
    if lo == hi then [] else Range(lo, hi - 1) + [hi - 1]
  }

  /**
   * Successive adds keep the tree complete with its deque in order; the
   * new nodes are the next arena indices (`all` lists the whole level
   * order) and carry the added elements.
   */
  lemma {:induction false} AddAllKeepsFrontier<E>(t: Tree<E>, order: seq<int>, xs: seq<E>, all: seq<int>)
    requires Frontier(t, order) && all == order + Range(|t.nodes|, |t.nodes| + |xs|)
    ensures Frontier(AddAll(t, xs), all)
    ensures Payloads(AddAll(t, xs).nodes) == Payloads(t.nodes) + xs
    decreases |xs|
  {
    var m := |t.nodes|;
    if xs == [] {
      assert all == order;
    } else {
      var t1 := AddNode(t, xs[0]).0;
      assert Frontier(t1, order + [m]) && |t1.nodes| == m + 1
          && Payloads(t1.nodes) == Payloads(t.nodes) + [xs[0]] by {
        AddKeepsFrontier(t, order, xs[0]);
      }
      Regroup(order, m, m + |xs|, Payloads(t.nodes), xs);
      AddAllKeepsFrontier(t1, order + [m], xs[1..], all);
      assert AddAll(t, xs) == AddAll(t1, xs[1..]);
    }
  }

  lemma {:induction false} Regroup<E>(order: seq<int>, m: int, h: int, ps: seq<E>, xs: seq<E>)
    requires m < h && xs != []
    ensures order + [m] + Range(m + 1, h) == order + Range(m, h)
    ensures ps + [xs[0]] + xs[1..] == ps + xs
  {
    var r := Range(m, h);
    assert [m] + Range(m + 1, h) == r by {
      assert forall j :: 0 <= j < |r| ==> ([m] + Range(m + 1, h))[j] == r[j];
    }
    assert [xs[0]] + xs[1..] == xs;
  }

  /**
   * A complete tree with an odd number n of nodes drains completely, last
   * node first: remove returns the elements in reverse level order.
   */
  lemma {:induction false} DrainOddInReverse<E>(t: Tree<E>, order: seq<int>)
    requires Frontier(t, order) && |order| % 2 == 1
    ensures forall i :: 0 <= i < |order| ==> Drain(t, |order|)[i] == Ok(Payloads(t.nodes)[order[|order| - 1 - i]])
    ensures RemoveTimes(t, |order|).count == 0
    decreases |order|, 1
  {
    if |order| == 1 {
      assert RemoveLast(t).1 == Ok(t.nodes[order[0]].elem) && RemoveLast(t).0.count == 0 by {
        FrontierLastAtBack(t, order);
        RemoveKeepsLevelOrder(t, order);
      }
    } else {
      DrainOddStep(t, order);
    }
  }

  lemma {:induction false} DrainOddStep<E>(t: Tree<E>, order: seq<int>)
    requires Frontier(t, order) && |order| % 2 == 1 && |order| >= 3
    ensures forall i :: 0 <= i < |order| ==> Drain(t, |order|)[i] == Ok(Payloads(t.nodes)[order[|order| - 1 - i]])
    ensures RemoveTimes(t, |order|).count == 0
    decreases |order|, 0
  {
    var n := |order|;
    var t1 := RemoveLast(t).0;
    var t2 := RemoveLast(t1).0;
    var o2 := DropLast(DropLast(order));
    var ps := Payloads(t.nodes);
    TwoRemovesRestoreFrontier(t, order);
    OddLessTwo(n);
    DrainOddInReverse(t2, o2);
    assert Payloads(t2.nodes) == ps;
    assert forall j :: 0 <= j < |o2| ==> o2[j] == order[j];
    DrainUnfoldTwo(t, n);
    PrependTwo(Drain(t, n), RemoveLast(t).1, RemoveLast(t1).1, Drain(t2, |o2|), ps, order, o2);
    DrainTwoMoreCount(t, order, t2, o2);
  }

  lemma OddLessTwo(n: int)
    requires n % 2 == 1
    ensures (n - 2) % 2 == 1
  {
  }

  /** Results of the last two nodes, in front of the results of the rest in reverse order, are all in reverse order. */
  lemma {:induction false} PrependTwo<E>(d: seq<Result<E>>, r1: Result<E>, r2: Result<E>, d2: seq<Result<E>>,
                                         ps: seq<E>, order: seq<int>, o2: seq<int>)
    requires |order| >= 2 && forall j :: 0 <= j < |order| ==> 0 <= order[j] < |ps|
    requires |o2| == |order| - 2 && forall j :: 0 <= j < |o2| ==> o2[j] == order[j]
    requires d == [r1] + ([r2] + d2)
    requires r1 == Ok(ps[order[|order| - 1]]) && r2 == Ok(ps[order[|order| - 2]])
    requires |d2| == |o2| && forall i :: 0 <= i < |o2| ==> d2[i] == Ok(ps[o2[|o2| - 1 - i]])
    ensures forall i :: 0 <= i < |order| ==> d[i] == Ok(ps[order[|order| - 1 - i]])
  {
    forall i | 2 <= i < |order| ensures d[i] == Ok(ps[order[|order| - 1 - i]]) {
      assert d[i] == ([r2] + d2)[i - 1] == d2[i - 2];
    }
  }

  lemma {:induction false} DrainUnfoldTwo<E>(t: Tree<E>, k: nat)
    requires WellFormed(t) && k >= 2
    ensures var t1 := RemoveLast(t).0;
            Drain(t, k) == [RemoveLast(t).1] + ([RemoveLast(t1).1] + Drain(RemoveLast(t1).0, k - 2))
  {
    var t1 := RemoveLast(t).0;
    assert Drain(t, k) == [RemoveLast(t).1] + Drain(t1, k - 1);
    assert Drain(t1, k - 1) == [RemoveLast(t1).1] + Drain(RemoveLast(t1).0, k - 2);
  }

  lemma {:induction false} DrainTwoMoreCount<E>(t: Tree<E>, order: seq<int>, t2: Tree<E>, o2: seq<int>)
    requires WellFormed(t) && |order| >= 3 && |o2| == |order| - 2
    requires t2 == RemoveLast(RemoveLast(t).0).0 && RemoveTimes(t2, |o2|).count == 0
    ensures RemoveTimes(t, |order|).count == 0
  {
    var n := |order|;
    var t1 := RemoveLast(t).0;
    assert RemoveTimes(t, n) == RemoveTimes(t1, n - 1) == RemoveTimes(t2, n - 2);
  }

  /**
   * Adding an odd number of elements to an empty tree and then removing
   * as many times returns them last first and empties the tree; adding
   * 1..7 and removing seven times gives 7, 6, ..., 1
   * (MyLinkedHeapTreeTest.java:92-131).
   */
  lemma {:induction false} OddAddsDrainInReverse<E>(xs: seq<E>)
    requires |xs| % 2 == 1
    ensures var t := AddAll(Empty(), xs);
            && (forall i :: 0 <= i < |xs| ==> Drain(t, |xs|)[i] == Ok(xs[|xs| - 1 - i]))
            && RemoveTimes(t, |xs|).count == 0
  {
    var t := AddAll(Empty(), xs);
    var o := Range(0, |xs|);
    AddsInArenaOrder(xs, o);
    DrainOddInReverse(t, o);
    var d := Drain(t, |o|);
    forall i | 0 <= i < |xs| ensures d[i] == Ok(xs[|xs| - 1 - i]) {
      var k := |xs| - 1 - i;
      assert d[i] == Ok(Payloads(t.nodes)[o[k]]);
      assert o[k] == k;
    }
  }

  /** Every result in rs is a success. */
  ghost predicate AllOk<E>(rs: seq<Result<E>>)
  {
    forall j :: 0 <= j < |rs| ==> rs[j].Ok?
  }

  /** After i of k removes that all succeed, the count is down by i. */
  lemma {:induction false} DrainCounts<E>(t: Tree<E>, k: nat, i: nat)
    requires WellFormed(t) && i <= k && AllOk(Drain(t, k))
    ensures RemoveTimes(t, i).count == t.count - i
    decreases i
  {
    if i > 0 {
      var r := RemoveLast(t);
      var d, d1 := Drain(t, k), Drain(r.0, k - 1);
      assert d == [r.1] + d1;
      assert r.1.Ok? by { assert d[0] == r.1; }
      assert AllOk(d1) by {
        forall j | 0 <= j < |d1| ensures d1[j].Ok? {
          assert d1[j] == d[j + 1];
        }
      }
      DrainCounts(r.0, k - 1, i - 1);
      assert RemoveTimes(t, i) == RemoveTimes(r.0, i - 1);
    }
  }

  /** MyLinkedHeapTreeTest.java:91-131: seven adds, then seven removes giving 7, 6, ..., 1 with the size going down by one each time. */
  lemma {:induction false} SevenAddsDrainInReverse(xs: seq<int>)
    requires xs == [1, 2, 3, 4, 5, 6, 7]
    ensures Drain(AddAll(Empty(), xs), |xs|) == [Ok(7), Ok(6), Ok(5), Ok(4), Ok(3), Ok(2), Ok(1)]
    ensures forall i :: 0 <= i <= 7 ==> RemoveTimes(AddAll(Empty(), xs), i).count == 7 - i
  {
    var t := AddAll(Empty(), xs);
    OddAddsDrainInReverse(xs);
    AddsInArenaOrder(xs, Range(0, 7));
    SevenSizes(t);
  }

  /** Seven removes that return 7, 6, ..., 1 from a tree of seven nodes take its size down one at a time. */
  lemma {:induction false} SevenSizes(t: Tree<int>)
    requires WellFormed(t) && t.count == 7
    requires Drain(t, 7) == [Ok(7), Ok(6), Ok(5), Ok(4), Ok(3), Ok(2), Ok(1)]
    ensures forall i :: 0 <= i <= 7 ==> RemoveTimes(t, i).count == 7 - i
  {
    assert AllOk(Drain(t, 7));
    forall i | 0 <= i <= 7 ensures RemoveTimes(t, i).count == 7 - i {
      DrainCounts(t, 7, i);
    }
  }

  /**
   * Adding 1..8 and then removing: after five removes the deque back is a
   * node already removed, and the sixth remove asks for the left child of
   * a node that has none (the library's BoundaryViolationException), after
   * the counter has already been decremented.
   */
  lemma {:induction false} EightAddsSixthRemoveFails(xs: seq<int>)
    requires xs == [1, 2, 3, 4, 5, 6, 7, 8]
    ensures var t := RemoveTimes(AddAll(Empty(), xs), 5);
            RemoveLast(t).1 == Err(NoSuchChild) && RemoveLast(t).0.count == 2
  {
    var t, o := AddAll(Empty(), xs), [0, 1, 2, 3, 4, 5, 6, 7];
    AddsInArenaOrder(xs, o);
    EightNodes(t, o);
    RemoveEightTimesFive(t, o);
  }

  /** Adding to an empty tree numbers the nodes 0, 1, 2, ... in level order. */
  lemma {:induction false} AddsInArenaOrder<E>(xs: seq<E>, o: seq<int>)
    requires o == Range(0, |xs|)
    ensures Frontier(AddAll(Empty(), xs), o) && Payloads(AddAll(Empty(), xs).nodes) == xs
  {
    assert [] + o == o;
    AddAllKeepsFrontier(Empty(), [], xs, o);
  }

  /** The tree of 8 nodes in arena order: its deque and the parent of node 3. */
  lemma {:induction false} EightNodes<E>(t: Tree<E>, o: seq<int>)
    requires o == [0, 1, 2, 3, 4, 5, 6, 7] && Frontier(t, o)
    ensures t.line == [3, 4, 5, 6, 7] && |t.nodes| > 3 && t.nodes[3].parent == 1
  {
    assert FrontStart(8) == 3;
    assert NodeAt(t, o, 3);
  }

  lemma {:induction false} RemoveEightTimesFive<E>(t: Tree<E>, o: seq<int>)
    requires o == [0, 1, 2, 3, 4, 5, 6, 7]
    requires LevelOrder(t, o) && t.line == [3, 4, 5, 6, 7] && |t.nodes| > 3 && t.nodes[3].parent == 1
    ensures var t' := RemoveTimes(t, 5);
            RemoveLast(t').1 == Err(NoSuchChild) && RemoveLast(t').0.count == 2
  {
    RemoveKeepsLevelOrder(t, o);
    var t1 := RemoveLast(t).0;
    assert DropLast(o) == [0, 1, 2, 3, 4, 5, 6];
    assert t1.line == [3, 3, 4, 5, 6];
    RemoveSevenTimesFour(t1);
    assert RemoveTimes(t, 5) == RemoveTimes(t1, 4);
  }

  lemma {:induction false} RemoveSevenTimesFour<E>(t: Tree<E>)
    requires LevelOrder(t, [0, 1, 2, 3, 4, 5, 6]) && t.line == [3, 3, 4, 5, 6] && |t.nodes| > 3 && t.nodes[3].parent == 1
    ensures var t' := RemoveTimes(t, 4);
            RemoveLast(t').1 == Err(NoSuchChild) && RemoveLast(t').0.count == 2
  {
    var o := [0, 1, 2, 3, 4, 5, 6];
    RemoveKeepsLevelOrder(t, o);
    var t1 := RemoveLast(t).0;
    assert DropLast(o) == [0, 1, 2, 3, 4, 5];
    assert t1.line == [3, 3, 4, 5];
    RemoveSixTimesThree(t1);
    assert RemoveTimes(t, 4) == RemoveTimes(t1, 3);
  }

  lemma {:induction false} RemoveSixTimesThree<E>(t: Tree<E>)
    requires LevelOrder(t, [0, 1, 2, 3, 4, 5]) && t.line == [3, 3, 4, 5] && |t.nodes| > 3 && t.nodes[3].parent == 1
    ensures var t' := RemoveTimes(t, 3);
            RemoveLast(t').1 == Err(NoSuchChild) && RemoveLast(t').0.count == 2
  {
    var o := [0, 1, 2, 3, 4, 5];
    RemoveKeepsLevelOrder(t, o);
    var t1 := RemoveLast(t).0;
    assert DropLast(o) == [0, 1, 2, 3, 4];
    assert t1.line == [2, 3, 3, 4];
    RemoveFiveTimesTwo(t1);
    assert RemoveTimes(t, 3) == RemoveTimes(t1, 2);
  }

  lemma {:induction false} RemoveFiveTimesTwo<E>(t: Tree<E>)
    requires LevelOrder(t, [0, 1, 2, 3, 4]) && t.line == [2, 3, 3, 4] && |t.nodes| > 3 && t.nodes[3].parent == 1
    ensures var t' := RemoveTimes(t, 2);
            RemoveLast(t').1 == Err(NoSuchChild) && RemoveLast(t').0.count == 2
  {
    var o := [0, 1, 2, 3, 4];
    RemoveKeepsLevelOrder(t, o);
    var t1 := RemoveLast(t).0;
    assert DropLast(o) == [0, 1, 2, 3];
    assert t1.line == [2, 3, 3];
    RemoveFourTimesOne(t1);
    assert RemoveTimes(t, 2) == RemoveTimes(t1, 1);
  }

  lemma {:induction false} RemoveFourTimesOne<E>(t: Tree<E>)
    requires LevelOrder(t, [0, 1, 2, 3]) && t.line == [2, 3, 3] && |t.nodes| > 3 && t.nodes[3].parent == 1
    ensures var t' := RemoveTimes(t, 1);
            RemoveLast(t').1 == Err(NoSuchChild) && RemoveLast(t').0.count == 2
  {
    var o := [0, 1, 2, 3];
    RemoveKeepsLevelOrder(t, o);
    var t1 := RemoveLast(t).0;
    assert DropLast(o) == [0, 1, 2];
    assert t1.line == [1, 2, 3];
    RemoveFromStaleBack(t1);
    assert RemoveTimes(t, 1) == t1;
  }

  /** The deque back 3 was removed already; its parent 1 has no children left. */
  lemma {:induction false} RemoveFromStaleBack<E>(t: Tree<E>)
    requires LevelOrder(t, [0, 1, 2]) && t.line == [1, 2, 3] && |t.nodes| > 3 && t.nodes[3].parent == 1
    ensures RemoveLast(t).1 == Err(NoSuchChild) && RemoveLast(t).0.count == 2
  {
    assert NodeAt(t, [0, 1, 2], 1);
  }

  /** remove applied k times, whatever each call returns. */
  function RemoveTimes<E>(t: Tree<E>, k: nat): (r: Tree<E>)
    requires WellFormed(t)
    ensures WellFormed(r)
    decreases k
  {
    if k == 0 then t else RemoveTimes(RemoveLast(t).0, k - 1)
  }
}
