/**
 * The complete binary tree of MyLinkedHeapTree: a linked binary tree whose
 * nodes live in an arena (a node is named by its index, -1 stands for null),
 * plus the deque `line` of frontier positions and the counter `count`
 * (`node_num` in the source).
 *
 * The linked-tree library the source builds on (insertLeft, insertRight,
 * remove of a leaf, swapElements, parent/left/right queries) is modelled
 * by the functions in the first half of this module.  Where that library
 * throws, the model returns a TreeError.
 */
module LinkedTree {

  /** One node of the linked tree; `parent`, `left`, `right` are arena indices or -1. */
  datatype Node<E> = Node(elem: E, parent: int, left: int, right: int)

  datatype TreeError =
    | EmptyTree        // EmptyTreeException: no root
    | EmptyDeque       // the deque `line` was asked for an end it does not have
    | InvalidPosition  // a position that is null or not a node of this arena
    | NoSuchChild      // BoundaryViolationException: left(v) of a node without left child
    | NoParent         // parent(v) of a node without parent
    | ChildTaken       // insertRight on a node that already has a right child
    | NotALeaf         // remove(v) of a node that still has a child

  datatype Result<T> = Ok(value: T) | Err(error: TreeError)

  datatype Outcome = Pass | Fail(error: TreeError)

  /** The fields of MyLinkedHeapTree: `tree_` (nodes, root), `line` and `node_num`. */
  datatype Tree<E> = Tree(nodes: seq<Node<E>>, root: int, line: seq<int>, count: int)

  function Empty<E>(): Tree<E> { Tree([], -1, [], 0) }

  predicate IsLeaf<E>(n: Node<E>) { n.left == -1 && n.right == -1 }

  predicate ValidPos<E>(t: Tree<E>, p: int) { 0 <= p < |t.nodes| }

  /** Links of node i point forward to children that point back, and back to an earlier parent. */
  ghost predicate LinksOK<E>(nodes: seq<Node<E>>, i: int)
    requires 0 <= i < |nodes|
  {
    var n := nodes[i];
    && -1 <= n.parent < i
    && (n.left == -1 || (i < n.left < |nodes| && nodes[n.left].parent == i))
    && (n.right == -1 || (i < n.right < |nodes| && nodes[n.right].parent == i))
    && (n.left == -1 || n.left != n.right)
  }

  /** The structural invariant every operation keeps, whatever the history. */
  ghost predicate WellFormed<E>(t: Tree<E>)
  {
    && (forall i :: 0 <= i < |t.nodes| ==> LinksOK(t.nodes, i))
    && (t.root == -1 || (0 <= t.root < |t.nodes| && t.nodes[t.root].parent == -1))
    && t.count >= 0
    && (t.count == 0 <==> t.root == -1)
    && (t.count == 0 ==> t.line == [])
    && (forall k :: 0 <= k < |t.line| ==> 0 <= t.line[k] < |t.nodes|)
  }

  /** Links of every node, without payloads. */
  function Links<E>(nodes: seq<Node<E>>): (s: seq<(int, int, int)>)
    ensures |s| == |nodes|
    ensures forall i {:trigger s[i]} :: 0 <= i < |nodes| ==>
              s[i] == (nodes[i].parent, nodes[i].left, nodes[i].right)
  {
    seq(|nodes|, i requires 0 <= i < |nodes| => (nodes[i].parent, nodes[i].left, nodes[i].right))
  }

  /** Payloads of every node. */
  function Payloads<E>(nodes: seq<Node<E>>): (s: seq<E>)
    ensures |s| == |nodes|
    ensures forall i {:trigger s[i]} :: 0 <= i < |nodes| ==> s[i] == nodes[i].elem
  {
    seq(|nodes|, i requires 0 <= i < |nodes| => nodes[i].elem)
  }

  /** Payloads and parent links agree node by node: all that removing a leaf touches is a child link. */
  ghost predicate SameElemsAndParents<E>(a: seq<Node<E>>, b: seq<Node<E>>)
  {
    |a| == |b| && forall i :: 0 <= i < |a| ==> a[i].elem == b[i].elem && a[i].parent == b[i].parent
  }

  /** Each child link of a is the one of b or has been cleared. */
  ghost predicate Pruned<E>(a: seq<Node<E>>, b: seq<Node<E>>)
    requires |a| == |b|
  {
    forall i :: 0 <= i < |a| ==>
      (a[i].left == b[i].left || a[i].left == -1) && (a[i].right == b[i].right || a[i].right == -1)
  }

  /** b is a with one more node, a leaf, which some nodes of a may have gained as a child. */
  ghost predicate Grown<E>(b: seq<Node<E>>, a: seq<Node<E>>)
  {
    && |b| == |a| + 1 && IsLeaf(b[|a|])
    && forall i :: 0 <= i < |a| ==>
         && b[i].elem == a[i].elem && b[i].parent == a[i].parent
         && (b[i].left == a[i].left || b[i].left == |a|) && (b[i].right == a[i].right || b[i].right == |a|)
  }

  /** swapElements(a, b) of the library: the payloads of a and b trade places. */
  function SwapElements<E>(nodes: seq<Node<E>>, a: int, b: int): (r: seq<Node<E>>)
    requires 0 <= a < |nodes| && 0 <= b < |nodes|
    ensures |r| == |nodes| && Links(r) == Links(nodes)
    ensures r[a].elem == nodes[b].elem && r[b].elem == nodes[a].elem
    ensures forall i :: 0 <= i < |nodes| && i != a && i != b ==> r[i] == nodes[i]
  {
    var ea, eb := nodes[a].elem, nodes[b].elem;
    nodes[a := nodes[a].(elem := eb)][b := nodes[b].(elem := ea)]
  }

  /** Two arenas with the same links are consistent at the same nodes. */
  lemma {:induction false} SameLinksOK<E, F>(a: seq<Node<E>>, b: seq<Node<F>>)
    requires |a| == |b|
    requires forall i :: 0 <= i < |a| ==>
               a[i].parent == b[i].parent && a[i].left == b[i].left && a[i].right == b[i].right
    ensures forall i :: 0 <= i < |a| ==> (LinksOK(a, i) <==> LinksOK(b, i))
  {
  }

  /** remove(v) of the library for a node of this arena: detaches the leaf v. */
  function Detach<E>(t: Tree<E>, v: int): (r: (Tree<E>, Result<E>))
    requires WellFormed(t) && 0 <= v < |t.nodes|
    ensures r.1.Err? ==> r.0 == t
    ensures r.1.Ok? ==> r.1.value == t.nodes[v].elem && IsLeaf(t.nodes[v]) && r.1.value in Payloads(t.nodes)
    ensures r.1.Ok? && v != t.root ==> WellFormed(r.0) && r.0.root == t.root
    ensures r.0.line == t.line && r.0.count == t.count
    ensures SameElemsAndParents(r.0.nodes, t.nodes) && Pruned(r.0.nodes, t.nodes)
  {
    var n := t.nodes[v];
    assert Payloads(t.nodes)[v] == n.elem;
    if !IsLeaf(n) then (t, Err(NotALeaf))
    else if v == t.root then (t.(root := -1), Ok(n.elem))
    else if n.parent == -1 then (t, Err(NoParent))
    else
      assert LinksOK(t.nodes, v);
      var u := t.nodes[n.parent];
      var u' := if u.left == v then u.(left := -1) else u.(right := -1);
      var nodes := t.nodes[n.parent := u'];
      assert forall i :: 0 <= i < |nodes| ==> LinksOK(nodes, i) by {
        forall i | 0 <= i < |nodes| ensures LinksOK(nodes, i) { assert LinksOK(t.nodes, i); }
      }
      (t.(nodes := nodes), Ok(n.elem))
  }

  /** updateList (MyLinkedHeapTree.java:148-152): drop the front if it has both children. */
  function UpdatedLine<E>(nodes: seq<Node<E>>, line: seq<int>): (r: seq<int>)
    requires line != [] && 0 <= line[0] < |nodes|
    ensures r == line || r == line[1..]
  {
    var f := nodes[line[0]];
    if f.left != -1 && f.right != -1 then line[1..] else line
  }

  /** Appending a leaf under f (or as a new root, f = -1) through a free child link keeps every link consistent. */
  lemma {:induction false} HangKeepsLinks<E>(nodes: seq<Node<E>>, f: int, x: E, nodes': seq<Node<E>>)
    requires forall i :: 0 <= i < |nodes| ==> LinksOK(nodes, i)
    requires -1 <= f < |nodes|
    requires nodes' == (if f == -1 then nodes
                        else if nodes[f].left == -1 then nodes[f := nodes[f].(left := |nodes|)]
                        else nodes[f := nodes[f].(right := |nodes|)]) + [Node(x, f, -1, -1)]
    requires f != -1 && nodes[f].left != -1 ==> nodes[f].right == -1
    ensures forall i :: 0 <= i < |nodes'| ==> LinksOK(nodes', i)
  {
    forall i | 0 <= i < |nodes'| ensures LinksOK(nodes', i) {
      if i < |nodes| { assert LinksOK(nodes, i); }
    }
  }

  /** add(element), MyLinkedHeapTree.java:54-75. */
  function AddNode<E>(t: Tree<E>, x: E): (r: (Tree<E>, Result<int>))
    requires WellFormed(t)
    ensures WellFormed(r.0)
    ensures r.1.Err? ==> r.0 == t
    ensures r.1.Ok? ==> r.1.value == |t.nodes| && |r.0.nodes| == |t.nodes| + 1
                        && r.0.nodes[|t.nodes|].elem == x && r.0.count == t.count + 1
                        && r.0.line != [] && r.0.line[|r.0.line| - 1] == |t.nodes|
    ensures r.1.Ok? ==> Payloads(r.0.nodes) == Payloads(t.nodes) + [x] && Grown(r.0.nodes, t.nodes)
  {
    var n := |t.nodes|;
    if t.count == 0 then
      var nodes := t.nodes + [Node(x, -1, -1, -1)];
      HangKeepsLinks(t.nodes, -1, x, nodes);
      (Tree(nodes, n, t.line + [n], 1), Ok(n))
    else if t.line == [] then (t, Err(EmptyDeque))
    else
      var f := t.line[0];
      assert LinksOK(t.nodes, f);
      if t.nodes[f].left == -1 then
        var nodes := t.nodes[f := t.nodes[f].(left := n)] + [Node(x, f, -1, -1)];
        HangKeepsLinks(t.nodes, f, x, nodes);
        (Tree(nodes, t.root, t.line + [n], t.count + 1), Ok(n))
      else if t.nodes[f].right != -1 then (t, Err(ChildTaken))
      else
        var nodes := t.nodes[f := t.nodes[f].(right := n)] + [Node(x, f, -1, -1)];
        HangKeepsLinks(t.nodes, f, x, nodes);
        var line := (t.line + [n])[1..];
        (Tree(nodes, t.root, UpdatedLine(nodes, line), t.count + 1), Ok(n))
  }

  /** remove(), MyLinkedHeapTree.java:86-109, with its two branches as written. */
  function RemoveLast<E>(t: Tree<E>): (r: (Tree<E>, Result<E>))
    requires WellFormed(t)
    ensures WellFormed(r.0)
    ensures t.count == 0 <==> r.1 == Err(EmptyTree)
    ensures r.1 == Err(EmptyTree) ==> r.0 == t
    ensures r.1.Ok? ==> r.0.count == t.count - 1
    ensures SameElemsAndParents(r.0.nodes, t.nodes) && Pruned(r.0.nodes, t.nodes)
    ensures r.1.Ok? ==> r.1.value in Payloads(t.nodes)
  {
    if t.count == 0 then (t, Err(EmptyTree))
    else if t.line == [] then (t, Err(EmptyDeque))
    else if t.count == 1 then
      var d := Detach(t, t.line[0]);
      if d.1.Err? then d
      else (Tree(d.0.nodes, -1, [], 0), d.1)
    else
      var last := t.line[|t.line| - 1];
      var line := t.line[..|t.line| - 1];
      var p := t.nodes[last].parent;
      assert LinksOK(t.nodes, last);
      assert p != -1 ==> LinksOK(t.nodes, p);
      if p == -1 then (t.(line := line), Err(NoParent))
      else if t.nodes[p].right != -1 then
        Detach(t.(line := line, count := t.count - 1), t.nodes[p].right)
      else
        var t1 := t.(line := [p] + line, count := t.count - 1);
        if t.nodes[p].left == -1 then (t1, Err(NoSuchChild))
        else Detach(t1, t.nodes[p].left)
  }

  /**
   * remove() with the two deque updates the right way round: after taking
   * a right child the parent goes back to the front of the deque (it now
   * misses a child), after taking a left child it does not.
   */
  function RemoveIntended<E>(t: Tree<E>): (r: (Tree<E>, Result<E>))
    requires WellFormed(t)
    ensures WellFormed(r.0)
    ensures t.count == 0 <==> r.1 == Err(EmptyTree)
    ensures r.1.Ok? ==> r.0.count == t.count - 1
    ensures SameElemsAndParents(r.0.nodes, t.nodes) && Pruned(r.0.nodes, t.nodes)
    ensures r.1.Ok? ==> r.1.value in Payloads(t.nodes)
  {
    if t.count == 0 then (t, Err(EmptyTree))
    else if t.line == [] then (t, Err(EmptyDeque))
    else if t.count == 1 then
      var d := Detach(t, t.line[0]);
      if d.1.Err? then d
      else (Tree(d.0.nodes, -1, [], 0), d.1)
    else
      var last := t.line[|t.line| - 1];
      var line := t.line[..|t.line| - 1];
      var p := t.nodes[last].parent;
      assert LinksOK(t.nodes, last);
      assert p != -1 ==> LinksOK(t.nodes, p);
      if p == -1 then (t.(line := line), Err(NoParent))
      else if t.nodes[p].right != -1 then
        Detach(t.(line := [p] + line, count := t.count - 1), t.nodes[p].right)
      else
        var t1 := t.(line := line, count := t.count - 1);
        if t.nodes[p].left == -1 then (t1, Err(NoSuchChild))
        else Detach(t1, t.nodes[p].left)
  }

  /** The sequence without its last entry. */
  function DropLast(s: seq<int>): (r: seq<int>)
    ensures |r| == if s == [] then 0 else |s| - 1
  {
    if s == [] then [] else s[..|s| - 1]
  }

  /**
   * MyLinkedHeapTree.  `order` is bookkeeping for the proofs only: the
   * arena indices of the nodes in the order add placed them (it is the
   * level order whenever the tree has a complete shape, see TreeShape).
   */
  class LinkedHeapTree<E> {
    var nodes: seq<Node<E>>
    var root: int
    var line: seq<int>
    var count: int
    ghost var order: seq<int>

    function State(): Tree<E>
      reads this
    {
      Tree(nodes, root, line, count)
    }

    ghost predicate Valid()
      reads this
    {
      WellFormed(State())
    }

    ghost function Elems(): set<E>
      reads this
    {
      set i | 0 <= i < |nodes| :: nodes[i].elem
    }

    /** The tree begins empty (MyLinkedHeapTree.java:35-38). */
    constructor ()
      ensures Valid() && State() == Empty() && order == []
    {
      nodes, root, line, count := [], -1, [], 0;
      order := [];
    }

    /** The library's remove(v) on a node of this arena. */
    method RemoveNode(v: int) returns (r: Result<E>)
      requires Valid() && 0 <= v < |nodes|
      modifies this`nodes, this`root
      ensures (State(), r) == Detach(old(State()), v)
    {
      var n := nodes[v];
      if !IsLeaf(n) {
        r := Err(NotALeaf);
      } else if v == root {
        root := -1;
        r := Ok(n.elem);
      } else if n.parent == -1 {
        r := Err(NoParent);
      } else {
        assert LinksOK(nodes, v);
        var u := nodes[n.parent];
        nodes := nodes[n.parent := if u.left == v then u.(left := -1) else u.(right := -1)];
        r := Ok(n.elem);
      }
    }

    /** updateList, MyLinkedHeapTree.java:148-152. */
    method UpdateList()
      requires line != [] && 0 <= line[0] < |nodes|
      modifies this`line
      ensures line == UpdatedLine(nodes, old(line))
    {
      if nodes[line[0]].left != -1 && nodes[line[0]].right != -1 {
        line := line[1..];
      }
    }

    /** add, MyLinkedHeapTree.java:54-75. */
    method Add(x: E) returns (r: Result<int>)
      requires Valid()
      modifies this
      ensures (State(), r) == AddNode(old(State()), x)
      ensures order == if r.Ok? then old(order) + [r.value] else old(order)
    {
      var n := |nodes|;
      if count == 0 {
        nodes := nodes + [Node(x, -1, -1, -1)];
        root := n;
        line := line + [n];
        count := count + 1;
        r := Ok(n);
      } else if line == [] {
        r := Err(EmptyDeque);
      } else {
        var f := line[0];
        if nodes[f].left == -1 {
          nodes := nodes[f := nodes[f].(left := n)] + [Node(x, f, -1, -1)];
          line := line + [n];
          count := count + 1;
          r := Ok(n);
        } else if nodes[f].right != -1 {
          r := Err(ChildTaken);
        } else {
          nodes := nodes[f := nodes[f].(right := n)] + [Node(x, f, -1, -1)];
          line := line + [n];
          line := line[1..];
          count := count + 1;
          UpdateList();
          r := Ok(n);
        }
      }
      if r.Ok? {
        order := order + [r.value];
      }
    }

    /** remove, MyLinkedHeapTree.java:86-109. */
    method Remove() returns (r: Result<E>)
      requires Valid()
      modifies this
      ensures (State(), r) == RemoveLast(old(State()))
      ensures order == if r.Ok? then (if count == 0 then [] else DropLast(old(order))) else old(order)
    {
      ghost var t := State();
      if count == 0 {
        return Err(EmptyTree);
      }
      if line == [] {
        return Err(EmptyDeque);
      }
      if count == 1 {
        r := RemoveNode(line[0]);
        if r.Ok? {
          root, line, count := -1, [], 0;
          order := [];
        }
        return;
      }
      var toRemove := line[|line| - 1];
      line := line[..|line| - 1];
      var p := nodes[toRemove].parent;
      assert LinksOK(nodes, toRemove);
      if p == -1 {
        return Err(NoParent);
      }
      assert LinksOK(nodes, p);
      if nodes[p].right != -1 {
        count := count - 1;
        assert RemoveLast(t) == Detach(State(), nodes[p].right);
        r := RemoveNode(nodes[p].right);
      } else {
        count := count - 1;
        line := [p] + line;
        if nodes[p].left == -1 {
          return Err(NoSuchChild);
        }
        assert RemoveLast(t) == Detach(State(), nodes[p].left);
        r := RemoveNode(nodes[p].left);
      }
      if r.Ok? {
        order := DropLast(order);
      }
    }

    /** size, MyLinkedHeapTree.java:114-116. */
    method Size() returns (n: int)
      ensures n == count
    {
      n := count;
    }

    /** swap, MyLinkedHeapTree.java:118-120: payloads trade places, links stay. */
    method Swap(a: int, b: int) returns (r: Outcome)
      modifies this`nodes
      ensures ValidPos(old(State()), a) && ValidPos(old(State()), b) ==>
                r == Pass && nodes == SwapElements(old(nodes), a, b)
      ensures !(ValidPos(old(State()), a) && ValidPos(old(State()), b)) ==>
                r == Fail(InvalidPosition) && nodes == old(nodes)
    {
      if 0 <= a < |nodes| && 0 <= b < |nodes| {
        nodes := SwapElements(nodes, a, b);
        r := Pass;
      } else {
        r := Fail(InvalidPosition);
      }
    }

    /** return_min, MyLinkedHeapTree.java:122-124: the root's payload. */
    method ReturnMin() returns (r: Result<E>)
      requires Valid()
      ensures root == -1 ==> r == Err(EmptyTree)
      ensures root != -1 ==> r == Ok(nodes[root].elem)
    {
      if root == -1 {
        r := Err(EmptyTree);
      } else {
        r := Ok(nodes[root].elem);
      }
    }

    /** return_newest, MyLinkedHeapTree.java:126-128: the back of the deque. */
    method ReturnNewest() returns (r: Result<int>)
      requires Valid()
      ensures line == [] ==> r == Err(EmptyDeque)
      ensures line != [] ==> r == Ok(line[|line| - 1]) && ValidPos(State(), r.value)
    {
      if line == [] {
        r := Err(EmptyDeque);
      } else {
        r := Ok(line[|line| - 1]);
      }
    }

    /** root, MyLinkedHeapTree.java:130-132. */
    method Root() returns (r: Result<int>)
      requires Valid()
      ensures root == -1 <==> r == Err(EmptyTree)
      ensures root != -1 ==> r == Ok(root) && ValidPos(State(), root)
    {
      if root == -1 {
        r := Err(EmptyTree);
      } else {
        r := Ok(root);
      }
    }

    /** right, MyLinkedHeapTree.java:134-141: the right child, or null (-1) when there is none. */
    method Right(i: int) returns (r: Result<int>)
      ensures !ValidPos(State(), i) ==> r == Err(InvalidPosition)
      ensures ValidPos(State(), i) ==> r == Ok(nodes[i].right)
    {
      if 0 <= i < |nodes| {
        r := Ok(nodes[i].right);
      } else {
        r := Err(InvalidPosition);
      }
    }

    /** left, MyLinkedHeapTree.java:143-145: the library's left(i), which fails without a left child. */
    method Left(i: int) returns (r: Result<int>)
      ensures !ValidPos(State(), i) ==> r == Err(InvalidPosition)
      ensures ValidPos(State(), i) && nodes[i].left == -1 ==> r == Err(NoSuchChild)
      ensures ValidPos(State(), i) && nodes[i].left != -1 ==> r == Ok(nodes[i].left)
    {
      if !(0 <= i < |nodes|) {
        r := Err(InvalidPosition);
      } else if nodes[i].left == -1 {
        r := Err(NoSuchChild);
      } else {
        r := Ok(nodes[i].left);
      }
    }

    /** downheap(i, j), MyLinkedHeapTree.java:154-161: swap i with its left child when j < 0, else its right child. */
    method Downheap(i: int, j: int) returns (r: Outcome)
      requires Valid()
      modifies this`nodes
      ensures !ValidPos(old(State()), i) ==> r == Fail(InvalidPosition) && nodes == old(nodes)
      ensures ValidPos(old(State()), i) ==>
                var c := if j < 0 then old(nodes)[i].left else old(nodes)[i].right;
                if c == -1 then r == Fail(NoSuchChild) && nodes == old(nodes)
                else 0 <= c < |old(nodes)| && r == Pass && nodes == SwapElements(old(nodes), i, c)
    {
      if !(0 <= i < |nodes|) {
        return Fail(InvalidPosition);
      }
      assert LinksOK(nodes, i);
      var c := if j < 0 then nodes[i].left else nodes[i].right;
      if c == -1 {
        return Fail(NoSuchChild);
      }
      r := Swap(i, c);
    }
  }
}
