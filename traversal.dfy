/**
 * The order in which d3 walks a hierarchy: `node.each(...)` and
 * `node.descendants()` visit the root, then its children, then its
 * grandchildren, and so on (breadth first, left to right within a level).
 * A visit carries the node and its `parent` (absent only for the root).
 */
module Traversal {
  import opened Wrappers
  import opened Hierarchy

  datatype Visit<Pos> = Visit(parent: Option<Node<Pos>>, node: Node<Pos>)

  /** Visits of the nodes `ns`, all with parent `p`. */
  function VisitsOf<Pos>(p: Node<Pos>, ns: seq<Node<Pos>>): (r: seq<Visit<Pos>>)
    ensures |r| == |ns|
    ensures forall i | 0 <= i < |r| :: r[i] == Visit(Some(p), ns[i])
  {
    if |ns| == 0 then [] else [Visit(Some(p), ns[0])] + VisitsOf(p, ns[1..])
  }

  /** The nodes of a sequence of visits. */
  function NodesOf<Pos>(q: seq<Visit<Pos>>): (r: seq<Node<Pos>>)
    ensures |r| == |q|
    ensures forall i | 0 <= i < |q| :: r[i] == q[i].node
  {
    if |q| == 0 then [] else [q[0].node] + NodesOf(q[1..])
  }

  /** The number of nodes a queue of pending visits still stands for. */
  function QueueSize<Pos>(q: seq<Visit<Pos>>): (r: nat) {
    |PreorderOf(NodesOf(q))|
  }

  /** The queue after the head has been visited: its children are appended. */
  function Next<Pos>(q: seq<Visit<Pos>>): (r: seq<Visit<Pos>>)
    requires |q| > 0
  {
    q[1..] + VisitsOf(q[0].node, q[0].node.children)
  }

  lemma NodesOfAppend<Pos>(a: seq<Visit<Pos>>, b: seq<Visit<Pos>>)
    ensures NodesOf(a + b) == NodesOf(a) + NodesOf(b)
  {
  }

  /**
   * Visiting the head of the queue removes exactly the head node from the
   * nodes the queue stands for.
   */
  lemma QueueStep<Pos>(q: seq<Visit<Pos>>)
    requires |q| > 0
    ensures PreorderOf(NodesOf(q))
         == [q[0].node] + PreorderOf(q[0].node.children) + PreorderOf(NodesOf(q[1..]))
    ensures PreorderOf(NodesOf(Next(q)))
         == PreorderOf(NodesOf(q[1..])) + PreorderOf(q[0].node.children)
    ensures QueueSize(Next(q)) + 1 == QueueSize(q)
  {
    var n := q[0].node;
    assert NodesOf(q)[0] == n;
    assert NodesOf(q)[1..] == NodesOf(q[1..]);
    NodesOfAppend(q[1..], VisitsOf(n, n.children));
    assert NodesOf(VisitsOf(n, n.children)) == n.children;
    PreorderOfAppend(NodesOf(q[1..]), n.children);
  }

  /**
   * Breadth-first walk from a queue of pending visits: visit the head,
   * append its children, continue. Every node the queue stands for is
   * visited once (lemma BreadthFirstIsPermutation).
   */
  function BreadthFirst<Pos>(q: seq<Visit<Pos>>): (r: seq<Visit<Pos>>)
    ensures |r| == QueueSize(q)
    decreases QueueSize(q)
  {
    if |q| == 0 then []
    else
      QueueStep(q);
      [q[0]] + BreadthFirst(Next(q))
  }

  /** The nodes visited breadth-first are a permutation of the preorder of the queue's trees. */
  lemma {:induction false} BreadthFirstIsPermutation<Pos>(q: seq<Visit<Pos>>)
    ensures multiset(NodesOf(BreadthFirst(q))) == multiset(PreorderOf(NodesOf(q)))
    decreases QueueSize(q)
  {
    if |q| > 0 {
      QueueStep(q);
      BreadthFirstIsPermutation(Next(q));
      NodesOfAppend([q[0]], BreadthFirst(Next(q)));
    }
  }

  /**
   * `root.each(f)`: the visits in the order f is called. The root comes
   * first, without a parent, and there is one visit per node of the tree.
   */
  function Each<Pos>(root: Node<Pos>): (r: seq<Visit<Pos>>)
    ensures |r| == |Preorder(root)|
    ensures r[0] == Visit(None, root)
  {
    assert PreorderOf([root]) == Preorder(root) + PreorderOf([root][1..]);
    BreadthFirst([Visit(None, root)])
  }

  /** `root.descendants()`: the root first, then one entry per remaining node. */
  function Descendants<Pos>(root: Node<Pos>): (r: seq<Node<Pos>>)
    ensures |r| == |Preorder(root)|
    ensures r[0] == root
  {
    NodesOf(Each(root))
  }

  /** The first visit of `each` is the root, with no parent; then come the root's children. */
  lemma EachUnfold<Pos>(root: Node<Pos>)
    ensures Each(root) == [Visit(None, root)] + BreadthFirst(VisitsOf(root, root.children))
  {
    assert Next([Visit(None, root)]) == VisitsOf(root, root.children);
  }

  /** `descendants()` lists every node of the tree exactly once. */
  lemma DescendantsArePreorder<Pos>(root: Node<Pos>)
    ensures multiset(Descendants(root)) == multiset(Preorder(root))
    ensures forall x :: x in Descendants(root) <==> x in Preorder(root)
  {
    var q := [Visit(None, root)];
    BreadthFirstIsPermutation(q);
    assert NodesOf(q) == [root];
    assert PreorderOf([root]) == Preorder(root) + PreorderOf([root][1..]);
    assert PreorderOf([root]) == Preorder(root);
    forall x
      ensures x in Descendants(root) <==> x in Preorder(root)
    {
      assert x in Descendants(root) <==> x in multiset(Descendants(root));
      assert x in Preorder(root) <==> x in multiset(Preorder(root));
    }
  }

  /** Every visit waiting in the queue is made. */
  lemma {:induction false} QueuedAreVisited<Pos>(q: seq<Visit<Pos>>, i: nat)
    requires i < |q|
    ensures q[i] in BreadthFirst(q)
    decreases QueueSize(q)
  {
    QueueStep(q);
    if i > 0 {
      assert Next(q)[i - 1] == q[i];
      QueuedAreVisited(Next(q), i - 1);
    }
  }

  /** After a node is visited, each of its children is visited with that node as parent. */
  lemma {:induction false} ChildrenOfVisitedAreVisited<Pos>(q: seq<Visit<Pos>>, k: nat, j: nat)
    requires k < |BreadthFirst(q)| && j < |BreadthFirst(q)[k].node.children|
    ensures Visit(Some(BreadthFirst(q)[k].node), BreadthFirst(q)[k].node.children[j]) in BreadthFirst(q)
    decreases QueueSize(q)
  {
    QueueStep(q);
    var rest := BreadthFirst(Next(q));
    assert BreadthFirst(q) == [q[0]] + rest;
    if k == 0 {
      var n := q[0].node;
      assert Next(q)[|q| - 1 + j] == Visit(Some(n), n.children[j]);
      QueuedAreVisited(Next(q), |q| - 1 + j);
    } else {
      assert BreadthFirst(q)[k] == rest[k - 1];
      ChildrenOfVisitedAreVisited(Next(q), k - 1, j);
    }
  }

  /** `root.each` visits every child of every node of the tree, with that node as its parent. */
  lemma EachVisitsEveryChild<Pos>(root: Node<Pos>, p: Node<Pos>, x: Node<Pos>)
    requires p in Preorder(root) && x in p.children
    ensures Visit(Some(p), x) in Each(root)
  {
    DescendantsArePreorder(root);
    var k :| 0 <= k < |Descendants(root)| && Descendants(root)[k] == p;
    var j :| 0 <= j < |p.children| && p.children[j] == x;
    ChildrenOfVisitedAreVisited([Visit(None, root)], k, j);
  }

  /**
   * A visit inside `root`'s tree, below the root: its parent is a node of
   * the tree and its node is one of that parent's children.
   */
  ghost predicate BelowRoot<Pos>(v: Visit<Pos>, root: Node<Pos>) {
    v.parent.Some? && v.node in v.parent.value.children && v.parent.value in Preorder(root)
  }

  /** Every visit of a walk started below the root stays below the root. */
  lemma {:induction false} BreadthFirstBelowRoot<Pos>(q: seq<Visit<Pos>>, root: Node<Pos>)
    requires forall v | v in q :: BelowRoot(v, root)
    ensures forall v | v in BreadthFirst(q) :: BelowRoot(v, root)
    decreases QueueSize(q)
  {
    if |q| > 0 {
      var n := q[0].node;
      assert BelowRoot(q[0], root);
      ChildInPreorder(root, q[0].parent.value, n);
      QueueStep(q);
      forall v | v in Next(q)
        ensures BelowRoot(v, root)
      {
        if v !in q[1..] {
          assert v in VisitsOf(n, n.children);
        }
      }
      BreadthFirstBelowRoot(Next(q), root);
    }
  }

  /** The walk below the root: every visit after the root's own lies below the root. */
  lemma WalkBelowRoot<Pos>(root: Node<Pos>)
    ensures forall v | v in BreadthFirst(VisitsOf(root, root.children)) :: BelowRoot(v, root)
  {
    assert root in Preorder(root);
    BreadthFirstBelowRoot(VisitsOf(root, root.children), root);
  }

  /** Only the first visit of `each` lacks a parent, and no later visit is the root. */
  lemma EachParents<Pos>(root: Node<Pos>)
    ensures Each(root)[0] == Visit(None, root)
    ensures forall i | 0 < i < |Each(root)| ::
      BelowRoot(Each(root)[i], root) && Each(root)[i].node != root
  {
    EachUnfold(root);
    WalkBelowRoot(root);
    var rest := BreadthFirst(VisitsOf(root, root.children));
    forall i | 0 < i < |Each(root)|
      ensures BelowRoot(Each(root)[i], root) && Each(root)[i].node != root
    {
      var v := Each(root)[i];
      assert v == rest[i - 1];
      assert v in rest;
      ChildInPreorder(root, v.parent.value, v.node);
      PreorderClosed(root, v.parent.value);
    }
  }
}
