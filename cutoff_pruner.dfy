/**
 * cutTree: a preorder walk over a fresh copy of the data. A node whose
 * distance is at or below the threshold gets its children replaced by the
 * leaf records of its subtree, and the walk does not descend into it;
 * any other node has the walk applied to each child in turn.
 *
 * The caller always prunes a deep copy of the loaded data, so the in-place
 * rewrite is modelled as a function returning the new tree.
 */
module CutoffPruner {
  import opened Wrappers
  import opened Hierarchy
  import LeafCollector

  /**
   * `node.distance <= threshold && node.children`. An absent distance
   * compares false. `children` is always present and an array is truthy
   * even when empty, so a childless node with a small distance qualifies.
   */
  predicate Collapses<Pos>(n: Node<Pos>, threshold: real): (c: bool)
    ensures n.distance.None? ==> !c
    ensures n.distance.Some? ==> (c <==> n.distance.value <= threshold)
  {
    n.distance.Some? && n.distance.value <= threshold
  }

  /** The tree `n` after `_cut(n)`. The same node comes back: only `children` may change. */
  function Cut<Pos>(n: Node<Pos>, threshold: real): (r: Node<Pos>)
    ensures r.name == n.name && r.distance == n.distance && r.pos == n.pos
    decreases n, 1
  {
    if Collapses(n, threshold) then n.(children := Leaves(n))
    else n.(children := CutAll(n.children, threshold))
  }

  /** `_cut` applied to each node of a sequence of siblings. */
  function CutAll<Pos>(ns: seq<Node<Pos>>, threshold: real): (r: seq<Node<Pos>>)
    ensures |r| == |ns|
    ensures forall i | 0 <= i < |ns| :: r[i] == Cut(ns[i], threshold)
    decreases ns, 0
  {
    if |ns| == 0 then [] else [Cut(ns[0], threshold)] + CutAll(ns[1..], threshold)
  }

  /** cutTree(node, threshold), with the recursion and the loop over children of `_cut`. */
  method CutTree<Pos>(node: Node<Pos>, threshold: real) returns (r: Node<Pos>)
    ensures r == Cut(node, threshold)
    decreases node
  {
    if Collapses(node, threshold) {
      var leaves := LeafCollector.GetAllLeaves(node);
      return node.(children := leaves);
    }
    var children := node.children;
    for i := 0 to |children|
      invariant |children| == |node.children|
      invariant forall j | 0 <= j < i :: children[j] == Cut(node.children[j], threshold)
      invariant forall j | i <= j < |children| :: children[j] == node.children[j]
    {
      var child := CutTree(children[i], threshold);
      children := children[i := child];
    }
    r := node.(children := children);
  }

  /** Pruning keeps the ordered leaf records: `getAllLeaves(cutTree(T, t)) == getAllLeaves(T)`. */
  lemma {:induction false} CutPreservesLeaves<Pos>(n: Node<Pos>, threshold: real)
    ensures Leaves(Cut(n, threshold)) == Leaves(n)
    decreases n, 1
  {
    var r := Cut(n, threshold);
    if Collapses(n, threshold) {
      assert !IsLeaf(r);
      LeavesOfLeafRecords(Leaves(n));
    } else if !IsLeaf(n) {
      CutAllPreservesLeaves(n.children, threshold);
    }
  }

  lemma {:induction false} CutAllPreservesLeaves<Pos>(ns: seq<Node<Pos>>, threshold: real)
    ensures LeavesOf(CutAll(ns, threshold)) == LeavesOf(ns)
    decreases ns, 0
  {
    if |ns| > 0 {
      var r := CutAll(ns, threshold);
      assert r[0] == Cut(ns[0], threshold);
      assert r[1..] == CutAll(ns[1..], threshold);
      CutPreservesLeaves(ns[0], threshold);
      CutAllPreservesLeaves(ns[1..], threshold);
    }
  }

  /**
   * If no node of the tree has a distance at or below the threshold
   * (absent distances never qualify), pruning changes nothing.
   */
  lemma {:induction false} CutWithoutCollapseIsIdentity<Pos>(n: Node<Pos>, threshold: real)
    requires forall x | x in Preorder(n) :: !Collapses(x, threshold)
    ensures Cut(n, threshold) == n
    decreases n, 1
  {
    assert n in Preorder(n);
    CutAllWithoutCollapseIsIdentity(n.children, threshold);
  }

  lemma {:induction false} CutAllWithoutCollapseIsIdentity<Pos>(ns: seq<Node<Pos>>, threshold: real)
    requires forall x | x in PreorderOf(ns) :: !Collapses(x, threshold)
    ensures CutAll(ns, threshold) == ns
    decreases ns, 0
  {
    if |ns| > 0 {
      CutWithoutCollapseIsIdentity(ns[0], threshold);
      CutAllWithoutCollapseIsIdentity(ns[1..], threshold);
      assert ns == [ns[0]] + ns[1..];
    }
  }

  /**
   * A childless node whose distance is at or below the threshold is not
   * skipped: it gains a single child, a copy of itself.
   */
  lemma LeafAtThresholdGainsSelfCopy<Pos>(n: Node<Pos>, threshold: real)
    requires IsLeaf(n) && Collapses(n, threshold)
    ensures Cut(n, threshold).children == [n]
  {
  }

  /**
   * Pruning {root 10: [A 4: [leaf1, leaf2], leaf3]} at 4 changes nothing
   * (A's children are already its leaves); at 10 the root collapses onto
   * [leaf1, leaf2, leaf3].
   */
  lemma CutExample()
    ensures var leaf1, leaf2, leaf3 := Node("leaf1", None, (), []), Node("leaf2", None, (), []), Node("leaf3", None, (), []);
      var a := Node("A", Some(4.0), (), [leaf1, leaf2]);
      var root := Node("root", Some(10.0), (), [a, leaf3]);
      Cut(root, 4.0) == root && Cut(root, 10.0) == root.(children := [leaf1, leaf2, leaf3])
  {
    var leaf1, leaf2, leaf3 := Node("leaf1", None, (), []), Node("leaf2", None, (), []), Node("leaf3", None, (), []);
    var a := Node("A", Some(4.0), (), [leaf1, leaf2]);
    var root := Node("root", Some(10.0), (), [a, leaf3]);
    assert LeavesOf([leaf1, leaf2]) == [leaf1, leaf2] by {
      LeavesOfLeafRecords([leaf1, leaf2]);
    }
    assert CutAll([a, leaf3], 4.0) == [a, leaf3];
    assert LeavesOf([a, leaf3]) == [leaf1, leaf2, leaf3] by {
      assert LeavesOf([leaf3]) == [leaf3];
      assert [a, leaf3][1..] == [leaf3];
    }
  }

  /**
   * A root at or below the threshold flattens the whole tree to one level:
   * the root followed by the leaf records of the original tree.
   */
  lemma RootCollapseFlattens<Pos>(n: Node<Pos>, threshold: real)
    requires Collapses(n, threshold)
    ensures Cut(n, threshold).children == Leaves(n)
    ensures Preorder(Cut(n, threshold)) == [Cut(n, threshold)] + Leaves(n)
  {
    LeavesOfLeafRecords(Leaves(n));
  }

  /**
   * In the pruned tree, every node at or below the threshold has only
   * childless children: either the walk flattened it, or it is a leaf
   * record below a flattened node.
   */
  lemma {:induction false} CollapsedNodesAreFlat<Pos>(n: Node<Pos>, threshold: real)
    ensures forall x | x in Preorder(Cut(n, threshold)) && Collapses(x, threshold) ::
      forall c | c in x.children :: IsLeaf(c)
    decreases n, 1
  {
    var r := Cut(n, threshold);
    if Collapses(n, threshold) {
      LeavesOfLeafRecords(Leaves(n));
      assert Preorder(r) == [r] + Leaves(n);
    } else {
      CutAllCollapsedNodesAreFlat(n.children, threshold);
    }
  }

  lemma {:induction false} CutAllCollapsedNodesAreFlat<Pos>(ns: seq<Node<Pos>>, threshold: real)
    ensures forall x | x in PreorderOf(CutAll(ns, threshold)) && Collapses(x, threshold) ::
      forall c | c in x.children :: IsLeaf(c)
    decreases ns, 0
  {
    if |ns| > 0 {
      var r := CutAll(ns, threshold);
      assert r[1..] == CutAll(ns[1..], threshold);
      CollapsedNodesAreFlat(ns[0], threshold);
      CutAllCollapsedNodesAreFlat(ns[1..], threshold);
    }
  }

  /**
   * Pruning twice with the same threshold gives the same tree as pruning
   * once: a flattened node flattens to the same leaf records again.
   */
  lemma {:induction false} CutIdempotent<Pos>(n: Node<Pos>, threshold: real)
    ensures Cut(Cut(n, threshold), threshold) == Cut(n, threshold)
    decreases n, 1
  {
    if Collapses(n, threshold) {
      CutPreservesLeaves(n, threshold);
    } else {
      CutAllIdempotent(n.children, threshold);
    }
  }

  lemma {:induction false} CutAllIdempotent<Pos>(ns: seq<Node<Pos>>, threshold: real)
    ensures CutAll(CutAll(ns, threshold), threshold) == CutAll(ns, threshold)
    decreases ns, 0
  {
    forall i | 0 <= i < |ns|
      ensures CutAll(CutAll(ns, threshold), threshold)[i] == CutAll(ns, threshold)[i]
    {
      CutIdempotent(ns[i], threshold);
    }
  }

  /**
   * Pruning never invents a node: every node of the pruned tree has the
   * name and distance of some node of the original tree.
   */
  lemma {:induction false} CutKeepsPayloads<Pos>(n: Node<Pos>, threshold: real)
    ensures forall y | y in Preorder(Cut(n, threshold)) ::
      exists x | x in Preorder(n) :: x.name == y.name && x.distance == y.distance
    decreases n, 1
  {
    var r := Cut(n, threshold);
    assert n in Preorder(n);
    if Collapses(n, threshold) {
      LeavesOfLeafRecords(Leaves(n));
      assert Preorder(r) == [r] + Leaves(n);
      LeavesAreChildlessPreorder(n);
      forall y | y in Leaves(n)
        ensures exists x | x in Preorder(n) :: x.name == y.name && x.distance == y.distance
      {
        ChildlessMembers(Preorder(n), y);
      }
    } else {
      CutAllKeepsPayloads(n.children, threshold);
      forall y | y in PreorderOf(r.children)
        ensures exists x | x in Preorder(n) :: x.name == y.name && x.distance == y.distance
      {
        var x :| x in PreorderOf(n.children) && x.name == y.name && x.distance == y.distance;
        assert x in Preorder(n);
      }
    }
  }

  lemma {:induction false} CutAllKeepsPayloads<Pos>(ns: seq<Node<Pos>>, threshold: real)
    ensures forall y | y in PreorderOf(CutAll(ns, threshold)) ::
      exists x | x in PreorderOf(ns) :: x.name == y.name && x.distance == y.distance
    decreases ns, 0
  {
    if |ns| > 0 {
      var r := CutAll(ns, threshold);
      assert r[1..] == CutAll(ns[1..], threshold);
      CutKeepsPayloads(ns[0], threshold);
      CutAllKeepsPayloads(ns[1..], threshold);
      forall y | y in PreorderOf(r)
        ensures exists x | x in PreorderOf(ns) :: x.name == y.name && x.distance == y.distance
      {
        if y in Preorder(r[0]) {
          var x :| x in Preorder(ns[0]) && x.name == y.name && x.distance == y.distance;
          assert x in PreorderOf(ns);
        } else {
          var x :| x in PreorderOf(ns[1..]) && x.name == y.name && x.distance == y.distance;
          assert x in PreorderOf(ns);
        }
      }
    }
  }

  lemma {:induction false} ChildlessMembers<Pos>(s: seq<Node<Pos>>, y: Node<Pos>)
    requires y in Childless(s)
    ensures y in s
  {
    if y != s[0] || !IsLeaf(s[0]) {
      ChildlessMembers(s[1..], y);
    }
  }
}
