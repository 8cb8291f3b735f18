/**
 * getAllLeaves: a recursive depth-first walk that pushes a fresh record
 * `{name, distance, children: []}` for every childless node into an array
 * held by the enclosing call. The array is threaded through the walk as
 * an accumulator.
 */
module LeafCollector {
  import opened Hierarchy

  /** getAllLeaves(node) */
  method GetAllLeaves<Pos>(node: Node<Pos>) returns (leaves: seq<Node<Pos>>)
    ensures leaves == Leaves(node)
  {
    leaves := CollectLeaves(node, []);
  }

  /** The inner `_getLeaves(node)`: appends the leaf records below `node` to `acc`. */
  method CollectLeaves<Pos>(node: Node<Pos>, acc: seq<Node<Pos>>) returns (leaves: seq<Node<Pos>>)
    ensures leaves == acc + Leaves(node)
    decreases node
  {
    if |node.children| == 0 {
      leaves := acc + [LeafRecord(node)];
      return;
    }
    leaves := acc;
    for i := 0 to |node.children|
      invariant leaves == acc + LeavesOf(node.children[..i])
    {
      LeavesOfAppend(node.children[..i], [node.children[i]]);
      assert node.children[..i + 1] == node.children[..i] + [node.children[i]];
      leaves := CollectLeaves(node.children[i], leaves);
    }
    assert node.children[..|node.children|] == node.children;
  }
}
