/**
 * The dendrogram as a value: a rooted, ordered tree whose nodes carry a
 * name, an optional merge distance and a layout payload.
 *
 * The same datatype serves both trees of stacked-tree.js: the raw JSON
 * data (`Node<()>`, no layout) and the hierarchy positioned by the layout
 * step (`Node<real>`, where `pos` is the node's `y` coordinate).
 * `children` is always present; an empty sequence marks a leaf.
 */
module Hierarchy {
  import opened Wrappers

  datatype Node<Pos> = Node(name: string, distance: Option<real>, pos: Pos, children: seq<Node<Pos>>)

  /** `node.children.length == 0` */
  predicate IsLeaf<Pos>(n: Node<Pos>) {
    |n.children| == 0
  }

  /** The fresh record getAllLeaves pushes for a leaf: name and distance copied, no children. */
  function LeafRecord<Pos>(n: Node<Pos>): (r: Node<Pos>)
    ensures IsLeaf(r) && r.name == n.name && r.distance == n.distance
    ensures IsLeaf(n) ==> r == n
  {
    Node(n.name, n.distance, n.pos, [])
  }

  // ---------------------------------------------------------------------
  // Leaf collection (getAllLeaves; also the meaning of d3's `leaves()`)
  // ---------------------------------------------------------------------

  /** The leaf records of the subtree rooted at `n`, left to right. */
  function Leaves<Pos>(n: Node<Pos>): (r: seq<Node<Pos>>)
    ensures |r| > 0
    ensures forall x | x in r :: IsLeaf(x)
    decreases n, 1
  {
    if IsLeaf(n) then [LeafRecord(n)] else LeavesOf(n.children)
  }

  /** The leaf records of a forest, tree after tree. */
  function LeavesOf<Pos>(ns: seq<Node<Pos>>): (r: seq<Node<Pos>>)
    ensures |ns| > 0 ==> |r| > 0
    ensures forall x | x in r :: IsLeaf(x)
    decreases ns, 0
  {
    if |ns| == 0 then [] else Leaves(ns[0]) + LeavesOf(ns[1..])
  }

  // ---------------------------------------------------------------------
  // Preorder: the independent reference enumeration of a tree's nodes
  // ---------------------------------------------------------------------

  /** Every node of the subtree rooted at `n`, parent before children, left to right. */
  function Preorder<Pos>(n: Node<Pos>): (r: seq<Node<Pos>>)
    decreases n, 1
  {
    [n] + PreorderOf(n.children)
  }

  function PreorderOf<Pos>(ns: seq<Node<Pos>>): (r: seq<Node<Pos>>)
    decreases ns, 0
  {
    if |ns| == 0 then [] else Preorder(ns[0]) + PreorderOf(ns[1..])
  }

  /** The childless elements of `s`, in order. */
  function Childless<Pos>(s: seq<Node<Pos>>): (r: seq<Node<Pos>>) {
    if |s| == 0 then [] else (if IsLeaf(s[0]) then [s[0]] else []) + Childless(s[1..])
  }

  /** Number of elements of `s` that have children. */
  function CountInternal<Pos>(s: seq<Node<Pos>>): (r: nat) {
    if |s| == 0 then 0 else (if IsLeaf(s[0]) then 0 else 1) + CountInternal(s[1..])
  }

  // ---------------------------------------------------------------------
  // Concatenation lemmas
  // ---------------------------------------------------------------------

  lemma {:induction false} LeavesOfAppend<Pos>(a: seq<Node<Pos>>, b: seq<Node<Pos>>)
    ensures LeavesOf(a + b) == LeavesOf(a) + LeavesOf(b)
  {
    if |a| > 0 {
      assert (a + b)[0] == a[0];
      assert (a + b)[1..] == a[1..] + b;
      LeavesOfAppend(a[1..], b);
    } else {
      assert a + b == b;
    }
  }

  lemma {:induction false} PreorderOfAppend<Pos>(a: seq<Node<Pos>>, b: seq<Node<Pos>>)
    ensures PreorderOf(a + b) == PreorderOf(a) + PreorderOf(b)
  {
    if |a| > 0 {
      assert (a + b)[0] == a[0];
      assert (a + b)[1..] == a[1..] + b;
      PreorderOfAppend(a[1..], b);
    } else {
      assert a + b == b;
    }
  }

  lemma {:induction false} ChildlessAppend<Pos>(a: seq<Node<Pos>>, b: seq<Node<Pos>>)
    ensures Childless(a + b) == Childless(a) + Childless(b)
  {
    if |a| > 0 {
      assert (a + b)[0] == a[0];
      assert (a + b)[1..] == a[1..] + b;
      ChildlessAppend(a[1..], b);
    } else {
      assert a + b == b;
    }
  }

  lemma {:induction false} CountInternalAppend<Pos>(a: seq<Node<Pos>>, b: seq<Node<Pos>>)
    ensures CountInternal(a + b) == CountInternal(a) + CountInternal(b)
  {
    if |a| > 0 {
      assert (a + b)[0] == a[0];
      assert (a + b)[1..] == a[1..] + b;
      CountInternalAppend(a[1..], b);
    } else {
      assert a + b == b;
    }
  }

  // ---------------------------------------------------------------------
  // Properties of leaf collection
  // ---------------------------------------------------------------------

  /**
   * getAllLeaves returns exactly the childless nodes of the subtree, in
   * left-to-right preorder (each copied as a record with empty children).
   */
  lemma {:induction false} LeavesAreChildlessPreorder<Pos>(n: Node<Pos>)
    ensures Leaves(n) == Childless(Preorder(n))
    decreases n, 1
  {
    if IsLeaf(n) {
      assert Preorder(n) == [n];
    } else {
      LeavesOfAreChildlessPreorder(n.children);
      ChildlessAppend([n], PreorderOf(n.children));
    }
  }

  lemma {:induction false} LeavesOfAreChildlessPreorder<Pos>(ns: seq<Node<Pos>>)
    ensures LeavesOf(ns) == Childless(PreorderOf(ns))
    decreases ns, 0
  {
    if |ns| > 0 {
      LeavesAreChildlessPreorder(ns[0]);
      LeavesOfAreChildlessPreorder(ns[1..]);
      ChildlessAppend(Preorder(ns[0]), PreorderOf(ns[1..]));
    }
  }

  /** A childless node's leaf collection is the singleton of its own copy. */
  lemma LeavesOfLeaf<Pos>(n: Node<Pos>)
    requires IsLeaf(n)
    ensures Leaves(n) == [n]
  {
  }

  /** Collecting the leaves of a sequence of leaf records gives the sequence back. */
  lemma {:induction false} LeavesOfLeafRecords<Pos>(s: seq<Node<Pos>>)
    requires forall x | x in s :: IsLeaf(x)
    ensures LeavesOf(s) == s
    ensures PreorderOf(s) == s
  {
    if |s| > 0 {
      LeavesOfLeafRecords(s[1..]);
      assert Leaves(s[0]) == [s[0]];
      assert Preorder(s[0]) == [s[0]];
      assert s == [s[0]] + s[1..];
    }
  }

  /** The leaves of the k-th tree of a forest are among the leaves of the forest. */
  lemma {:induction false} LeavesOfContains<Pos>(ns: seq<Node<Pos>>, k: nat)
    requires k < |ns|
    ensures forall x | x in Leaves(ns[k]) :: x in LeavesOf(ns)
  {
    if k > 0 {
      LeavesOfContains(ns[1..], k - 1);
    }
  }

  /** Every leaf below a child is a leaf of its parent. */
  lemma LeavesOfChild<Pos>(n: Node<Pos>, c: Node<Pos>)
    requires c in n.children
    ensures forall x | x in Leaves(c) :: x in Leaves(n)
  {
    var k :| 0 <= k < |n.children| && n.children[k] == c;
    LeavesOfContains(n.children, k);
  }

  // ---------------------------------------------------------------------
  // Subtrees
  // ---------------------------------------------------------------------

  /** The nodes of the k-th tree of a forest are nodes of the forest. */
  lemma {:induction false} PreorderOfContains<Pos>(ns: seq<Node<Pos>>, k: nat)
    requires k < |ns|
    ensures forall y | y in Preorder(ns[k]) :: y in PreorderOf(ns)
  {
    if k > 0 {
      PreorderOfContains(ns[1..], k - 1);
    }
  }

  /** Descendants of a descendant are descendants (and are never larger). */
  lemma {:induction false} PreorderClosed<Pos>(m: Node<Pos>, x: Node<Pos>)
    requires x in Preorder(m)
    ensures forall y | y in Preorder(x) :: y in Preorder(m)
    ensures |Preorder(x)| <= |Preorder(m)|
    decreases m, 1
  {
    if x != m {
      PreorderOfClosed(m.children, x);
    }
  }

  lemma {:induction false} PreorderOfClosed<Pos>(ns: seq<Node<Pos>>, x: Node<Pos>)
    requires x in PreorderOf(ns)
    ensures forall y | y in Preorder(x) :: y in PreorderOf(ns)
    ensures |Preorder(x)| <= |PreorderOf(ns)|
    decreases ns, 0
  {
    assert |ns| > 0;
    if x in Preorder(ns[0]) {
      PreorderClosed(ns[0], x);
    } else {
      PreorderOfClosed(ns[1..], x);
    }
  }

  /** A child of a node in the tree is in the tree, and is strictly smaller than its parent. */
  lemma ChildInPreorder<Pos>(root: Node<Pos>, x: Node<Pos>, c: Node<Pos>)
    requires x in Preorder(root) && c in x.children
    ensures c in Preorder(root)
    ensures |Preorder(c)| < |Preorder(x)|
  {
    var k :| 0 <= k < |x.children| && x.children[k] == c;
    PreorderOfContains(x.children, k);
    PreorderClosed(root, x);
    PreorderOfClosed(x.children, c);
  }

  /** A proper descendant of `root` is never `root` itself. */
  lemma ProperDescendantIsNotRoot<Pos>(root: Node<Pos>, x: Node<Pos>)
    requires x in PreorderOf(root.children)
    ensures x != root
  {
    PreorderOfClosed(root.children, x);
  }
}
