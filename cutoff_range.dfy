/**
 * The cutoff slider bounds computed by initialiseUI: one pass over
 * `d3.hierarchy(data).descendants()` keeping the smallest and largest
 * truthy distance, starting from the sentinels Number.MAX_VALUE and
 * Number.MIN_VALUE.
 */
module CutoffRange {
  import opened Wrappers
  import opened Hierarchy
  import opened Traversal

  /** Number.MAX_VALUE, the largest finite double (2^1024 - 2^971). */
  const MaxValue: real := 179769313486231570814527423731704356798070567525844996598917476803157260780028538760589558632766878171540458953514382464234321326889464182768467546703537516986049910576551282076245490090389328944075868508455133942304583236903222948165808559332123348274797826204144723168738177180919299881250404026184124858368.0

  /** Number.MIN_VALUE, written as JavaScript prints it: the smallest POSITIVE double. */
  const MinValue: real := 5.0e-324

  /** `if (node.data.distance)`: an absent or zero distance is falsy and skipped. */
  predicate HasTruthyDistance<Pos>(n: Node<Pos>): (b: bool)
    ensures n.distance.None? ==> !b
    ensures n.distance == Some(0.0) ==> !b
    ensures n.distance.Some? && n.distance.value != 0.0 ==> b
  {
    n.distance.Some? && n.distance.value != 0.0
  }

  /** `lo` is the least of `init` and every truthy distance among `nodes`. */
  ghost predicate IsLowest<Pos>(lo: real, init: real, nodes: seq<Node<Pos>>) {
    && lo <= init
    && (forall n | n in nodes && HasTruthyDistance(n) :: lo <= n.distance.value)
    && (lo == init || exists n | n in nodes && HasTruthyDistance(n) :: n.distance.value == lo)
  }

  /** `hi` is the greatest of `init` and every truthy distance among `nodes`. */
  ghost predicate IsHighest<Pos>(hi: real, init: real, nodes: seq<Node<Pos>>) {
    && init <= hi
    && (forall n | n in nodes && HasTruthyDistance(n) :: n.distance.value <= hi)
    && (hi == init || exists n | n in nodes && HasTruthyDistance(n) :: n.distance.value == hi)
  }

  /** Both bounds depend only on which nodes are listed, not on their order. */
  lemma BoundsIgnoreOrder<Pos>(lo: real, hi: real, initMin: real, initMax: real, a: seq<Node<Pos>>, b: seq<Node<Pos>>)
    requires forall x :: x in a <==> x in b
    requires IsLowest(lo, initMin, a) && IsHighest(hi, initMax, a)
    ensures IsLowest(lo, initMin, b) && IsHighest(hi, initMax, b)
  {
  }

  /**
   * The min/max loop of initialiseUI, from the given starting values, over
   * the nodes in the order `descendants()` lists them.
   */
  method ScanDistances<Pos>(root: Node<Pos>, initMin: real, initMax: real)
    returns (cutoffMin: real, cutoffMax: real)
    ensures IsLowest(cutoffMin, initMin, Preorder(root))
    ensures IsHighest(cutoffMax, initMax, Preorder(root))
  {
    var nodes := Descendants(root);
    cutoffMin, cutoffMax := initMin, initMax;
    for i := 0 to |nodes|
      invariant IsLowest(cutoffMin, initMin, nodes[..i])
      invariant IsHighest(cutoffMax, initMax, nodes[..i])
    {
      var node := nodes[i];
      if node.distance.Some? && node.distance.value != 0.0 {
        if node.distance.value > cutoffMax {
          cutoffMax := node.distance.value;
        }
        if node.distance.value < cutoffMin {
          cutoffMin := node.distance.value;
        }
      }
      assert nodes[..i + 1] == nodes[..i] + [node];
    }
    assert nodes[..|nodes|] == nodes;
    DescendantsArePreorder(root);
    BoundsIgnoreOrder(cutoffMin, cutoffMax, initMin, initMax, nodes, Preorder(root));
  }

  /** Every truthy distance among `nodes` is a finite double. */
  ghost predicate FiniteDistances<Pos>(nodes: seq<Node<Pos>>) {
    forall n | n in nodes && HasTruthyDistance(n) :: -MaxValue <= n.distance.value <= MaxValue
  }

  /** Some node of `nodes` carries a truthy distance. */
  ghost predicate SomeTruthy<Pos>(nodes: seq<Node<Pos>>) {
    exists n | n in nodes :: HasTruthyDistance(n)
  }

  /** Some node of `nodes` carries the truthy distance `d`. */
  ghost predicate Attained<Pos>(d: real, nodes: seq<Node<Pos>>) {
    exists n | n in nodes && HasTruthyDistance(n) :: n.distance.value == d
  }

  /**
   * A bound scanned from a sentinel is the distance of some node as soon
   * as some truthy distance lies at or beyond that sentinel.
   */
  lemma BoundsAttained<Pos>(lo: real, hi: real, initMin: real, initMax: real, nodes: seq<Node<Pos>>)
    requires IsLowest(lo, initMin, nodes) && IsHighest(hi, initMax, nodes)
    ensures (exists n | n in nodes && HasTruthyDistance(n) :: n.distance.value <= initMin) ==> Attained(lo, nodes)
    ensures (exists n | n in nodes && HasTruthyDistance(n) :: initMax <= n.distance.value) ==> Attained(hi, nodes)
  {
    if lo == initMin && exists n | n in nodes && HasTruthyDistance(n) :: n.distance.value <= initMin {
      var n :| n in nodes && HasTruthyDistance(n) && n.distance.value <= initMin;
      assert n.distance.value == lo;
    }
    if hi == initMax && exists n | n in nodes && HasTruthyDistance(n) :: initMax <= n.distance.value {
      var n :| n in nodes && HasTruthyDistance(n) && initMax <= n.distance.value;
      assert n.distance.value == hi;
    }
  }

  /**
   * `cutoffMin` and `cutoffMax` as initialiseUI leaves them. The minimum is
   * a node's distance whenever some truthy finite distance exists; the
   * maximum starts at the smallest POSITIVE double, so it is a node's
   * distance only when some truthy distance is at least that.
   */
  method InitialiseCutoff<Pos>(root: Node<Pos>) returns (cutoffMin: real, cutoffMax: real)
    ensures IsLowest(cutoffMin, MaxValue, Preorder(root))
    ensures IsHighest(cutoffMax, MinValue, Preorder(root))
    ensures SomeTruthy(Preorder(root)) && FiniteDistances(Preorder(root)) ==> Attained(cutoffMin, Preorder(root))
    ensures (exists n | n in Preorder(root) && HasTruthyDistance(n) :: MinValue <= n.distance.value) ==>
      Attained(cutoffMax, Preorder(root))
    ensures !SomeTruthy(Preorder(root)) ==> cutoffMin == MaxValue && cutoffMax == MinValue
  {
    cutoffMin, cutoffMax := ScanDistances(root, MaxValue, MinValue);
    BoundsAttained(cutoffMin, cutoffMax, MaxValue, MinValue, Preorder(root));
  }

  /** A tree whose only distance is negative. */
  function NegativeTree(): (r: Node<()>) {
    Node("root", Some(-1.0), (), [Node("leaf", None, (), [])])
  }

  /**
   * As written, the scan reports a maximum cutoff of Number.MIN_VALUE for
   * NegativeTree: a value above every distance that no node carries.
   */
  lemma CutoffMaxMissesNegativeDistances(cutoffMax: real)
    requires IsHighest(cutoffMax, MinValue, Preorder(NegativeTree()))
    ensures cutoffMax == MinValue
    ensures SomeTruthy(Preorder(NegativeTree())) && !Attained(cutoffMax, Preorder(NegativeTree()))
  {
    var t := NegativeTree();
    assert Preorder(t) == [t, t.children[0]] by {
      assert Preorder(t.children[0]) == [t.children[0]];
      assert PreorderOf(t.children) == [t.children[0]];
    }
    assert t in Preorder(t) && HasTruthyDistance(t);
  }

  /**
   * The scan with the evidently intended starting maximum, -Number.MAX_VALUE
   * (the lowest finite double): both bounds are node distances whenever a
   * truthy finite distance exists.
   */
  method InitialiseCutoffCorrected<Pos>(root: Node<Pos>) returns (cutoffMin: real, cutoffMax: real)
    ensures IsLowest(cutoffMin, MaxValue, Preorder(root))
    ensures IsHighest(cutoffMax, -MaxValue, Preorder(root))
    ensures SomeTruthy(Preorder(root)) && FiniteDistances(Preorder(root)) ==>
      Attained(cutoffMin, Preorder(root)) && Attained(cutoffMax, Preorder(root))
    ensures !SomeTruthy(Preorder(root)) ==> cutoffMin == MaxValue && cutoffMax == -MaxValue
  {
    cutoffMin, cutoffMax := ScanDistances(root, MaxValue, -MaxValue);
    BoundsAttained(cutoffMin, cutoffMax, MaxValue, -MaxValue, Preorder(root));
  }
}
