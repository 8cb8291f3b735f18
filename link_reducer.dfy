/**
 * reduceLinks: for every non-root node of the positioned hierarchy that
 * has children, emit the link from its parent to it and the link from it
 * to its farthest child (the child with the largest `y`). The nodes are
 * taken in the order of `root.each`.
 */
module LinkReducer {
  import opened Wrappers
  import opened Hierarchy
  import opened Traversal

  /** A node of the positioned hierarchy; `pos` is its `y` coordinate. */
  type Placed = Node<real>

  datatype Link = Link(source: Placed, target: Placed)

  /**
   * `children.reduce((prev, current) => prev.y > current.y ? prev : current)`:
   * a child with the largest `y`; on ties the last such child wins, since
   * `prev` is kept only when strictly greater.
   */
  function Farthest(cs: seq<Placed>): (r: Placed)
    requires |cs| > 0
    ensures r in cs
    decreases |cs|
  {
    if |cs| == 1 then cs[0]
    else
      var prev := Farthest(cs[..|cs| - 1]);
      var current := cs[|cs| - 1];
      if prev.pos > current.pos then prev else current
  }

  /** The farthest child's `y` is at least every child's. */
  lemma {:induction false} FarthestIsMaximal(cs: seq<Placed>)
    requires |cs| > 0
    ensures forall i | 0 <= i < |cs| :: cs[i].pos <= Farthest(cs).pos
    decreases |cs|
  {
    if |cs| > 1 {
      var init := cs[..|cs| - 1];
      FarthestIsMaximal(init);
      assert forall i | 0 <= i < |init| :: cs[i] == init[i];
    }
  }

  /**
   * The farthest child is the LAST child of maximal `y`: every child after
   * it lies strictly closer.
   */
  lemma {:induction false} FarthestIsLast(cs: seq<Placed>)
    requires |cs| > 0
    ensures exists k | 0 <= k < |cs| ::
      cs[k] == Farthest(cs) && forall j | k < j < |cs| :: cs[j].pos < Farthest(cs).pos
    decreases |cs|
  {
    var r := Farthest(cs);
    var last := |cs| - 1;
    if last == 0 {
      assert cs[0] == r;
    } else if r == cs[last] {
      assert cs[last] == r;
    } else {
      var init := cs[..last];
      FarthestIsLast(init);
      var k :| 0 <= k < last && init[k] == r && forall j | k < j < last :: init[j].pos < r.pos;
      assert cs[k] == r;
      assert forall j | k < j < |cs| :: cs[j].pos < r.pos by {
        assert forall j | k < j < last :: cs[j] == init[j];
      }
    }
  }

  /** The links the callback of `root.each` pushes for one visit. */
  function Emitted(v: Visit<real>): (r: seq<Link>)
    ensures |r| == 0 || |r| == 2
    ensures |r| == 2 <==> v.parent.Some? && |v.node.children| > 0
    ensures |r| == 2 ==>
      r[0].source == v.parent.value && r[0].target == v.node &&
      r[1].source == v.node && r[1].target in v.node.children
  {
    if v.parent.Some? && |v.node.children| > 0 then
      [Link(v.parent.value, v.node), Link(v.node, Farthest(v.node.children))]
    else []
  }

  /** The links pushed over a sequence of visits, in order. */
  function EmitAll(vs: seq<Visit<real>>): (r: seq<Link>)
    ensures |r| % 2 == 0
  {
    if |vs| == 0 then [] else EmitAll(vs[..|vs| - 1]) + Emitted(vs[|vs| - 1])
  }

  lemma EmitAllPrefix(vs: seq<Visit<real>>, i: nat)
    requires i < |vs|
    ensures EmitAll(vs[..i + 1]) == EmitAll(vs[..i]) + Emitted(vs[i])
  {
    assert vs[..i + 1][..i] == vs[..i];
  }

  /** The value of reduceLinks(root). */
  function Links(root: Placed): (r: seq<Link>)
    ensures |r| % 2 == 0
  {
    EmitAll(Each(root))
  }

  /**
   * reduceLinks(root). `root.each` hands the callback each node with its
   * `parent`; `node !== root` holds exactly for the visits that have a
   * parent (lemma EachParents).
   */
  method ReduceLinks(root: Placed) returns (links: seq<Link>)
    ensures links == Links(root)
  {
    var visits := Each(root);
    links := [];
    for i := 0 to |visits|
      invariant links == EmitAll(visits[..i])
    {
      var v := visits[i];
      ghost var before := links;
      if v.parent.Some? {
        if |v.node.children| > 0 {
          var farthestChild := Farthest(v.node.children);
          links := links + [Link(v.parent.value, v.node)];
          links := links + [Link(v.node, farthestChild)];
        }
      }
      assert links == before + Emitted(v);
      EmitAllPrefix(visits, i);
    }
    assert visits[..|visits|] == visits;
  }

  // ---------------------------------------------------------------------
  // Shape of the reduced links
  // ---------------------------------------------------------------------

  /** `up` enters an internal node and `down` leaves it towards its farthest child. */
  ghost predicate IsTrunk(up: Link, down: Link) {
    |up.target.children| > 0 && down == Link(up.target, Farthest(up.target.children))
  }

  /** The links come in pairs (parent -> node, node -> farthest child). */
  ghost predicate TrunkPairs(ls: seq<Link>)
    decreases |ls|
  {
    |ls| == 0 || (|ls| >= 2 && IsTrunk(ls[0], ls[1]) && TrunkPairs(ls[2..]))
  }

  lemma {:induction false} TrunkPairsAppend(a: seq<Link>, b: seq<Link>)
    requires TrunkPairs(a) && TrunkPairs(b)
    ensures TrunkPairs(a + b)
    decreases |a|
  {
    if |a| > 0 {
      assert (a + b)[2..] == a[2..] + b;
      TrunkPairsAppend(a[2..], b);
    } else {
      assert a + b == b;
    }
  }

  /** In a paired sequence, every even position starts a trunk pair. */
  lemma {:induction false} TrunkPairsAt(ls: seq<Link>, i: nat)
    requires TrunkPairs(ls) && i < |ls| && i % 2 == 0
    ensures i + 1 < |ls| && IsTrunk(ls[i], ls[i + 1])
    decreases i
  {
    if i > 0 {
      TrunkPairsAt(ls[2..], i - 2);
    }
  }

  lemma {:induction false} EmitAllAppend(a: seq<Visit<real>>, b: seq<Visit<real>>)
    ensures EmitAll(a + b) == EmitAll(a) + EmitAll(b)
    decreases |b|
  {
    if |b| == 0 {
      assert a + b == a;
    } else {
      assert (a + b)[..|a + b| - 1] == a + b[..|b| - 1];
      EmitAllAppend(a, b[..|b| - 1]);
    }
  }

  /** What one visit below the root emits. */
  lemma EmittedShape(v: Visit<real>, root: Placed)
    requires BelowRoot(v, root)
    ensures TrunkPairs(Emitted(v))
    ensures |Emitted(v)| == 2 * CountInternal([v.node])
    ensures forall l | l in Emitted(v) :: l.target in l.source.children && l.source in Preorder(root)
  {
    ChildInPreorder(root, v.parent.value, v.node);
    if |v.node.children| > 0 {
      var ls := Emitted(v);
      assert ls[2..] == [];
    }
  }

  /**
   * Over visits that all lie below the root, the links form trunk pairs,
   * each link goes from a node of the tree to one of its children, and
   * there are two links per visited internal node.
   */
  lemma {:induction false} EmitAllShape(vs: seq<Visit<real>>, root: Placed)
    requires forall v | v in vs :: BelowRoot(v, root)
    ensures TrunkPairs(EmitAll(vs))
    ensures |EmitAll(vs)| == 2 * CountInternal(NodesOf(vs))
    ensures forall l | l in EmitAll(vs) :: l.target in l.source.children && l.source in Preorder(root)
    decreases |vs|
  {
    if |vs| > 0 {
      var init, v := vs[..|vs| - 1], vs[|vs| - 1];
      assert vs == init + [v];
      EmitAllShape(init, root);
      EmittedShape(v, root);
      TrunkPairsAppend(EmitAll(init), Emitted(v));
      NodesOfAppend(init, [v]);
      assert NodesOf([v]) == [v.node];
      CountInternalAppend(NodesOf(init), [v.node]);
      assert EmitAll(vs) == EmitAll(init) + Emitted(v);
    }
  }

  /**
   * Breadth-first from visits below the root, the internal nodes counted
   * are exactly the internal nodes the queue stands for.
   */
  lemma {:induction false} BreadthFirstCountInternal(q: seq<Visit<real>>)
    ensures CountInternal(NodesOf(BreadthFirst(q))) == CountInternal(PreorderOf(NodesOf(q)))
    decreases QueueSize(q)
  {
    if |q| > 0 {
      var n := q[0].node;
      QueueStep(q);
      BreadthFirstCountInternal(Next(q));
      var rest := BreadthFirst(Next(q));
      NodesOfAppend([q[0]], rest);
      CountInternalAppend([n], NodesOf(rest));
      CountInternalAppend(PreorderOf(NodesOf(q[1..])), PreorderOf(n.children));
      CountInternalAppend([n] + PreorderOf(n.children), PreorderOf(NodesOf(q[1..])));
      CountInternalAppend([n], PreorderOf(n.children));
    }
  }

  /** The links come from the walk below the root: the root's own visit emits nothing. */
  lemma LinksUnfold(root: Placed)
    ensures Links(root) == EmitAll(BreadthFirst(VisitsOf(root, root.children)))
  {
    var rest := BreadthFirst(VisitsOf(root, root.children));
    var first := Visit(None, root);
    EachUnfold(root);
    assert Each(root) == [first] + rest;
    EmitAllAppend([first], rest);
    assert EmitAll([first]) == EmitAll([]) + Emitted(first);
  }

  /** reduceLinks emits exactly 2 links per non-root node that has children. */
  lemma LinksCount(root: Placed)
    ensures |Links(root)| == 2 * CountInternal(PreorderOf(root.children))
  {
    var q := VisitsOf(root, root.children);
    LinksUnfold(root);
    WalkBelowRoot(root);
    EmitAllShape(BreadthFirst(q), root);
    BreadthFirstCountInternal(q);
    assert NodesOf(q) == root.children;
  }

  /**
   * The links come in (parent -> node, node -> farthest child) pairs, and
   * every link's source is the parent of its target, so the root is never
   * a target.
   */
  lemma LinksShape(root: Placed)
    ensures TrunkPairs(Links(root))
    ensures forall l | l in Links(root) ::
      l.target in l.source.children && l.source in Preorder(root) && l.target != root
  {
    LinksUnfold(root);
    WalkBelowRoot(root);
    EmitAllShape(BreadthFirst(VisitsOf(root, root.children)), root);
    forall l | l in Links(root)
      ensures l.target != root
    {
      ChildInPreorder(root, l.source, l.target);
      PreorderClosed(root, l.source);
    }
  }

  /** The links pushed over `vs` include those of each of its visits. */
  lemma {:induction false} EmitAllContains(vs: seq<Visit<real>>, v: Visit<real>)
    requires v in vs
    ensures forall l | l in Emitted(v) :: l in EmitAll(vs)
    decreases |vs|
  {
    var init := vs[..|vs| - 1];
    if v != vs[|vs| - 1] {
      assert vs == init + [vs[|vs| - 1]];
      EmitAllContains(init, v);
    }
  }

  /**
   * Every non-root node with children gets its pair: the link from its
   * parent and the link to its farthest child are both in reduceLinks' output.
   */
  lemma LinksCover(root: Placed, p: Placed, x: Placed)
    requires p in Preorder(root) && x in p.children && |x.children| > 0
    ensures Link(p, x) in Links(root) && Link(x, Farthest(x.children)) in Links(root)
  {
    var v := Visit(Some(p), x);
    EachVisitsEveryChild(root, p, x);
    EmitAllContains(Each(root), v);
    assert Emitted(v) == [Link(p, x), Link(x, Farthest(x.children))];
  }

  /** The farthest child of `[c1 (y=5), c2 (y=9), c3 (y=3)]` is c2. */
  lemma FarthestExample(c1: Placed, c2: Placed, c3: Placed)
    requires c1.pos == 5.0 && c2.pos == 9.0 && c3.pos == 3.0
    ensures Farthest([c1, c2, c3]) == c2
  {
    assert [c1, c2, c3][..2] == [c1, c2];
    assert [c1, c2][..1] == [c1];
  }

  /** On a tie the later child is chosen. */
  lemma FarthestTieExample(a: Placed, b: Placed)
    requires a.pos == b.pos
    ensures Farthest([a, b]) == b
  {
    assert [a, b][..1] == [a];
  }
}
