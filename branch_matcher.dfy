/**
 * The link filter of searchTree: with data loaded and a non-empty search
 * string, a rendered link is flagged when some leaf below its target has a
 * name that matches the search pattern.
 *
 * The pattern match itself (`name.match(search)`, a case-sensitive
 * JavaScript regular expression) is a parameter `matches(name, pattern)`.
 */
module BranchMatcher {
  import opened Hierarchy
  import opened LinkReducer

  /** `link.target.leaves().find(d => d.data.name.match(search))` is truthy. */
  predicate HasMatchingLeaf(n: Placed, search: string, matches: (string, string) -> bool): (b: bool)
    ensures IsLeaf(n) ==> (b <==> matches(n.name, search))
  {
    exists leaf | leaf in Leaves(n) :: matches(leaf.name, search)
  }

  /** `links.filter(...)`: the links whose target has a matching leaf, in order. */
  function MatchingLinks(links: seq<Link>, search: string, matches: (string, string) -> bool): (r: seq<Link>)
    ensures forall l :: l in r <==> l in links && HasMatchingLeaf(l.target, search, matches)
    ensures |r| <= |links|
  {
    if |links| == 0 then []
    else
      (if HasMatchingLeaf(links[0].target, search, matches) then [links[0]] else [])
      + MatchingLinks(links[1..], search, matches)
  }

  /**
   * The links searchTree colours as matches. Without loaded data or with an
   * empty search string it returns before filtering.
   */
  function SearchTree(loaded: bool, search: string, links: seq<Link>, matches: (string, string) -> bool)
    : (flagged: seq<Link>)
    ensures !loaded || search == "" ==> flagged == []
    ensures loaded && search != "" ==>
      forall l :: l in flagged <==> l in links && HasMatchingLeaf(l.target, search, matches)
  {
    if !loaded || |search| == 0 then [] else MatchingLinks(links, search, matches)
  }

  /**
   * Over the links reduceLinks produced, a flagged (node -> farthest child)
   * link always comes right after a flagged (parent -> node) link: the
   * leaves of the farthest child are leaves of the node.
   */
  lemma FlaggedTrunkFlagsItsEntry(root: Placed, loaded: bool, search: string, matches: (string, string) -> bool)
    ensures forall i | 0 <= i < |Links(root)| && i % 2 == 0 ::
      i + 1 < |Links(root)| &&
      (Links(root)[i + 1] in SearchTree(loaded, search, Links(root), matches) ==>
       Links(root)[i] in SearchTree(loaded, search, Links(root), matches))
  {
    var ls := Links(root);
    LinksShape(root);
    forall i | 0 <= i < |ls| && i % 2 == 0
      ensures i + 1 < |ls| &&
        (ls[i + 1] in SearchTree(loaded, search, ls, matches) ==> ls[i] in SearchTree(loaded, search, ls, matches))
    {
      TrunkPairsAt(ls, i);
      var node := ls[i].target;
      var far := Farthest(node.children);
      assert ls[i + 1].target == far;
      LeavesOfChild(node, far);
    }
  }
}
