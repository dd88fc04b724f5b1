/**
 A finite DOM tree, reduced to what the click-away rule looks at: the set of
 nodes, each node's parent, and each element's `class` attribute.

 `Node.contains` (section 4.4 of the DOM Standard) and `Element.closest`
 (section 4.9 of the DOM Standard) are both walks up the parent chain; this
 module defines that chain once and proves it agrees with the DOM's own
 notion of an inclusive ancestor.
 */
module DomTree {
  import opened Wrappers

  type NodeId = nat

  /** Position `i` of `chain` is the first one `matches` holds of. */
  predicate FirstMatchAt(chain: seq<NodeId>, i: int, matches: NodeId -> bool) {
    && 0 <= i < |chain|
    && matches(chain[i])
    && forall j :: 0 <= j < i ==> !matches(chain[j])
  }

  /** The first node of `chain` that `matches` holds of, or `None`. */
  function FirstMatch(chain: seq<NodeId>, matches: NodeId -> bool): (r: Option<NodeId>)
    ensures r.Some? ==> exists i :: FirstMatchAt(chain, i, matches) && chain[i] == r.value
    ensures r.None? <==> forall i :: 0 <= i < |chain| ==> !matches(chain[i])
  {
    if |chain| == 0 then None
    else if matches(chain[0]) then
      assert FirstMatchAt(chain, 0, matches);
      Some(chain[0])
    else
      var r := FirstMatch(chain[1..], matches);
      if r.Some? then
        var i :| FirstMatchAt(chain[1..], i, matches) && chain[1..][i] == r.value;
        assert FirstMatchAt(chain, i + 1, matches);
        r
      else
        r
  }

  /** A document. `classAttr` holds the `class` attribute of the elements that
      have one; `rank` witnesses that the parent relation has no cycle (every
      parent ranks strictly below its child), as in any DOM tree. */
  datatype Document = Document(
    nodes: set<NodeId>,
    parent: map<NodeId, NodeId>,
    classAttr: map<NodeId, string>,
    rank: map<NodeId, nat>)
  {
    predicate Valid() {
      && parent.Keys <= nodes
      && parent.Values <= nodes
      && classAttr.Keys <= nodes
      && rank.Keys == nodes
      && forall n :: n in parent ==> rank[parent[n]] < rank[n]
    }

    /** The `className` IDL attribute reflects `class`; a missing attribute reads as "". */
    function ClassName(n: NodeId): string {
      if n in classAttr then classAttr[n] else ""
    }

    /** The DOM's "inclusive ancestor" relation, independently of how it is
        computed: `p` is a walk from a node up through its parents. */
    ghost predicate ParentPath(p: seq<NodeId>) {
      && |p| >= 1
      && (forall i :: 0 <= i < |p| ==> p[i] in nodes)
      && (forall i :: 0 <= i < |p| - 1 ==> p[i] in parent && parent[p[i]] == p[i + 1])
    }

    /** `a` is `n` itself or an ancestor of `n`; equivalently, `n` is an
        inclusive descendant of `a`. */
    ghost predicate IsInclusiveAncestor(a: NodeId, n: NodeId) {
      exists p :: ParentPath(p) && p[0] == n && p[|p| - 1] == a
    }

    /** The inclusive ancestors of `n`, nearest first, ending at a node without a parent. */
    function InclusiveAncestors(n: NodeId): (chain: seq<NodeId>)
      requires Valid() && n in nodes
      ensures |chain| >= 1 && chain[0] == n
      ensures forall i :: 0 <= i < |chain| ==> chain[i] in nodes
      ensures forall i :: 0 <= i < |chain| - 1 ==> chain[i] in parent && parent[chain[i]] == chain[i + 1]
      ensures chain[|chain| - 1] !in parent
      decreases rank[n]
    {
      if n in parent then [n] + InclusiveAncestors(parent[n]) else [n]
    }

    /** `Node.contains(other)`: true iff `other` is an inclusive descendant of this node.
        A root that is not in the document (detached) contains nothing of it. */
    function Contains(root: NodeId, other: NodeId): (r: bool)
      requires Valid() && other in nodes
      ensures r <==> IsInclusiveAncestor(root, other)
    {
      InclusiveAncestorsAreAncestors(root, other);
      root in InclusiveAncestors(other)
    }

    /** `Element.closest(selector)`: the nearest inclusive ancestor that
        `matches` holds of, or `None` when there is none. */
    function Closest(n: NodeId, matches: NodeId -> bool): (r: Option<NodeId>)
      requires Valid() && n in nodes
      ensures r.Some? ==> r.value in InclusiveAncestors(n) && matches(r.value)
      ensures r.Some? ==> exists i :: FirstMatchAt(InclusiveAncestors(n), i, matches) && InclusiveAncestors(n)[i] == r.value
      ensures r.None? <==> forall a :: a in InclusiveAncestors(n) ==> !matches(a)
    {
      FirstMatch(InclusiveAncestors(n), matches)
    }

    /** The computed chain is exactly the set of inclusive ancestors. */
    lemma {:induction false} InclusiveAncestorsAreAncestors(a: NodeId, n: NodeId)
      requires Valid() && n in nodes
      ensures a in InclusiveAncestors(n) <==> IsInclusiveAncestor(a, n)
    {
      var chain := InclusiveAncestors(n);
      if a in chain {
        var j :| 0 <= j < |chain| && chain[j] == a;
        var p := chain[..j + 1];
        assert ParentPath(p) && p[0] == n && p[|p| - 1] == a;
      }
      if IsInclusiveAncestor(a, n) {
        var p :| ParentPath(p) && p[0] == n && p[|p| - 1] == a;
        PathWithinChain(p, n, a);
      }
    }

    lemma {:induction false} PathWithinChain(p: seq<NodeId>, n: NodeId, a: NodeId)
      requires Valid() && n in nodes
      requires ParentPath(p) && p[0] == n && p[|p| - 1] == a
      ensures a in InclusiveAncestors(n)
      decreases |p|
    {
      if |p| > 1 {
        var q := p[1..];
        assert ParentPath(q);
        PathWithinChain(q, parent[n], a);
      }
    }
  }
}
