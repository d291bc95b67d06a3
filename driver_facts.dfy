/**
 * What `match` computes, stated against reference definitions: the ancestry
 * each node is matched under, the pre-order filter when no subject is flagged,
 * and where the reported nodes come from when subjects are flagged.
 */
module DriverFacts {
  import opened Tree
  import opened Selectors
  import opened Matcher
  import opened Driver

  /** `c` is held by `p` under one of the schema keys of `p`'s type, directly or as a list element. */
  predicate ChildOf(keys: string -> seq<string>, c: Node, p: Node)
  {
    exists k :: k in keys(p.kind) &&
      (Member(NodeV(p), k) == NodeV(c) || (Member(NodeV(p), k).ListV? && c in Member(NodeV(p), k).items))
  }

  /** `anc` lists the ancestors of `node`, nearest first: each entry holds the one before it. */
  predicate IsChain(keys: string -> seq<string>, node: Node, anc: seq<Node>)
    decreases |anc|
  {
    |anc| == 0 || (ChildOf(keys, node, anc[0]) && IsChain(keys, anc[0], anc[1..]))
  }

  /** The outermost node of a chain: the last ancestor, or the node itself when there is none. */
  function Top(node: Node, anc: seq<Node>): Node
  {
    if |anc| == 0 then node else anc[|anc| - 1]
  }

  /** Every visit below a node entered with its true ancestry carries its own true ancestry. */
  lemma {:induction false} VisitNodeChains(keys: string -> seq<string>, n: Node, anc: seq<Node>)
    requires IsChain(keys, n, anc)
    ensures forall v :: v in VisitNode(keys, n, anc) ==> IsChain(keys, v.node, v.ancestry) && Top(v.node, v.ancestry) == Top(n, anc)
    decreases n, 3, 0
  {
    VisitKeysChains(keys, n, 0, anc);
  }

  lemma {:induction false} VisitKeysChains(keys: string -> seq<string>, n: Node, i: nat, anc: seq<Node>)
    requires IsChain(keys, n, anc)
    ensures forall v :: v in VisitKeys(keys, n, keys(n.kind), i, [n] + anc) ==>
              IsChain(keys, v.node, v.ancestry) && Top(v.node, v.ancestry) == Top(n, anc)
    decreases n, 2, |keys(n.kind)| - i
  {
    var ks := keys(n.kind);
    if i < |ks| {
      var field := Member(NodeV(n), ks[i]);
      assert ([n] + anc)[1..] == anc;
      match field {
        case NodeV(c) =>
          assert ChildOf(keys, c, n);
          assert Top(c, [n] + anc) == Top(n, anc);
          VisitNodeChains(keys, c, [n] + anc);
        case ListV(items) =>
          VisitItemsChains(keys, n, ks[i], items, 0, anc);
        case _ =>
      }
      VisitKeysChains(keys, n, i + 1, anc);
    }
  }

  lemma {:induction false} VisitItemsChains(keys: string -> seq<string>, n: Node, k: string, items: seq<Node>, j: nat, anc: seq<Node>)
    requires IsChain(keys, n, anc)
    requires k in keys(n.kind) && Member(NodeV(n), k) == ListV(items)
    ensures ListV(items) in n.fields.Values
    ensures forall v :: v in VisitItems(keys, n, items, j, [n] + anc) ==>
              IsChain(keys, v.node, v.ancestry) && Top(v.node, v.ancestry) == Top(n, anc)
    decreases n, 0, |items| - j
  {
    if j < |items| {
      assert ([n] + anc)[1..] == anc;
      assert ChildOf(keys, items[j], n);
      assert Top(items[j], [n] + anc) == Top(n, anc);
      VisitNodeChains(keys, items[j], [n] + anc);
      VisitItemsChains(keys, n, k, items, j + 1, anc);
    }
  }

  /**
   * Each node of the tree is matched with its ancestors, nearest first, as its
   * ancestry: a chain of parents that ends at the root.
   */
  lemma WalkAncestry(keys: string -> seq<string>, root: Node)
    ensures forall v :: v in VisitNode(keys, root, []) ==> IsChain(keys, v.node, v.ancestry) && Top(v.node, v.ancestry) == root
  {
    VisitNodeChains(keys, root, []);
  }

  /** Reference definition: the nodes of the visits that match `sel`, in visit order. */
  function MatchingNodes(h: Host, sel: Selector, visits: seq<Visit>): seq<Node>
  {
    if |visits| == 0 then []
    else
      (if Matches(h, visits[0].node, sel, visits[0].ancestry) then [visits[0].node] else []) +
      MatchingNodes(h, sel, visits[1..])
  }

  lemma {:induction false} ReportAllWithoutSubjects(h: Host, sel: Selector, visits: seq<Visit>)
    requires FlagCount(sel) == 0
    ensures ReportAll(ReportOf(h, sel), visits) == MatchingNodes(h, sel, visits)
    decreases |visits|
  {
    if |visits| > 0 {
      SubjectsCount(sel, sel);
      ReportAllWithoutSubjects(h, sel, visits[1..]);
    }
  }

  /** Without subject flags, `match` yields exactly the matching nodes of the tree in pre-order. */
  lemma MatchWithoutSubjects(h: Host, root: Node, sel: Selector)
    requires FlagCount(sel) == 0
    ensures MatchSpec(h, root, Some(sel)) == MatchingNodes(h, sel, VisitNode(h.keys, root, []))
  {
    ReportAllWithoutSubjects(h, sel, VisitNode(h.keys, root, []));
  }

  lemma {:induction false} AncestorHitsWithin(h: Host, s: Selector, anc: seq<Node>, k: nat)
    ensures forall x :: x in AncestorHits(h, s, anc, k) <==>
              exists j :: k <= j < |anc| && x == anc[j] && Matches(h, anc[j], s, anc[j + 1..])
    decreases |anc| - k
  {
    if k < |anc| {
      AncestorHitsWithin(h, s, anc, k + 1);
    }
  }

  /**
   * A node is reported for the subjects exactly when some subject matches it,
   * as the node itself under `anc` or as an ancestor under the rest of `anc`.
   */
  lemma {:induction false} SubjectHitsWithin(h: Host, alts: seq<Selector>, i: nat, node: Node, anc: seq<Node>)
    ensures forall x :: x in SubjectHits(h, alts, i, node, anc) <==>
              exists m :: i <= m < |alts| && SubjectHit(h, alts[m], x, node, anc)
    decreases |alts| - i
  {
    if i < |alts| {
      AncestorHitsWithin(h, alts[i], anc, 0);
      SubjectHitsWithin(h, alts, i + 1, node, anc);
    }
  }

  /** `x` is the node matching `s` under `anc`, or an ancestor matching `s` under the ancestors above it. */
  predicate SubjectHit(h: Host, s: Selector, x: Node, node: Node, anc: seq<Node>)
  {
    (x == node && Matches(h, node, s, anc)) ||
    exists j :: 0 <= j < |anc| && x == anc[j] && Matches(h, anc[j], s, anc[j + 1..])
  }

  /** Everything one visit reports is the visited node or one of the nodes in its ancestry. */
  lemma ReportWithin(h: Host, sel: Selector, node: Node, anc: seq<Node>)
    ensures forall x :: x in ReportOf(h, sel)(Visit(node, anc)) ==> x == node || x in anc
  {
    SubjectHitsWithin(h, AltSubjects(sel), 0, node, anc);
  }

  lemma {:induction false} ReportAllWithin(h: Host, sel: Selector, visits: seq<Visit>)
    ensures forall x :: x in ReportAll(ReportOf(h, sel), visits) ==>
              exists v :: v in visits && (x == v.node || x in v.ancestry)
    decreases |visits|
  {
    if |visits| > 0 {
      ReportWithin(h, sel, visits[0].node, visits[0].ancestry);
      ReportAllWithin(h, sel, visits[1..]);
    }
  }

  /**
   * With or without subjects, every node `match` reports is a node of the walk
   * or one of the ancestors it was matched under, which are its true ancestors.
   */
  lemma MatchReportsVisited(h: Host, root: Node, sel: Selector)
    ensures forall x :: x in MatchSpec(h, root, Some(sel)) ==>
              exists v :: v in VisitNode(h.keys, root, []) && IsChain(h.keys, v.node, v.ancestry) &&
                          Top(v.node, v.ancestry) == root &&
                          (x == v.node || x in v.ancestry)
  {
    ReportAllWithin(h, sel, VisitNode(h.keys, root, []));
    WalkAncestry(h.keys, root);
  }
}
