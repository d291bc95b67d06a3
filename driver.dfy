/**
 * The query driver `match(ast, selector)`: a depth-first walk of the tree that
 * keeps the ancestry stack (nearest parent first), tests every node against
 * the selector and collects the reported nodes.
 */
module Driver {
  import opened Tree
  import opened Selectors
  import opened Matcher

  /** One step of the walk: a node together with its ancestry when it is entered. */
  datatype Visit = Visit(node: Node, ancestry: seq<Node>)

  /**
   * The walk the traversal library performs, in pre-order: the node, then the
   * children under each schema key in key order, list elements in list order.
   * Each child is visited with the node pushed onto the front of `anc`.
   */
  function VisitNode(keys: string -> seq<string>, n: Node, anc: seq<Node>): seq<Visit>
    decreases n, 3, 0
  {
    [Visit(n, anc)] + VisitKeys(keys, n, keys(n.kind), 0, [n] + anc)
  }

  function VisitKeys(keys: string -> seq<string>, n: Node, ks: seq<string>, i: nat, anc: seq<Node>): seq<Visit>
    decreases n, 2, |ks| - i
  {
    if i >= |ks| then [] else VisitValue(keys, n, Member(NodeV(n), ks[i]), anc) + VisitKeys(keys, n, ks, i + 1, anc)
  }

  /** The children held in one field value: a node, the elements of a list, or none. */
  function VisitValue(keys: string -> seq<string>, parent: Node, v: Value, anc: seq<Node>): seq<Visit>
    requires v.NodeV? || v.ListV? ==> v in parent.fields.Values
    decreases parent, 1, 0
  {
    match v
    case NodeV(c) => VisitNode(keys, c, anc)
    case ListV(items) => VisitItems(keys, parent, items, 0, anc)
    case _ => []
  }

  function VisitItems(keys: string -> seq<string>, parent: Node, items: seq<Node>, j: nat, anc: seq<Node>): seq<Visit>
    requires ListV(items) in parent.fields.Values
    decreases parent, 0, |items| - j
  {
    if j >= |items| then [] else VisitNode(keys, items[j], anc) + VisitItems(keys, parent, items, j + 1, anc)
  }

  /** The inner loop of `match` for one subject: `ancestry[k]`, matched under `ancestry.slice(k + 1)`, from `k` on. */
  function AncestorHits(h: Host, s: Selector, anc: seq<Node>, k: nat): seq<Node>
    decreases |anc| - k
  {
    if k >= |anc| then []
    else (if Matches(h, anc[k], s, anc[k + 1..]) then [anc[k]] else []) + AncestorHits(h, s, anc, k + 1)
  }

  /** The loop of `match` over the subjects from `i` on: the node itself, then its ancestors. */
  function SubjectHits(h: Host, alts: seq<Selector>, i: nat, node: Node, anc: seq<Node>): seq<Node>
    decreases |alts| - i
  {
    if i >= |alts| then []
    else
      (if Matches(h, node, alts[i], anc) then [node] else []) + AncestorHits(h, alts[i], anc, 0) +
      SubjectHits(h, alts, i + 1, node, anc)
  }

  /** What entering `node` with ancestry `anc` adds to the results. */
  function Report(h: Host, sel: Selector, alts: seq<Selector>, node: Node, anc: seq<Node>): seq<Node>
  {
    if !Matches(h, node, sel, anc) then []
    else if |alts| == 0 then [node]
    else SubjectHits(h, alts, 0, node, anc)
  }

  /** What each visit of a walk reports, for one selector. */
  function ReportOf(h: Host, sel: Selector): Visit -> seq<Node>
  {
    (v: Visit) => Report(h, sel, AltSubjects(sel), v.node, v.ancestry)
  }

  /** The reports of a sequence of visits, in order. */
  function ReportAll(report: Visit -> seq<Node>, visits: seq<Visit>): seq<Node>
  {
    if |visits| == 0 then [] else report(visits[0]) + ReportAll(report, visits[1..])
  }

  /** The result `match(ast, selector)` is to return. */
  function MatchSpec(h: Host, root: Node, selector: Option<Selector>): seq<Node>
  {
    if selector.None? then []
    else ReportAll(ReportOf(h, selector.value), VisitNode(h.keys, root, []))
  }

  lemma {:induction false} ReportAllAppend(report: Visit -> seq<Node>, a: seq<Visit>, b: seq<Visit>)
    ensures ReportAll(report, a + b) == ReportAll(report, a) + ReportAll(report, b)
    decreases |a|
  {
    if |a| == 0 {
      assert a + b == b;
    } else {
      assert (a + b)[0] == a[0] && (a + b)[1..] == a[1..] + b;
      ReportAllAppend(report, a[1..], b);
    }
  }

  /** The report of a subtree is the root's report followed by those of its children. */
  lemma ReportVisitNode(report: Visit -> seq<Node>, keys: string -> seq<string>, node: Node, anc: seq<Node>)
    ensures ReportAll(report, VisitNode(keys, node, anc)) ==
            report(Visit(node, anc)) + ReportAll(report, VisitKeys(keys, node, keys(node.kind), 0, [node] + anc))
  {
    ReportAllAppend(report, [Visit(node, anc)], VisitKeys(keys, node, keys(node.kind), 0, [node] + anc));
  }

  lemma ReportVisitKeys(report: Visit -> seq<Node>, keys: string -> seq<string>, node: Node, ks: seq<string>, i: nat, anc: seq<Node>)
    requires i < |ks|
    ensures ReportAll(report, VisitKeys(keys, node, ks, i, anc)) ==
            ReportAll(report, VisitValue(keys, node, Member(NodeV(node), ks[i]), anc)) +
            ReportAll(report, VisitKeys(keys, node, ks, i + 1, anc))
  {
    ReportAllAppend(report, VisitValue(keys, node, Member(NodeV(node), ks[i]), anc),
                    VisitKeys(keys, node, ks, i + 1, anc));
  }

  /** Concatenation regroups: the step that keeps every accumulator loop's invariant. */
  lemma Regroup<T>(a: seq<T>, b: seq<T>, c: seq<T>)
    ensures a + (b + c) == (a + b) + c
  {
  }

  /** Popping what was pushed gives the stack back. */
  lemma PopPushed<T>(x: T, a: seq<T>)
    ensures ([x] + a)[1..] == a
  {
  }

  /** The ancestry after `enter(node, parent)` pushed the parent, if any. */
  function Entered(parent: Option<Node>, anc: seq<Node>): seq<Node>
  {
    if parent.Some? then [parent.value] + anc else anc
  }

  /**
   * The state of one call of `match`: the selector, its subjects (computed once),
   * the ancestry stack the callbacks share, and the results collected so far.
   * `report` is what one visit adds to the results; `Valid` ties it to `Report`
   * for the selector at hand, so that the walk can be reasoned about without
   * unfolding the matcher.
   */
  class Query {
    const h: Host
    const selector: Selector
    const altSubjects: seq<Selector>
    ghost const report: Visit -> seq<Node>
    var ancestry: seq<Node>
    var results: seq<Node>

    ghost predicate Valid()
    {
      altSubjects == AltSubjects(selector) &&
      forall n: Node, a: seq<Node> {:trigger Report(h, selector, altSubjects, n, a)} ::
        report(Visit(n, a)) == Report(h, selector, altSubjects, n, a)
    }

    constructor (h: Host, selector: Selector)
      ensures this.h == h && this.selector == selector && report == ReportOf(h, selector)
      ensures ancestry == [] && results == []
      ensures Valid()
    {
      this.h := h;
      this.selector := selector;
      this.altSubjects := AltSubjects(selector);
      report := ReportOf(h, selector);
      ancestry := [];
      results := [];
    }

    /** The `enter` callback: push the parent, test the node, record what it reports. */
    method Enter(node: Node, parent: Option<Node>)
      requires Valid()
      modifies this
      ensures ancestry == Entered(parent, old(ancestry))
      ensures results == old(results) + report(Visit(node, ancestry))
    {
      if parent.Some? {
        ancestry := [parent.value] + ancestry;
      }
      var anc := ancestry;
      ghost var before := results;
      var hit := Matches(h, node, selector, anc);
      if hit {
        if |altSubjects| > 0 {
          CollectSubjects(node);
        } else {
          results := results + [node];
        }
      }
      assert results == before + Report(h, selector, altSubjects, node, anc);
    }

    /** The loop of `enter` over the subjects, once the whole selector has matched. */
    method CollectSubjects(node: Node)
      modifies this
      ensures ancestry == old(ancestry)
      ensures results == old(results) + SubjectHits(h, altSubjects, 0, node, ancestry)
    {
      var anc := ancestry;
      ghost var goal := results + SubjectHits(h, altSubjects, 0, node, anc);
      var i := 0;
      while i < |altSubjects|
        invariant 0 <= i <= |altSubjects|
        invariant ancestry == anc
        invariant results + SubjectHits(h, altSubjects, i, node, anc) == goal
      {
        var s := altSubjects[i];
        ghost var before := results;
        ghost var here := if Matches(h, node, s, anc) then [node] else [];
        ghost var up := AncestorHits(h, s, anc, 0);
        ghost var later := SubjectHits(h, altSubjects, i + 1, node, anc);
        assert SubjectHits(h, altSubjects, i, node, anc) == here + up + later;
        CollectSubject(s, node);
        Regroup(before, here, up);
        Regroup(before, here + up, later);
        Regroup(before + here, up, later);
        i := i + 1;
      }
      assert SubjectHits(h, altSubjects, i, node, anc) == [];
    }

    /** One subject of the loop in `enter`: the node, then each ancestor under the rest of the ancestry. */
    method CollectSubject(s: Selector, node: Node)
      modifies this
      ensures ancestry == old(ancestry)
      ensures results == old(results) + (if Matches(h, node, s, ancestry) then [node] else []) + AncestorHits(h, s, ancestry, 0)
    {
      var anc := ancestry;
      var here := Matches(h, node, s, anc);
      if here {
        results := results + [node];
      }
      assert results == old(results) + (if here then [node] else []);
      ghost var goal := results + AncestorHits(h, s, anc, 0);
      var k := 0;
      while k < |anc|
        invariant 0 <= k <= |anc|
        invariant ancestry == anc
        invariant results + AncestorHits(h, s, anc, k) == goal
      {
        ghost var before := results;
        ghost var hit := if Matches(h, anc[k], s, anc[k + 1..]) then [anc[k]] else [];
        if Matches(h, anc[k], s, anc[k + 1..]) {
          results := results + [anc[k]];
        }
        assert results == before + hit;
        Regroup(before, hit, AncestorHits(h, s, anc, k + 1));
        k := k + 1;
      }
      assert AncestorHits(h, s, anc, k) == [];
    }

    /** The `leave` callback: drop the front of the ancestry (nothing, when it is empty). */
    method Leave()
      modifies this
      ensures ancestry == if old(ancestry) == [] then [] else old(ancestry)[1..]
      ensures results == old(results)
    {
      if ancestry != [] {
        ancestry := ancestry[1..];
      }
    }

    /**
     * The traversal of the subtree at `node`, with `enter` before and `leave`
     * after its children: the ancestry comes back as it was, and the results
     * grow by the reports of the subtree's visits.
     */
    method Walk(node: Node, parent: Option<Node>)
      requires Valid()
      requires parent.None? ==> ancestry == []
      modifies this
      ensures ancestry == old(ancestry)
      ensures results == old(results) +
                         ReportAll(report, VisitNode(h.keys, node, Entered(parent, old(ancestry))))
      decreases node, 3
    {
      ghost var before := results;
      Enter(node, parent);
      var anc := ancestry;
      ReportVisitNode(report, h.keys, node, anc);
      WalkKeys(node);
      Regroup(before, report(Visit(node, anc)), ReportAll(report, VisitKeys(h.keys, node, h.keys(node.kind), 0, [node] + anc)));
      if parent.Some? {
        PopPushed(parent.value, old(ancestry));
      }
      Leave();
    }

    /** The children of `node`, field by field in schema order, while `node` is on top of the ancestry. */
    method WalkKeys(node: Node)
      requires Valid()
      modifies this
      ensures ancestry == old(ancestry)
      ensures results == old(results) + ReportAll(report, VisitKeys(h.keys, node, h.keys(node.kind), 0, [node] + old(ancestry)))
      decreases node, 2
    {
      var anc := ancestry;
      var ks := h.keys(node.kind);
      ghost var goal := results + ReportAll(report, VisitKeys(h.keys, node, ks, 0, [node] + anc));
      var i := 0;
      while i < |ks|
        invariant 0 <= i <= |ks|
        invariant ancestry == anc
        invariant results + ReportAll(report, VisitKeys(h.keys, node, ks, i, [node] + anc)) == goal
      {
        ghost var before := results;
        ReportVisitKeys(report, h.keys, node, ks, i, [node] + anc);
        WalkValue(node, Member(NodeV(node), ks[i]));
        Regroup(before, ReportAll(report, VisitValue(h.keys, node, Member(NodeV(node), ks[i]), [node] + anc)),
                ReportAll(report, VisitKeys(h.keys, node, ks, i + 1, [node] + anc)));
        i := i + 1;
      }
    }

    /** The children `node` holds in one field value, each walked with `node` as parent. */
    method WalkValue(node: Node, v: Value)
      requires Valid()
      requires v.NodeV? || v.ListV? ==> v in node.fields.Values
      modifies this
      ensures ancestry == old(ancestry)
      ensures results == old(results) + ReportAll(report, VisitValue(h.keys, node, v, [node] + old(ancestry)))
      decreases node, 1
    {
      match v
      case NodeV(c) => Walk(c, Some(node));
      case ListV(items) => WalkItems(node, items);
      case _ =>
    }

    /** The elements of a list-valued field of `node`, in list order. */
    method WalkItems(node: Node, items: seq<Node>)
      requires Valid()
      requires ListV(items) in node.fields.Values
      modifies this
      ensures ancestry == old(ancestry)
      ensures results == old(results) + ReportAll(report, VisitItems(h.keys, node, items, 0, [node] + old(ancestry)))
      decreases node, 0
    {
      var anc := ancestry;
      ghost var goal := old(results) + ReportAll(report, VisitItems(h.keys, node, items, 0, [node] + anc));
      var j := 0;
      while j < |items|
        invariant 0 <= j <= |items|
        invariant ancestry == anc
        invariant results + ReportAll(report, VisitItems(h.keys, node, items, j, [node] + anc)) == goal
      {
        ghost var before := results;
        ReportAllAppend(report, VisitNode(h.keys, items[j], [node] + anc),
                        VisitItems(h.keys, node, items, j + 1, [node] + anc));
        Walk(items[j], Some(node));
        Regroup(before, ReportAll(report, VisitNode(h.keys, items[j], [node] + anc)),
                ReportAll(report, VisitItems(h.keys, node, items, j + 1, [node] + anc)));
        j := j + 1;
      }
    }
  }

  /**
   * `match(ast, selector)`: nothing for an absent selector; otherwise the
   * reports of every node of the tree, in the order the walk enters them.
   */
  method Match(h: Host, root: Node, selector: Option<Selector>) returns (results: seq<Node>)
    ensures results == MatchSpec(h, root, selector)
    ensures selector.None? ==> results == []
  {
    if selector.None? {
      return [];
    }
    var q := new Query(h, selector.value);
    q.Walk(root, None);
    results := q.results;
  }
}
