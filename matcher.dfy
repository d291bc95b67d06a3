/**
 * The matcher: `matches(node, selector, ancestry)` and its structural helpers
 * `sibling`, `adjacent` and `nthChild`.  `ancestry` lists the node's ancestors,
 * nearest (the parent) first.
 */
module Matcher {
  import opened Strings
  import opened Tree
  import opened Paths
  import opened Selectors

  /**
   * The collaborators the engine calls but does not define: the child-field
   * schema of the traversal library (`VisitorKeys`, by type tag), `RegExp.test`
   * on a pattern and the coerced string, and JavaScript's relational comparison
   * for the operand pairs other than number/number and string/string.
   */
  datatype Host = Host(
    keys: string -> seq<string>,
    regexTest: (string, string) -> bool,
    looseCompare: (RelOp, Value, Lit) -> bool)

  /** Which position an nth selector asks for, as a function of the list length. */
  datatype Position = FromStart(index: int) | FromEnd(index: int)

  /** The `idxFn` handed to `nthChild`: `index - 1` or `length - index`. */
  function Target(pos: Position, length: nat): int
  {
    match pos
    case FromStart(n) => n - 1
    case FromEnd(n) => length - n
  }

  /**
   * `ancestry[i]`: the ancestor at depth `i + 1`, or `undefined` past the root.
   * It is nullish, so that `inPath` fails at once, exactly when `i` lies
   * outside the ancestry; it is never `null`; and a present one is a node of
   * the ancestry, the one at `i`.
   */
  function AncestorAt(anc: seq<Node>, i: int): (r: Value)
    ensures IsNullish(r) <==> !(0 <= i < |anc|)
    ensures r != Null
    ensures !IsNullish(r) ==> r.NodeV? && r.node in anc && r.node == anc[i]
  {
    if 0 <= i < |anc| then NodeV(anc[i]) else Undefined
  }

  /** `listProp.indexOf(node)`: the first position holding the node itself, or -1. */
  function IndexOf(items: seq<Node>, node: Node): (r: int)
    ensures -1 <= r < |items|
    ensures 0 <= r ==> SameNode(items[r], node)
    ensures forall j :: 0 <= j < |items| && (r < 0 || j < r) ==> !SameNode(items[j], node)
  {
    if |items| == 0 then -1
    else if SameNode(items[0], node) then 0
    else
      var t := IndexOf(items[1..], node);
      if t < 0 then -1 else t + 1
  }

  function LitValue(l: Lit): Value
  {
    match l
    case LStr(s) => Str(s)
    case LNum(i) => Num(i)
  }

  /** The `'='` branch, by operand kind. */
  predicate EqHolds(h: Host, p: Value, o: Operand)
  {
    match o
    case Regexp(pattern) => h.regexTest(pattern, ToJsString(p))
    case Literal(l) => ToJsString(LitValue(l)) == ToJsString(p)
    case TypeName(t) => t == TypeOf(p)
  }

  /** The `'!='` branch, by operand kind. */
  predicate NeqHolds(h: Host, p: Value, o: Operand)
  {
    match o
    case Regexp(pattern) => !h.regexTest(pattern, ToJsString(p))
    case Literal(l) => ToJsString(LitValue(l)) != ToJsString(p)
    case TypeName(t) => t != TypeOf(p)
  }

  /** `p <= bound` and friends: numbers numerically, strings lexicographically. */
  predicate Compare(h: Host, r: RelOp, p: Value, bound: Lit)
  {
    if p.Num? && bound.LNum? then
      match r
      case Le => p.i <= bound.i
      case Lt => p.i < bound.i
      case Gt => p.i > bound.i
      case Ge => p.i >= bound.i
    else if p.Str? && bound.LStr? then
      match r
      case Le => !LexLess(bound.s, p.s)
      case Lt => LexLess(p.s, bound.s)
      case Gt => LexLess(bound.s, p.s)
      case Ge => !LexLess(p.s, bound.s)
    else h.looseCompare(r, p, bound)
  }

  /** The attribute test on the resolved value `p`. */
  predicate AttrHolds(h: Host, p: Value, op: AttrOp)
  {
    match op
    case Exists => !IsNullish(p)
    case Eq(o) => EqHolds(h, p, o)
    case Neq(o) => NeqHolds(h, p, o)
    case Rel(r, bound) => Compare(h, r, p, bound)
  }

  /** `matches(node, selector, ancestry)` for a present node and selector. */
  predicate Matches(h: Host, node: Node, s: Selector, anc: seq<Node>)
    decreases s, 0
  {
    match s
    case Wildcard(_) => true
    case Identifier(value, _) => EqualIgnoringCase(value, node.kind)
    case Field(name, _) =>
      var path := Split(name);
      InPath(node, AncestorAt(anc, |path| - 1), path)
    case Attribute(name, op, _) => AttrHolds(h, GetPath(NodeV(node), Split(name)), op)
    case AnyOf(ss, _) => SomeMatches(h, node, ss, anc)
    case Compound(ss, _) => AllMatch(h, node, ss, anc)
    case Not(ss, _) => !SomeMatches(h, node, ss, anc)
    case Child(l, r, _) =>
      Matches(h, node, r, anc) && |anc| > 0 && Matches(h, anc[0], l, anc[1..])
    case Descendant(l, r, _) =>
      Matches(h, node, r, anc) && AncestorMatchesFrom(h, l, anc, 0)
    case Sibling(l, r, _) =>
      (Matches(h, node, r, anc) && HasSibling(h, node, l, anc)) ||
      (Matches(h, node, l, anc) && HasSibling(h, node, r, anc))
    case Adjacent(l, r, _) =>
      (Matches(h, node, r, anc) && HasAdjacent(h, node, l, anc)) ||
      (Matches(h, node, l, anc) && HasAdjacent(h, node, r, anc))
    case NthChild(index, r, _) =>
      Matches(h, node, r, anc) && IsNthChild(h, node, anc, FromStart(index))
    case NthLastChild(index, r, _) =>
      Matches(h, node, r, anc) && IsNthChild(h, node, anc, FromEnd(index))
  }

  /** The `'matches'` loop: some selector of the list matches. */
  predicate SomeMatches(h: Host, node: Node, ss: seq<Selector>, anc: seq<Node>)
    decreases ss, 1
  {
    |ss| > 0 && (Matches(h, node, ss[0], anc) || SomeMatches(h, node, ss[1..], anc))
  }

  /** The `'compound'` loop: no selector of the list fails. */
  predicate AllMatch(h: Host, node: Node, ss: seq<Selector>, anc: seq<Node>)
    decreases ss, 1
  {
    |ss| == 0 || (Matches(h, node, ss[0], anc) && AllMatch(h, node, ss[1..], anc))
  }

  /** The `'descendant'` loop from position `i` up: `ancestry[i]` matched under `ancestry.slice(i + 1)`. */
  predicate AncestorMatchesFrom(h: Host, l: Selector, anc: seq<Node>, i: nat)
    decreases l, 1, |anc| - i
  {
    i < |anc| && (Matches(h, anc[i], l, anc[i + 1..]) || AncestorMatchesFrom(h, l, anc, i + 1))
  }

  /** `sibling(node, selector, ancestry)`. */
  predicate HasSibling(h: Host, node: Node, s: Selector, anc: seq<Node>)
    decreases s, 3
  {
    |anc| > 0 && SiblingInKeys(h, node, s, anc, h.keys(anc[0].kind), 0)
  }

  /** The loop of `sibling` over the parent's child keys, from key `i` on. */
  predicate SiblingInKeys(h: Host, node: Node, s: Selector, anc: seq<Node>, keys: seq<string>, i: nat)
    requires |anc| > 0
    decreases s, 2, |keys| - i
  {
    i < |keys| &&
    (var field := Member(NodeV(anc[0]), keys[i]);
     (field.ListV? && SiblingInList(h, node, s, anc, field.items, 0)) ||
     SiblingInKeys(h, node, s, anc, keys, i + 1))
  }

  /** The inner loop of `sibling` over one list, from position `k` on. */
  predicate SiblingInList(h: Host, node: Node, s: Selector, anc: seq<Node>, items: seq<Node>, k: nat)
    decreases s, 1, |items| - k
  {
    k < |items| &&
    ((!SameNode(items[k], node) && Matches(h, items[k], s, anc)) ||
     SiblingInList(h, node, s, anc, items, k + 1))
  }

  /** `adjacent(node, selector, ancestry)`. */
  predicate HasAdjacent(h: Host, node: Node, s: Selector, anc: seq<Node>)
    decreases s, 3
  {
    |anc| > 0 && AdjacentInKeys(h, node, s, anc, h.keys(anc[0].kind), 0)
  }

  /** The loop of `adjacent` over the parent's child keys, from key `i` on. */
  predicate AdjacentInKeys(h: Host, node: Node, s: Selector, anc: seq<Node>, keys: seq<string>, i: nat)
    requires |anc| > 0
    decreases s, 2, |keys| - i
  {
    i < |keys| &&
    (var field := Member(NodeV(anc[0]), keys[i]);
     (field.ListV? && AdjacentInList(h, node, s, anc, field.items)) ||
     AdjacentInKeys(h, node, s, anc, keys, i + 1))
  }

  /** One list of `adjacent`: the entries right before and right after the node's first occurrence. */
  predicate AdjacentInList(h: Host, node: Node, s: Selector, anc: seq<Node>, list: seq<Node>)
    decreases s, 1
  {
    var idx := IndexOf(list, node);
    idx >= 0 &&
    ((idx > 0 && Matches(h, list[idx - 1], s, anc)) ||
     (idx < |list| - 1 && Matches(h, list[idx + 1], s, anc)))
  }

  /** `nthChild(node, ancestry, idxFn)`. */
  predicate IsNthChild(h: Host, node: Node, anc: seq<Node>, pos: Position)
  {
    |anc| > 0 && NthInKeys(node, anc[0], h.keys(anc[0].kind), 0, pos)
  }

  /** The loop of `nthChild` over the parent's child keys, from key `i` on. */
  predicate NthInKeys(node: Node, parent: Node, keys: seq<string>, i: nat, pos: Position)
    decreases |keys| - i
  {
    i < |keys| &&
    (var field := Member(NodeV(parent), keys[i]);
     (field.ListV? &&
      var idx := IndexOf(field.items, node);
      idx >= 0 && idx == Target(pos, |field.items|)) ||
     NthInKeys(node, parent, keys, i + 1, pos))
  }

  /**
   * `matches` as exported, where the node and the selector may be absent: an
   * absent selector matches everything and an absent node matches no selector.
   */
  predicate MatchesEntry(h: Host, node: Option<Node>, s: Option<Selector>, anc: seq<Node>)
  {
    if s.None? then true
    else if node.None? then false
    else Matches(h, node.value, s.value, anc)
  }
}
