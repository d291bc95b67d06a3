/**
 * Selector syntax trees, as the selector parser produces them, and the
 * resolution of `subject` markers.
 */
module Selectors {

  /** A literal operand: the parser yields strings and numbers. */
  datatype Lit = LStr(s: string) | LNum(i: int)

  /** The right-hand side of `=` and `!=` in an attribute selector. */
  datatype Operand =
    | Regexp(pattern: string)
    | Literal(lit: Lit)
    | TypeName(name: string)

  datatype RelOp = Le | Lt | Gt | Ge

  /** The operator of an attribute selector; `Exists` is `[name]` with no operator. */
  datatype AttrOp =
    | Exists
    | Eq(operand: Operand)
    | Neq(operand: Operand)
    | Rel(rel: RelOp, bound: Lit)

  /**
   * A selector node.  Every variant carries the `subject` flag, which never
   * decides whether a node matches, only which node is reported.
   */
  datatype Selector =
    | Wildcard(subject: bool)
    | Identifier(value: string, subject: bool)
    | Field(name: string, subject: bool)
    | Attribute(name: string, op: AttrOp, subject: bool)
    | AnyOf(selectors: seq<Selector>, subject: bool)
    | Compound(selectors: seq<Selector>, subject: bool)
    | Not(selectors: seq<Selector>, subject: bool)
    | Child(left: Selector, right: Selector, subject: bool)
    | Descendant(left: Selector, right: Selector, subject: bool)
    | Sibling(left: Selector, right: Selector, subject: bool)
    | Adjacent(left: Selector, right: Selector, subject: bool)
    | NthChild(index: int, right: Selector, subject: bool)
    | NthLastChild(index: int, right: Selector, subject: bool)

  /** The four binary structural combinators, which have a `left` part. */
  predicate IsBinary(s: Selector)
  {
    s.Child? || s.Descendant? || s.Sibling? || s.Adjacent?
  }

  /**
   * `subjects(selector, ancestor)`: for every selector node flagged `subject`, in
   * traversal order, the part of the selector it must be matched against: its
   * nearest enclosing `left` part, or the whole selector.  Properties are visited
   * in the order the parser writes them: `left` before `right`, list members in order.
   */
  function Subjects(s: Selector, scope: Selector): seq<Selector>
    decreases s, 1
  {
    (if s.subject then [scope] else []) +
    match s
    case AnyOf(ss, _) => SubjectsOfEach(ss, scope)
    case Compound(ss, _) => SubjectsOfEach(ss, scope)
    case Not(ss, _) => SubjectsOfEach(ss, scope)
    case Child(l, r, _) => Subjects(l, l) + Subjects(r, scope)
    case Descendant(l, r, _) => Subjects(l, l) + Subjects(r, scope)
    case Sibling(l, r, _) => Subjects(l, l) + Subjects(r, scope)
    case Adjacent(l, r, _) => Subjects(l, l) + Subjects(r, scope)
    case NthChild(_, r, _) => Subjects(r, scope)
    case NthLastChild(_, r, _) => Subjects(r, scope)
    case _ => []
  }

  /** The `for (p in selector)` walk over a list of selectors, each with the same scope. */
  function SubjectsOfEach(ss: seq<Selector>, scope: Selector): seq<Selector>
    decreases ss, 0
  {
    if |ss| == 0 then [] else Subjects(ss[0], scope) + SubjectsOfEach(ss[1..], scope)
  }

  /** `subjects(selector)` at the top: the whole selector is the initial scope. */
  function AltSubjects(s: Selector): seq<Selector>
  {
    Subjects(s, s)
  }

  /** Number of selector nodes flagged `subject` in `s`. */
  function FlagCount(s: Selector): nat
    decreases s, 1
  {
    (if s.subject then 1 else 0) +
    match s
    case AnyOf(ss, _) => FlagCountOfEach(ss)
    case Compound(ss, _) => FlagCountOfEach(ss)
    case Not(ss, _) => FlagCountOfEach(ss)
    case Child(l, r, _) => FlagCount(l) + FlagCount(r)
    case Descendant(l, r, _) => FlagCount(l) + FlagCount(r)
    case Sibling(l, r, _) => FlagCount(l) + FlagCount(r)
    case Adjacent(l, r, _) => FlagCount(l) + FlagCount(r)
    case NthChild(_, r, _) => FlagCount(r)
    case NthLastChild(_, r, _) => FlagCount(r)
    case _ => 0
  }

  function FlagCountOfEach(ss: seq<Selector>): nat
    decreases ss, 0
  {
    if |ss| == 0 then 0 else FlagCount(ss[0]) + FlagCountOfEach(ss[1..])
  }

  /** Every selector that occurs as the `left` part of a combinator inside `s`. */
  ghost function LeftParts(s: Selector): set<Selector>
    decreases s, 1
  {
    match s
    case AnyOf(ss, _) => LeftPartsOfEach(ss)
    case Compound(ss, _) => LeftPartsOfEach(ss)
    case Not(ss, _) => LeftPartsOfEach(ss)
    case Child(l, r, _) => {l} + LeftParts(l) + LeftParts(r)
    case Descendant(l, r, _) => {l} + LeftParts(l) + LeftParts(r)
    case Sibling(l, r, _) => {l} + LeftParts(l) + LeftParts(r)
    case Adjacent(l, r, _) => {l} + LeftParts(l) + LeftParts(r)
    case NthChild(_, r, _) => LeftParts(r)
    case NthLastChild(_, r, _) => LeftParts(r)
    case _ => {}
  }

  ghost function LeftPartsOfEach(ss: seq<Selector>): set<Selector>
    decreases ss, 0
  {
    if |ss| == 0 then {} else LeftParts(ss[0]) + LeftPartsOfEach(ss[1..])
  }

  /** The same selector with every `subject` flag cleared. */
  function Unflag(s: Selector): (r: Selector)
    ensures FlagCount(r) == 0
    decreases s, 1
  {
    match s
    case Wildcard(_) => Wildcard(false)
    case Identifier(v, _) => Identifier(v, false)
    case Field(n, _) => Field(n, false)
    case Attribute(n, op, _) => Attribute(n, op, false)
    case AnyOf(ss, _) => AnyOf(UnflagEach(ss), false)
    case Compound(ss, _) => Compound(UnflagEach(ss), false)
    case Not(ss, _) => Not(UnflagEach(ss), false)
    case Child(l, r, _) => Child(Unflag(l), Unflag(r), false)
    case Descendant(l, r, _) => Descendant(Unflag(l), Unflag(r), false)
    case Sibling(l, r, _) => Sibling(Unflag(l), Unflag(r), false)
    case Adjacent(l, r, _) => Adjacent(Unflag(l), Unflag(r), false)
    case NthChild(i, r, _) => NthChild(i, Unflag(r), false)
    case NthLastChild(i, r, _) => NthLastChild(i, Unflag(r), false)
  }

  function UnflagEach(ss: seq<Selector>): (r: seq<Selector>)
    ensures |r| == |ss|
    ensures FlagCountOfEach(r) == 0
    decreases ss, 0
  {
    if |ss| == 0 then [] else [Unflag(ss[0])] + UnflagEach(ss[1..])
  }

  /** One entry per flagged selector node: the list is empty exactly when no flag is set. */
  lemma {:induction false} SubjectsCount(s: Selector, scope: Selector)
    ensures |Subjects(s, scope)| == FlagCount(s)
    decreases s, 1
  {
    var own := if s.subject then [scope] else [];
    match s
    case AnyOf(ss, _) =>
      SubjectsOfEachCount(ss, scope);
      assert Subjects(s, scope) == own + SubjectsOfEach(ss, scope);
    case Compound(ss, _) =>
      SubjectsOfEachCount(ss, scope);
      assert Subjects(s, scope) == own + SubjectsOfEach(ss, scope);
    case Not(ss, _) =>
      SubjectsOfEachCount(ss, scope);
      assert Subjects(s, scope) == own + SubjectsOfEach(ss, scope);
    case Child(l, r, _) =>
      SubjectsCount(l, l); SubjectsCount(r, scope);
      assert Subjects(s, scope) == own + (Subjects(l, l) + Subjects(r, scope));
    case Descendant(l, r, _) =>
      SubjectsCount(l, l); SubjectsCount(r, scope);
      assert Subjects(s, scope) == own + (Subjects(l, l) + Subjects(r, scope));
    case Sibling(l, r, _) =>
      SubjectsCount(l, l); SubjectsCount(r, scope);
      assert Subjects(s, scope) == own + (Subjects(l, l) + Subjects(r, scope));
    case Adjacent(l, r, _) =>
      SubjectsCount(l, l); SubjectsCount(r, scope);
      assert Subjects(s, scope) == own + (Subjects(l, l) + Subjects(r, scope));
    case NthChild(_, r, _) =>
      SubjectsCount(r, scope);
      assert Subjects(s, scope) == own + Subjects(r, scope);
    case NthLastChild(_, r, _) =>
      SubjectsCount(r, scope);
      assert Subjects(s, scope) == own + Subjects(r, scope);
    case _ =>
      assert Subjects(s, scope) == own + [];
  }

  lemma {:induction false} SubjectsOfEachCount(ss: seq<Selector>, scope: Selector)
    ensures |SubjectsOfEach(ss, scope)| == FlagCountOfEach(ss)
    decreases ss, 0
  {
    if |ss| > 0 {
      SubjectsCount(ss[0], scope);
      SubjectsOfEachCount(ss[1..], scope);
    }
  }

  /**
   * Every entry is the scope the walk started with or a `left` part of the
   * selector: subjects are never reported against anything else.
   */
  lemma {:induction false} SubjectsAreScopes(s: Selector, scope: Selector)
    ensures forall e :: e in Subjects(s, scope) ==> e == scope || e in LeftParts(s)
    decreases s, 1
  {
    match s
    case AnyOf(ss, _) => SubjectsOfEachAreScopes(ss, scope);
    case Compound(ss, _) => SubjectsOfEachAreScopes(ss, scope);
    case Not(ss, _) => SubjectsOfEachAreScopes(ss, scope);
    case Child(l, r, _) => SubjectsAreScopes(l, l); SubjectsAreScopes(r, scope);
    case Descendant(l, r, _) => SubjectsAreScopes(l, l); SubjectsAreScopes(r, scope);
    case Sibling(l, r, _) => SubjectsAreScopes(l, l); SubjectsAreScopes(r, scope);
    case Adjacent(l, r, _) => SubjectsAreScopes(l, l); SubjectsAreScopes(r, scope);
    case NthChild(_, r, _) => SubjectsAreScopes(r, scope);
    case NthLastChild(_, r, _) => SubjectsAreScopes(r, scope);
    case _ =>
  }

  lemma {:induction false} SubjectsOfEachAreScopes(ss: seq<Selector>, scope: Selector)
    ensures forall e :: e in SubjectsOfEach(ss, scope) ==> e == scope || e in LeftPartsOfEach(ss)
    decreases ss, 0
  {
    if |ss| > 0 {
      SubjectsAreScopes(ss[0], scope);
      SubjectsOfEachAreScopes(ss[1..], scope);
    }
  }

  /**
   * A flag on a `left` part is reported against that part itself: the entry it
   * contributes, right after the entry of the binary selector's own flag, is
   * the part and not the enclosing scope.
   */
  lemma LeftSubjectIsItself(s: Selector, scope: Selector)
    requires IsBinary(s) && s.left.subject
    ensures var own := if s.subject then 1 else 0;
      own < |Subjects(s, scope)| && Subjects(s, scope)[own] == s.left
    ensures s.left in Subjects(s, scope)
  {
    var first := if s.subject then [scope] else [];
    var l, r := s.left, s.right;
    assert Subjects(l, l)[0] == l;
    assert Subjects(s, scope) == first + (Subjects(l, l) + Subjects(r, scope)) by {
      match s {
        case Child(_, _, _) =>
        case Descendant(_, _, _) =>
        case Sibling(_, _, _) =>
        case Adjacent(_, _, _) =>
      }
    }
    InMiddle(first, Subjects(l, l), Subjects(r, scope));
  }

  /** The head of the middle part of a concatenation sits right after the first part. */
  lemma InMiddle<T>(a: seq<T>, b: seq<T>, c: seq<T>)
    requires |b| > 0
    ensures |a| < |a + (b + c)| && (a + (b + c))[|a|] == b[0]
    ensures b[0] in a + (b + c)
  {
    assert (a + (b + c))[|a|] == b[0];
  }

  /**
   * The sub-selectors `for (p in selector)` descends into, in property order:
   * the members of a list, `left` then `right`, or `right` alone.
   */
  function Children(s: Selector): (r: seq<Selector>)
    ensures forall i :: 0 <= i < |r| ==> r[i] < s
    ensures IsBinary(s) ==> r == [s.left, s.right]
  {
    match s
    case AnyOf(ss, _) => ss
    case Compound(ss, _) => ss
    case Not(ss, _) => ss
    case Child(l, r, _) => [l, r]
    case Descendant(l, r, _) => [l, r]
    case Sibling(l, r, _) => [l, r]
    case Adjacent(l, r, _) => [l, r]
    case NthChild(_, r, _) => [r]
    case NthLastChild(_, r, _) => [r]
    case _ => []
  }

  /** The scope child `k` is walked with: a `left` part is its own scope, any other child inherits `scope`. */
  function ChildScope(s: Selector, scope: Selector, k: nat): Selector
    requires k < |Children(s)|
  {
    if IsBinary(s) && k == 0 then Children(s)[0] else scope
  }

  /** `p` is a position in `s`: a path of child indices, each within range. */
  ghost predicate IsPosition(s: Selector, p: seq<nat>)
    decreases s
  {
    |p| == 0 || (p[0] < |Children(s)| && IsPosition(Children(s)[p[0]], p[1..]))
  }

  /** The sub-selector at position `p`. */
  ghost function At(s: Selector, p: seq<nat>): Selector
    requires IsPosition(s, p)
    decreases s
  {
    if |p| == 0 then s else At(Children(s)[p[0]], p[1..])
  }

  /**
   * The scope of the sub-selector at position `p` when the walk starts with
   * `scope`: walking down from the top, every step into a `left` part makes
   * that part the scope, and every other step keeps it.  (Past the end of a
   * position that is not one, the scope stays as it is.)
   */
  ghost function ScopeAt(s: Selector, scope: Selector, p: seq<nat>): Selector
    decreases s
  {
    if |p| == 0 || p[0] >= |Children(s)| then scope
    else ScopeAt(Children(s)[p[0]], ChildScope(s, scope, p[0]), p[1..])
  }

  /** Positions under child `k`: each position of the child with `k` in front. */
  ghost function Prefixed(k: nat, ps: seq<seq<nat>>): (r: seq<seq<nat>>)
    ensures |r| == |ps|
    ensures forall i :: 0 <= i < |ps| ==> r[i] == [k] + ps[i]
  {
    if |ps| == 0 then [] else [[k] + ps[0]] + Prefixed(k, ps[1..])
  }

  /** The positions of the flagged sub-selectors of `s`, in pre-order. */
  ghost function FlaggedPositions(s: Selector): seq<seq<nat>>
    decreases s, 1
  {
    (if s.subject then [[]] else []) + FlaggedFrom(s, 0)
  }

  ghost function FlaggedFrom(s: Selector, k: nat): seq<seq<nat>>
    decreases s, 0, |Children(s)| - k
  {
    if k >= |Children(s)| then [] else Prefixed(k, FlaggedPositions(Children(s)[k])) + FlaggedFrom(s, k + 1)
  }

  /** The scopes of a list of positions, in order. */
  ghost function ScopesAt(s: Selector, scope: Selector, ps: seq<seq<nat>>): (r: seq<Selector>)
    ensures |r| == |ps|
    ensures forall i :: 0 <= i < |ps| ==> r[i] == ScopeAt(s, scope, ps[i])
  {
    if |ps| == 0 then [] else [ScopeAt(s, scope, ps[0])] + ScopesAt(s, scope, ps[1..])
  }

  /** `subjects` by children, in the order `for (p in selector)` visits them, from child `k` on. */
  function SubjectsFrom(s: Selector, scope: Selector, k: nat): seq<Selector>
    decreases s, 0, |Children(s)| - k
  {
    if k >= |Children(s)| then []
    else Subjects(Children(s)[k], ChildScope(s, scope, k)) + SubjectsFrom(s, scope, k + 1)
  }

  /** `subjects` walks the children in order, each with its own scope. */
  lemma SubjectsByChildren(s: Selector, scope: Selector)
    ensures Subjects(s, scope) == (if s.subject then [scope] else []) + SubjectsFrom(s, scope, 0)
  {
    match s
    case AnyOf(ss, _) =>
      SubjectsOfEachFrom(s, scope, 0);
      assert ss[0..] == ss;
    case Compound(ss, _) =>
      SubjectsOfEachFrom(s, scope, 0);
      assert ss[0..] == ss;
    case Not(ss, _) =>
      SubjectsOfEachFrom(s, scope, 0);
      assert ss[0..] == ss;
    case Child(l, r, _) => BinaryByChildren(s, scope);
    case Descendant(l, r, _) => BinaryByChildren(s, scope);
    case Sibling(l, r, _) => BinaryByChildren(s, scope);
    case Adjacent(l, r, _) => BinaryByChildren(s, scope);
    case NthChild(_, r, _) =>
      assert SubjectsFrom(s, scope, 1) == [];
      assert SubjectsFrom(s, scope, 0) == Subjects(r, scope) + [];
    case NthLastChild(_, r, _) =>
      assert SubjectsFrom(s, scope, 1) == [];
      assert SubjectsFrom(s, scope, 0) == Subjects(r, scope) + [];
    case _ =>
  }

  lemma BinaryByChildren(s: Selector, scope: Selector)
    requires IsBinary(s)
    ensures SubjectsFrom(s, scope, 0) == Subjects(s.left, s.left) + Subjects(s.right, scope)
  {
    assert SubjectsFrom(s, scope, 2) == [];
    assert SubjectsFrom(s, scope, 1) == Subjects(s.right, scope) + [];
  }

  lemma {:induction false} SubjectsOfEachFrom(s: Selector, scope: Selector, k: nat)
    requires s.AnyOf? || s.Compound? || s.Not?
    requires k <= |s.selectors|
    ensures SubjectsOfEach(s.selectors[k..], scope) == SubjectsFrom(s, scope, k)
    decreases |s.selectors| - k
  {
    var ss := s.selectors;
    assert Children(s) == ss;
    if k < |ss| {
      SubjectsOfEachFrom(s, scope, k + 1);
      assert ss[k..][0] == ss[k] && ss[k..][1..] == ss[k + 1..];
    } else {
      assert ss[k..] == [];
    }
  }

  lemma ScopesAtAppend(s: Selector, scope: Selector, a: seq<seq<nat>>, b: seq<seq<nat>>)
    ensures ScopesAt(s, scope, a + b) == ScopesAt(s, scope, a) + ScopesAt(s, scope, b)
  {
    var r := ScopesAt(s, scope, a + b);
    var ra, rb := ScopesAt(s, scope, a), ScopesAt(s, scope, b);
    forall i | 0 <= i < |r|
      ensures r[i] == (ra + rb)[i]
    {
      if i < |a| { assert (a + b)[i] == a[i]; } else { assert (a + b)[i] == b[i - |a|]; }
    }
  }

  /** The scope at `[k] + p` is the scope at `p` inside child `k`, walked with that child's scope. */
  lemma ScopesAtPrefixed(s: Selector, scope: Selector, k: nat, ps: seq<seq<nat>>)
    requires k < |Children(s)|
    ensures ScopesAt(s, scope, Prefixed(k, ps)) == ScopesAt(Children(s)[k], ChildScope(s, scope, k), ps)
  {
    forall i | 0 <= i < |ps|
      ensures ScopeAt(s, scope, Prefixed(k, ps)[i]) == ScopeAt(Children(s)[k], ChildScope(s, scope, k), ps[i])
    {
      var p := [k] + ps[i];
      assert p[0] == k && p[1..] == ps[i];
    }
  }

  /**
   * `subjects(s, scope)` is, in pre-order, the scope of each flagged
   * sub-selector: its nearest enclosing `left` part, or `scope` when it has
   * none.  So there is exactly one entry per flag.
   */
  lemma {:induction false} SubjectsAreScopesOfFlags(s: Selector, scope: Selector)
    ensures Subjects(s, scope) == ScopesAt(s, scope, FlaggedPositions(s))
    decreases s, 1
  {
    var own: seq<seq<nat>> := if s.subject then [[]] else [];
    SubjectsByChildren(s, scope);
    SubjectsFromAreScopesOfFlags(s, scope, 0);
    ScopesAtAppend(s, scope, own, FlaggedFrom(s, 0));
    assert ScopesAt(s, scope, own) == if s.subject then [scope] else [];
  }

  lemma {:induction false} SubjectsFromAreScopesOfFlags(s: Selector, scope: Selector, k: nat)
    ensures SubjectsFrom(s, scope, k) == ScopesAt(s, scope, FlaggedFrom(s, k))
    decreases s, 0, |Children(s)| - k
  {
    if k < |Children(s)| {
      var c := Children(s)[k];
      SubjectsAreScopesOfFlags(c, ChildScope(s, scope, k));
      ScopesAtPrefixed(s, scope, k, FlaggedPositions(c));
      SubjectsFromAreScopesOfFlags(s, scope, k + 1);
      ScopesAtAppend(s, scope, Prefixed(k, FlaggedPositions(c)), FlaggedFrom(s, k + 1));
    }
  }

  /** Every listed position is a position of `s` and the sub-selector there is flagged. */
  lemma {:induction false} FlaggedPositionsAreFlags(s: Selector)
    ensures forall p :: p in FlaggedPositions(s) ==> IsPosition(s, p) && At(s, p).subject
    decreases s, 1
  {
    FlaggedFromAreFlags(s, 0);
  }

  lemma {:induction false} FlaggedFromAreFlags(s: Selector, k: nat)
    ensures forall p :: p in FlaggedFrom(s, k) ==> IsPosition(s, p) && At(s, p).subject
    decreases s, 0, |Children(s)| - k
  {
    if k < |Children(s)| {
      var c := Children(s)[k];
      var ps := FlaggedPositions(c);
      FlaggedPositionsAreFlags(c);
      FlaggedFromAreFlags(s, k + 1);
      forall p | p in Prefixed(k, ps)
        ensures IsPosition(s, p) && At(s, p).subject
      {
        var i :| 0 <= i < |ps| && Prefixed(k, ps)[i] == p;
        assert p[0] == k && p[1..] == ps[i];
      }
    }
  }

  /** Each flag is listed once: there are as many flagged positions as flags. */
  lemma {:induction false} FlaggedPositionsCount(s: Selector)
    ensures |FlaggedPositions(s)| == FlagCount(s)
  {
    SubjectsAreScopesOfFlags(s, s);
    SubjectsCount(s, s);
  }

  /**
   * Walking one step down from position `q`: into a `left` part, that part
   * becomes the scope; into any other child, the scope is unchanged.
   */
  lemma {:induction false} ScopeAtStep(s: Selector, scope: Selector, q: seq<nat>, k: nat)
    requires IsPosition(s, q) && k < |Children(At(s, q))|
    ensures IsPosition(s, q + [k]) && At(s, q + [k]) == Children(At(s, q))[k]
    ensures ScopeAt(s, scope, q + [k]) == ChildScope(At(s, q), ScopeAt(s, scope, q), k)
    decreases |q|
  {
    if |q| == 0 {
      assert q + [k] == [k];
      assert [k][1..] == [];
    } else {
      assert (q + [k])[0] == q[0] && (q + [k])[1..] == q[1..] + [k];
      ScopeAtStep(Children(s)[q[0]], ChildScope(s, scope, q[0]), q[1..], k);
    }
  }
}
