/**
 * What the matcher promises, selector kind by selector kind, stated against
 * quantified definitions independent of the loops that compute it.
 */
module MatcherFacts {
  import opened Strings
  import opened Tree
  import opened Paths
  import opened Selectors
  import opened Matcher

  /** An absent selector matches every node; a present one never matches an absent node. */
  lemma EntryOnAbsence(h: Host, node: Option<Node>, s: Option<Selector>, anc: seq<Node>)
    ensures s.None? ==> MatchesEntry(h, node, s, anc)
    ensures s.Some? && node.None? ==> !MatchesEntry(h, node, s, anc)
    ensures s.Some? && node.Some? ==> (MatchesEntry(h, node, s, anc) <==> Matches(h, node.value, s.value, anc))
  {
  }

  lemma {:induction false} SomeMatchesExists(h: Host, node: Node, ss: seq<Selector>, anc: seq<Node>)
    ensures SomeMatches(h, node, ss, anc) <==> exists i :: 0 <= i < |ss| && Matches(h, node, ss[i], anc)
    decreases |ss|
  {
    if |ss| > 0 {
      SomeMatchesExists(h, node, ss[1..], anc);
      assert forall i :: 1 <= i < |ss| ==> ss[1..][i - 1] == ss[i];
    }
  }

  lemma {:induction false} AllMatchForall(h: Host, node: Node, ss: seq<Selector>, anc: seq<Node>)
    ensures AllMatch(h, node, ss, anc) <==> forall i :: 0 <= i < |ss| ==> Matches(h, node, ss[i], anc)
    decreases |ss|
  {
    if |ss| > 0 {
      AllMatchForall(h, node, ss[1..], anc);
      assert forall i :: 1 <= i < |ss| ==> ss[1..][i - 1] == ss[i];
    }
  }

  /**
   * `:matches` is disjunction, compound selectors are conjunction and `:not`
   * holds when none of its selectors match; over no selectors they give
   * false, true and true.
   */
  lemma BooleanCombinators(h: Host, node: Node, ss: seq<Selector>, flag: bool, anc: seq<Node>)
    ensures Matches(h, node, AnyOf(ss, flag), anc) <==>
            exists i :: 0 <= i < |ss| && Matches(h, node, ss[i], anc)
    ensures Matches(h, node, Compound(ss, flag), anc) <==>
            forall i :: 0 <= i < |ss| ==> Matches(h, node, ss[i], anc)
    ensures Matches(h, node, Not(ss, flag), anc) <==>
            forall i :: 0 <= i < |ss| ==> !Matches(h, node, ss[i], anc)
    ensures |ss| == 0 ==>
            !Matches(h, node, AnyOf(ss, flag), anc) && Matches(h, node, Compound(ss, flag), anc) &&
            Matches(h, node, Not(ss, flag), anc)
  {
    SomeMatchesExists(h, node, ss, anc);
    AllMatchForall(h, node, ss, anc);
  }

  lemma {:induction false} AncestorMatchesFromExists(h: Host, l: Selector, anc: seq<Node>, i: nat)
    requires i <= |anc|
    ensures AncestorMatchesFrom(h, l, anc, i) <==>
            exists j :: i <= j < |anc| && Matches(h, anc[j], l, anc[j + 1..])
    decreases |anc| - i
  {
    if i < |anc| {
      AncestorMatchesFromExists(h, l, anc, i + 1);
    }
  }

  /**
   * A child selector needs the parent (`ancestry[0]`, under the rest of the
   * ancestry) to match `left`; a descendant selector needs some ancestor to.
   * With no ancestors neither matches.
   */
  lemma StructuralCombinators(h: Host, node: Node, l: Selector, r: Selector, flag: bool, anc: seq<Node>)
    ensures Matches(h, node, Child(l, r, flag), anc) <==>
            Matches(h, node, r, anc) && |anc| > 0 && Matches(h, anc[0], l, anc[1..])
    ensures Matches(h, node, Descendant(l, r, flag), anc) <==>
            Matches(h, node, r, anc) && exists i :: 0 <= i < |anc| && Matches(h, anc[i], l, anc[i + 1..])
    ensures |anc| == 0 ==> !Matches(h, node, Child(l, r, flag), anc) && !Matches(h, node, Descendant(l, r, flag), anc)
  {
    AncestorMatchesFromExists(h, l, anc, 0);
  }

  /**
   * A field selector with `k` dotted segments starts at `ancestry[k - 1]` and
   * holds exactly when the node is among the nodes its path reaches from there;
   * with fewer than `k` ancestors it fails.
   */
  lemma FieldSelector(h: Host, node: Node, name: string, flag: bool, anc: seq<Node>)
    ensures var path := Split(name);
            Matches(h, node, Field(name, flag), anc) <==>
            |path| <= |anc| && exists x :: x in Reached(NodeV(anc[|path| - 1]), path) && SameNode(x, node)
    ensures |Split(name)| > |anc| ==> !Matches(h, node, Field(name, flag), anc)
  {
    var path := Split(name);
    if |path| <= |anc| {
      InPathReached(node, NodeV(anc[|path| - 1]), path);
    }
  }

  /** Identifier selectors compare type tags without regard to letter case. */
  lemma IdentifierIgnoresCase(h: Host, node: Node, value: string, flag: bool, anc: seq<Node>)
    ensures Matches(h, node, Identifier(value, flag), anc) <==>
            Matches(h, node, Identifier(LowerCase(value), flag), anc)
    ensures Matches(h, node, Identifier(node.kind, flag), anc)
  {
    LowerCaseIdempotent(value);
  }

  /**
   * `[name]` holds exactly when the value at the path is present, and for
   * every operand kind `!=` is the negation of `=`.
   */
  lemma AttributeOperators(h: Host, node: Node, name: string, o: Operand, flag: bool, anc: seq<Node>)
    ensures Matches(h, node, Attribute(name, Exists, flag), anc) <==>
            !IsNullish(GetPath(NodeV(node), Split(name)))
    ensures Matches(h, node, Attribute(name, Neq(o), flag), anc) <==>
            !Matches(h, node, Attribute(name, Eq(o), flag), anc)
  {
  }

  /** A numeric literal equals a numeric attribute value exactly when the numbers are equal. */
  lemma NumericLiteralEquality(h: Host, node: Node, name: string, i: int, j: int, flag: bool, anc: seq<Node>)
    requires GetPath(NodeV(node), Split(name)) == Num(j)
    ensures Matches(h, node, Attribute(name, Eq(Literal(LNum(i))), flag), anc) <==> i == j
  {
    if Matches(h, node, Attribute(name, Eq(Literal(LNum(i))), flag), anc) {
      IntToStringInjective(i, j);
    }
  }

  /**
   * For two numbers or two strings, exactly one of `<`, equality and `>` holds
   * between the attribute value and the bound, and `<=`, `>=` are `<`, `>` or equality.
   */
  lemma RelationalOperators(h: Host, node: Node, name: string, b: Lit, flag: bool, anc: seq<Node>)
    requires var p := GetPath(NodeV(node), Split(name));
             (p.Num? && b.LNum?) || (p.Str? && b.LStr?)
    ensures var p := GetPath(NodeV(node), Split(name));
            var lt := Matches(h, node, Attribute(name, Rel(Lt, b), flag), anc);
            var gt := Matches(h, node, Attribute(name, Rel(Gt, b), flag), anc);
            (lt || gt || p == LitValue(b)) && !(lt && gt) && !(lt && p == LitValue(b)) && !(gt && p == LitValue(b)) &&
            (Matches(h, node, Attribute(name, Rel(Le, b), flag), anc) <==> lt || p == LitValue(b)) &&
            (Matches(h, node, Attribute(name, Rel(Ge, b), flag), anc) <==> gt || p == LitValue(b))
  {
    var p := GetPath(NodeV(node), Split(name));
    if p.Str? {
      LexLessTrichotomy(p.s, b.s);
    }
  }

  lemma {:induction false} SiblingInListExists(h: Host, node: Node, s: Selector, anc: seq<Node>, items: seq<Node>, k: nat)
    requires k <= |items|
    ensures SiblingInList(h, node, s, anc, items, k) <==>
            exists j :: k <= j < |items| && !SameNode(items[j], node) && Matches(h, items[j], s, anc)
    decreases |items| - k
  {
    if k < |items| {
      SiblingInListExists(h, node, s, anc, items, k + 1);
    }
  }

  lemma {:induction false} SiblingInKeysExists(h: Host, node: Node, s: Selector, anc: seq<Node>, keys: seq<string>, i: nat)
    requires |anc| > 0 && i <= |keys|
    ensures SiblingInKeys(h, node, s, anc, keys, i) <==>
            exists a, j :: i <= a < |keys| && 0 <= j < |ListField(anc[0], keys[a])| &&
                           !SameNode(ListField(anc[0], keys[a])[j], node) &&
                           Matches(h, ListField(anc[0], keys[a])[j], s, anc)
    decreases |keys| - i
  {
    if i < |keys| {
      SiblingInKeysExists(h, node, s, anc, keys, i + 1);
      SiblingInListExists(h, node, s, anc, ListField(anc[0], keys[i]), 0);
    }
  }

  /**
   * `sibling` holds exactly when some element of some list-valued child field
   * of the parent, other than the node itself, matches; without a parent it
   * fails.
   */
  lemma HasSiblingSemantics(h: Host, node: Node, s: Selector, anc: seq<Node>)
    ensures HasSibling(h, node, s, anc) <==>
            |anc| > 0 &&
            var keys := h.keys(anc[0].kind);
            exists a, j :: 0 <= a < |keys| && 0 <= j < |ListField(anc[0], keys[a])| &&
                           !SameNode(ListField(anc[0], keys[a])[j], node) &&
                           Matches(h, ListField(anc[0], keys[a])[j], s, anc)
  {
    if |anc| > 0 {
      SiblingInKeysExists(h, node, s, anc, h.keys(anc[0].kind), 0);
    }
  }

  /**
   * The node's first occurrence in `list` is at `k` and a neighbour of that
   * position, `k - 1` or `k + 1`, matches `s`.
   */
  ghost predicate AdjacentMatchIn(h: Host, node: Node, s: Selector, anc: seq<Node>, list: seq<Node>)
  {
    exists k :: 0 <= k < |list| && SameNode(list[k], node) &&
                (forall j :: 0 <= j < k ==> !SameNode(list[j], node)) &&
                ((k > 0 && Matches(h, list[k - 1], s, anc)) || (k + 1 < |list| && Matches(h, list[k + 1], s, anc)))
  }

  lemma AdjacentInOneList(h: Host, node: Node, s: Selector, anc: seq<Node>, list: seq<Node>)
    ensures AdjacentInList(h, node, s, anc, list) <==> AdjacentMatchIn(h, node, s, anc, list)
  {
    if AdjacentMatchIn(h, node, s, anc, list) {
      var k :| 0 <= k < |list| && SameNode(list[k], node) &&
               (forall j :: 0 <= j < k ==> !SameNode(list[j], node)) &&
               ((k > 0 && Matches(h, list[k - 1], s, anc)) || (k + 1 < |list| && Matches(h, list[k + 1], s, anc)));
      assert IndexOf(list, node) == k;
    }
  }

  lemma NoAdjacentInEmpty(h: Host, node: Node, s: Selector, anc: seq<Node>)
    ensures !AdjacentInList(h, node, s, anc, [])
  {
    assert IndexOf([], node) == -1;
  }

  lemma {:induction false} AdjacentInKeysExists(h: Host, node: Node, s: Selector, anc: seq<Node>, keys: seq<string>, i: nat)
    requires |anc| > 0 && i <= |keys|
    ensures AdjacentInKeys(h, node, s, anc, keys, i) <==>
            exists a :: i <= a < |keys| && AdjacentInList(h, node, s, anc, ListField(anc[0], keys[a]))
    decreases |keys| - i
  {
    if i < |keys| {
      AdjacentInKeysExists(h, node, s, anc, keys, i + 1);
      var here := AdjacentInList(h, node, s, anc, ListField(anc[0], keys[i]));
      NoAdjacentInEmpty(h, node, s, anc);
      assert AdjacentInKeys(h, node, s, anc, keys, i) == (here || AdjacentInKeys(h, node, s, anc, keys, i + 1));
      if here {
        assert i <= i < |keys| && AdjacentInList(h, node, s, anc, ListField(anc[0], keys[i]));
      } else if AdjacentInKeys(h, node, s, anc, keys, i + 1) {
        var a :| i + 1 <= a < |keys| && AdjacentInList(h, node, s, anc, ListField(anc[0], keys[a]));
        assert i <= a < |keys|;
      }
      if exists a :: i <= a < |keys| && AdjacentInList(h, node, s, anc, ListField(anc[0], keys[a])) {
        var a :| i <= a < |keys| && AdjacentInList(h, node, s, anc, ListField(anc[0], keys[a]));
        assert a == i || i + 1 <= a;
      }
    }
  }

  /**
   * `adjacent` holds exactly when, in some list-valued child field of the
   * parent, a position right next to the node's own matches; nothing further
   * away is ever consulted.  Without a parent it fails.
   */
  lemma HasAdjacentSemantics(h: Host, node: Node, s: Selector, anc: seq<Node>)
    ensures HasAdjacent(h, node, s, anc) <==>
            |anc| > 0 &&
            var keys := h.keys(anc[0].kind);
            exists a :: 0 <= a < |keys| && AdjacentMatchIn(h, node, s, anc, ListField(anc[0], keys[a]))
  {
    if |anc| > 0 {
      var keys := h.keys(anc[0].kind);
      AdjacentInKeysExists(h, node, s, anc, keys, 0);
      forall a | 0 <= a < |keys|
        ensures AdjacentInList(h, node, s, anc, ListField(anc[0], keys[a])) <==>
                AdjacentMatchIn(h, node, s, anc, ListField(anc[0], keys[a]))
      {
        AdjacentInOneList(h, node, s, anc, ListField(anc[0], keys[a]));
      }
    }
  }

  /** The node's first occurrence in `list` is at the position `pos` asks for. */
  ghost predicate NthIn(node: Node, list: seq<Node>, pos: Position)
  {
    exists k :: 0 <= k < |list| && SameNode(list[k], node) &&
                (forall j :: 0 <= j < k ==> !SameNode(list[j], node)) &&
                k == Target(pos, |list|)
  }

  lemma {:induction false} NthInKeysExists(node: Node, parent: Node, keys: seq<string>, i: nat, pos: Position)
    requires i <= |keys|
    ensures NthInKeys(node, parent, keys, i, pos) <==>
            exists a :: i <= a < |keys| && NthIn(node, ListField(parent, keys[a]), pos)
    decreases |keys| - i
  {
    if i < |keys| {
      NthInKeysExists(node, parent, keys, i + 1, pos);
      var list := ListField(parent, keys[i]);
      if NthIn(node, list, pos) {
        var k :| 0 <= k < |list| && SameNode(list[k], node) &&
                 (forall j :: 0 <= j < k ==> !SameNode(list[j], node)) &&
                 k == Target(pos, |list|);
        assert IndexOf(list, node) == k;
      }
      if Member(NodeV(parent), keys[i]).ListV? && IndexOf(list, node) >= 0 {
        assert NthIn(node, list, pos) <==> IndexOf(list, node) == Target(pos, |list|);
      }
    }
  }

  /**
   * `:nth-child(n)` holds at 0-based position `n - 1` of a list-valued child
   * field of the parent and `:nth-last-child(n)` at position `length - n`;
   * without a parent neither holds.
   */
  lemma NthSelectors(h: Host, node: Node, n: int, r: Selector, flag: bool, anc: seq<Node>)
    ensures Matches(h, node, NthChild(n, r, flag), anc) <==>
            Matches(h, node, r, anc) && |anc| > 0 &&
            var keys := h.keys(anc[0].kind);
            exists a :: 0 <= a < |keys| && NthIn(node, ListField(anc[0], keys[a]), FromStart(n))
    ensures Matches(h, node, NthLastChild(n, r, flag), anc) <==>
            Matches(h, node, r, anc) && |anc| > 0 &&
            var keys := h.keys(anc[0].kind);
            exists a :: 0 <= a < |keys| && NthIn(node, ListField(anc[0], keys[a]), FromEnd(n))
  {
    if |anc| > 0 {
      NthInKeysExists(node, anc[0], h.keys(anc[0].kind), 0, FromStart(n));
      NthInKeysExists(node, anc[0], h.keys(anc[0].kind), 0, FromEnd(n));
    }
  }

  /**
   * Sibling and adjacent selectors are symmetric: one side matches the node
   * and the other a sibling, either way round.
   */
  lemma SiblingSelectors(h: Host, node: Node, l: Selector, r: Selector, flag: bool, anc: seq<Node>)
    ensures Matches(h, node, Sibling(l, r, flag), anc) == Matches(h, node, Sibling(r, l, flag), anc)
    ensures Matches(h, node, Adjacent(l, r, flag), anc) == Matches(h, node, Adjacent(r, l, flag), anc)
    ensures |anc| == 0 ==>
            !Matches(h, node, Sibling(l, r, flag), anc) && !Matches(h, node, Adjacent(l, r, flag), anc)
  {
  }

  /**
   * The `subject` flags of a selector never change whether it matches: clearing
   * all of them gives the same answer on every node and ancestry.
   */
  lemma {:induction false} MatchesIgnoresSubjects(h: Host, node: Node, s: Selector, anc: seq<Node>)
    ensures Matches(h, node, Unflag(s), anc) == Matches(h, node, s, anc)
    decreases s, 1
  {
    if s.Child? || s.Descendant? {
      AncestralIgnoresSubjects(h, node, s, anc);
    } else if s.Sibling? {
      SiblingIgnoresSubjects(h, node, s, anc);
    } else if s.Adjacent? {
      AdjacentIgnoresSubjects(h, node, s, anc);
    } else if s.AnyOf? || s.Compound? || s.Not? {
      ListIgnoresSubjects(h, node, s, anc);
    } else if s.NthChild? || s.NthLastChild? {
      NthIgnoresSubjects(h, node, s, anc);
    } else {
      SimpleIgnoresSubjects(h, node, s, anc);
    }
  }

  lemma {:induction false} SimpleIgnoresSubjects(h: Host, node: Node, s: Selector, anc: seq<Node>)
    requires s.Wildcard? || s.Identifier? || s.Field? || s.Attribute?
    ensures Matches(h, node, Unflag(s), anc) == Matches(h, node, s, anc)
  {
    match s {
      case Wildcard(_) =>
        assert Unflag(s) == Wildcard(false);
      case Identifier(v, _) =>
        assert Unflag(s) == Identifier(v, false);
      case Field(name, _) =>
        assert Unflag(s) == Field(name, false);
      case Attribute(name, op, _) =>
        assert Unflag(s) == Attribute(name, op, false);
    }
  }

  lemma {:induction false} ListIgnoresSubjects(h: Host, node: Node, s: Selector, anc: seq<Node>)
    requires s.AnyOf? || s.Compound? || s.Not?
    ensures Matches(h, node, Unflag(s), anc) == Matches(h, node, s, anc)
    decreases s, 0
  {
    match s {
      case AnyOf(ss, _) =>
        assert Unflag(s) == AnyOf(UnflagEach(ss), false);
        SomeMatchesIgnoresSubjects(h, node, ss, anc);
      case Compound(ss, _) =>
        assert Unflag(s) == Compound(UnflagEach(ss), false);
        AllMatchIgnoresSubjects(h, node, ss, anc);
      case Not(ss, _) =>
        assert Unflag(s) == Not(UnflagEach(ss), false);
        SomeMatchesIgnoresSubjects(h, node, ss, anc);
    }
  }

  lemma {:induction false} NthIgnoresSubjects(h: Host, node: Node, s: Selector, anc: seq<Node>)
    requires s.NthChild? || s.NthLastChild?
    ensures Matches(h, node, Unflag(s), anc) == Matches(h, node, s, anc)
    decreases s, 0
  {
    MatchesIgnoresSubjects(h, node, s.right, anc);
    if s.NthChild? {
      assert Unflag(s) == NthChild(s.index, Unflag(s.right), false);
    } else {
      assert Unflag(s) == NthLastChild(s.index, Unflag(s.right), false);
    }
  }

  lemma {:induction false} AncestralIgnoresSubjects(h: Host, node: Node, s: Selector, anc: seq<Node>)
    requires s.Child? || s.Descendant?
    ensures Matches(h, node, Unflag(s), anc) == Matches(h, node, s, anc)
    decreases s, 0
  {
    MatchesIgnoresSubjects(h, node, s.right, anc);
    if s.Child? {
      assert Unflag(s) == Child(Unflag(s.left), Unflag(s.right), false);
      if |anc| > 0 { MatchesIgnoresSubjects(h, anc[0], s.left, anc[1..]); }
    } else {
      assert Unflag(s) == Descendant(Unflag(s.left), Unflag(s.right), false);
      AncestorMatchesIgnoresSubjects(h, s.left, anc, 0);
    }
  }

  lemma {:induction false} SiblingIgnoresSubjects(h: Host, node: Node, s: Selector, anc: seq<Node>)
    requires s.Sibling?
    ensures Matches(h, node, Unflag(s), anc) == Matches(h, node, s, anc)
    decreases s, 0
  {
    assert Unflag(s) == Sibling(Unflag(s.left), Unflag(s.right), false);
    MatchesIgnoresSubjects(h, node, s.left, anc);
    MatchesIgnoresSubjects(h, node, s.right, anc);
    HasSiblingIgnoresSubjects(h, node, s.left, anc);
    HasSiblingIgnoresSubjects(h, node, s.right, anc);
  }

  lemma {:induction false} AdjacentIgnoresSubjects(h: Host, node: Node, s: Selector, anc: seq<Node>)
    requires s.Adjacent?
    ensures Matches(h, node, Unflag(s), anc) == Matches(h, node, s, anc)
    decreases s, 0
  {
    assert Unflag(s) == Adjacent(Unflag(s.left), Unflag(s.right), false);
    MatchesIgnoresSubjects(h, node, s.left, anc);
    MatchesIgnoresSubjects(h, node, s.right, anc);
    HasAdjacentIgnoresSubjects(h, node, s.left, anc);
    HasAdjacentIgnoresSubjects(h, node, s.right, anc);
  }

  lemma {:induction false} SomeMatchesIgnoresSubjects(h: Host, node: Node, ss: seq<Selector>, anc: seq<Node>)
    ensures SomeMatches(h, node, UnflagEach(ss), anc) == SomeMatches(h, node, ss, anc)
    decreases ss, 1
  {
    if |ss| > 0 {
      assert UnflagEach(ss)[0] == Unflag(ss[0]) && UnflagEach(ss)[1..] == UnflagEach(ss[1..]);
      MatchesIgnoresSubjects(h, node, ss[0], anc);
      SomeMatchesIgnoresSubjects(h, node, ss[1..], anc);
    }
  }

  lemma {:induction false} AllMatchIgnoresSubjects(h: Host, node: Node, ss: seq<Selector>, anc: seq<Node>)
    ensures AllMatch(h, node, UnflagEach(ss), anc) == AllMatch(h, node, ss, anc)
    decreases ss, 1
  {
    if |ss| > 0 {
      assert UnflagEach(ss)[0] == Unflag(ss[0]) && UnflagEach(ss)[1..] == UnflagEach(ss[1..]);
      MatchesIgnoresSubjects(h, node, ss[0], anc);
      AllMatchIgnoresSubjects(h, node, ss[1..], anc);
    }
  }

  lemma {:induction false} AncestorMatchesIgnoresSubjects(h: Host, l: Selector, anc: seq<Node>, i: nat)
    ensures AncestorMatchesFrom(h, Unflag(l), anc, i) == AncestorMatchesFrom(h, l, anc, i)
    decreases l, 2, |anc| - i
  {
    if i < |anc| {
      MatchesIgnoresSubjects(h, anc[i], l, anc[i + 1..]);
      AncestorMatchesIgnoresSubjects(h, l, anc, i + 1);
    }
  }

  lemma HasSiblingIgnoresSubjects(h: Host, node: Node, s: Selector, anc: seq<Node>)
    ensures HasSibling(h, node, Unflag(s), anc) == HasSibling(h, node, s, anc)
    decreases s, 4
  {
    if |anc| > 0 {
      SiblingInKeysIgnoresSubjects(h, node, s, anc, h.keys(anc[0].kind), 0);
    }
  }

  lemma {:induction false} SiblingInKeysIgnoresSubjects(h: Host, node: Node, s: Selector, anc: seq<Node>, keys: seq<string>, i: nat)
    requires |anc| > 0
    ensures SiblingInKeys(h, node, Unflag(s), anc, keys, i) == SiblingInKeys(h, node, s, anc, keys, i)
    decreases s, 3, |keys| - i
  {
    if i < |keys| {
      var field := Member(NodeV(anc[0]), keys[i]);
      if field.ListV? {
        SiblingInListIgnoresSubjects(h, node, s, anc, field.items, 0);
      }
      SiblingInKeysIgnoresSubjects(h, node, s, anc, keys, i + 1);
    }
  }

  lemma {:induction false} SiblingInListIgnoresSubjects(h: Host, node: Node, s: Selector, anc: seq<Node>, items: seq<Node>, k: nat)
    ensures SiblingInList(h, node, Unflag(s), anc, items, k) == SiblingInList(h, node, s, anc, items, k)
    decreases s, 2, |items| - k
  {
    if k < |items| {
      MatchesIgnoresSubjects(h, items[k], s, anc);
      SiblingInListIgnoresSubjects(h, node, s, anc, items, k + 1);
    }
  }

  lemma HasAdjacentIgnoresSubjects(h: Host, node: Node, s: Selector, anc: seq<Node>)
    ensures HasAdjacent(h, node, Unflag(s), anc) == HasAdjacent(h, node, s, anc)
    decreases s, 4
  {
    if |anc| > 0 {
      AdjacentInKeysIgnoresSubjects(h, node, s, anc, h.keys(anc[0].kind), 0);
    }
  }

  lemma {:induction false} AdjacentInKeysIgnoresSubjects(h: Host, node: Node, s: Selector, anc: seq<Node>, keys: seq<string>, i: nat)
    requires |anc| > 0
    ensures AdjacentInKeys(h, node, Unflag(s), anc, keys, i) == AdjacentInKeys(h, node, s, anc, keys, i)
    decreases s, 3, |keys| - i
  {
    if i < |keys| {
      var field := Member(NodeV(anc[0]), keys[i]);
      if field.ListV? {
        AdjacentInListIgnoresSubjects(h, node, s, anc, field.items);
      }
      AdjacentInKeysIgnoresSubjects(h, node, s, anc, keys, i + 1);
    }
  }

  lemma AdjacentInListIgnoresSubjects(h: Host, node: Node, s: Selector, anc: seq<Node>, list: seq<Node>)
    ensures AdjacentInList(h, node, Unflag(s), anc, list) == AdjacentInList(h, node, s, anc, list)
    decreases s, 2
  {
    var idx := IndexOf(list, node);
    var before := idx > 0 && Matches(h, list[idx - 1], s, anc);
    var after := 0 <= idx < |list| - 1 && Matches(h, list[idx + 1], s, anc);
    if idx > 0 { MatchesIgnoresSubjects(h, list[idx - 1], s, anc); }
    if 0 <= idx < |list| - 1 { MatchesIgnoresSubjects(h, list[idx + 1], s, anc); }
    assert AdjacentInList(h, node, s, anc, list) == (idx >= 0 && (before || after));
  }
}
