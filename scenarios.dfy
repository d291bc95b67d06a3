/**
 * Small concrete trees and selectors, and what the engine answers on them.
 * Every node type has one child field, `body`.
 */
module Scenarios {
  import opened Strings
  import opened Tree
  import opened Paths
  import opened Selectors
  import opened Matcher
  import opened Driver

  function Schema(kind: string): seq<string>
  {
    ["body"]
  }

  /** A host with the one-field schema; regular expressions and mixed comparisons never hold. */
  function TestHost(): Host
  {
    Host(Schema, (pattern: string, text: string) => false, (r: RelOp, v: Value, b: Lit) => false)
  }

  function Is(kind: string): Selector
  {
    Identifier(kind, false)
  }

  function Leaf(id: nat, kind: string): Node
  {
    Node(id, kind, map[])
  }

  function Parent(id: nat, kind: string, child: Node): Node
  {
    Node(id, kind, map["body" := NodeV(child)])
  }

  /** `A B` matches the `B` of `A -> C -> B`, and not a lone `B`. */
  lemma DescendantExample()
    ensures var b := Leaf(3, "B"); var c := Parent(2, "C", b); var a := Parent(1, "A", c);
            Matches(TestHost(), b, Descendant(Is("A"), Is("B"), false), [c, a]) &&
            !Matches(TestHost(), b, Descendant(Is("A"), Is("B"), false), [])
  {
    var b := Leaf(3, "B");
    var c := Parent(2, "C", b);
    var a := Parent(1, "A", c);
    var anc := [c, a];
    assert anc[1] == a && anc[2..] == [];
    assert AncestorMatchesFrom(TestHost(), Is("A"), anc, 1);
  }

  /** `A > B` matches the `B` of `A -> B`, and not the `B` of `A -> C -> B`. */
  lemma ChildExample()
    ensures var b := Leaf(3, "B"); var c := Parent(2, "C", b); var a := Parent(1, "A", c);
            !Matches(TestHost(), b, Child(Is("A"), Is("B"), false), [c, a])
    ensures var b := Leaf(5, "B"); var a := Parent(4, "A", b);
            Matches(TestHost(), b, Child(Is("A"), Is("B"), false), [a])
  {
  }

  /** The list `[X, Y, Z]`. */
  function RowItems(): seq<Node>
  {
    [Leaf(11, "X"), Leaf(12, "Y"), Leaf(13, "Z")]
  }

  /** The parent of the list `[X, Y, Z]`. */
  function Row(): Node
  {
    Node(10, "P", map["body" := ListV(RowItems())])
  }

  lemma RowPositions()
    ensures IndexOf(RowItems(), Leaf(11, "X")) == 0
    ensures IndexOf(RowItems(), Leaf(12, "Y")) == 1
    ensures IndexOf(RowItems(), Leaf(13, "Z")) == 2
  {
  }

  /** Under `Row()`, the only list to look in is `RowItems()`. */
  lemma RowLists(node: Node, s: Selector, pos: Position)
    ensures HasAdjacent(TestHost(), node, s, [Row()]) == AdjacentInList(TestHost(), node, s, [Row()], RowItems())
    ensures IsNthChild(TestHost(), node, [Row()], pos) ==
            (IndexOf(RowItems(), node) >= 0 && IndexOf(RowItems(), node) == Target(pos, 3))
  {
    assert Member(NodeV(Row()), "body") == ListV(RowItems());
    assert !AdjacentInKeys(TestHost(), node, s, [Row()], ["body"], 1);
    assert !NthInKeys(node, Row(), ["body"], 1, pos);
  }

  /** `:nth-child(1)` is `X` and `:nth-last-child(1)` is `Z`. */
  lemma NthExample()
    ensures Matches(TestHost(), Leaf(11, "X"), NthChild(1, Wildcard(false), false), [Row()])
    ensures !Matches(TestHost(), Leaf(12, "Y"), NthChild(1, Wildcard(false), false), [Row()])
    ensures Matches(TestHost(), Leaf(13, "Z"), NthLastChild(1, Wildcard(false), false), [Row()])
    ensures !Matches(TestHost(), Leaf(11, "X"), NthLastChild(1, Wildcard(false), false), [Row()])
  {
    RowPositions();
    RowLists(Leaf(11, "X"), Wildcard(false), FromStart(1));
    RowLists(Leaf(12, "Y"), Wildcard(false), FromStart(1));
    RowLists(Leaf(13, "Z"), Wildcard(false), FromEnd(1));
    RowLists(Leaf(11, "X"), Wildcard(false), FromEnd(1));
  }

  /**
   * `X + *` holds for `Y` (its predecessor is an `X`) and not for `Z`; it also
   * holds for `X` itself, because either side may be the one that precedes.
   */
  lemma AdjacentExample()
    ensures Matches(TestHost(), Leaf(12, "Y"), Adjacent(Is("X"), Wildcard(false), false), [Row()])
    ensures !Matches(TestHost(), Leaf(13, "Z"), Adjacent(Is("X"), Wildcard(false), false), [Row()])
    ensures Matches(TestHost(), Leaf(11, "X"), Adjacent(Is("X"), Wildcard(false), false), [Row()])
  {
    RowPositions();
    RowLists(Leaf(12, "Y"), Is("X"), FromStart(1));
    RowLists(Leaf(13, "Z"), Is("X"), FromStart(1));
    RowLists(Leaf(11, "X"), Wildcard(false), FromStart(1));
    assert Matches(TestHost(), RowItems()[0], Is("X"), [Row()]);
    assert !Matches(TestHost(), RowItems()[1], Is("X"), [Row()]);
    assert !Matches(TestHost(), Leaf(13, "Z"), Is("X"), [Row()]);
    assert Matches(TestHost(), RowItems()[1], Wildcard(false), [Row()]);
  }

  /** The walk of `A -> B`: the `A` with no ancestry, then the `B` under the `A`. */
  lemma PairVisits()
    ensures var b := Leaf(5, "B"); var a := Parent(4, "A", b);
            VisitNode(Schema, a, []) == [Visit(a, []), Visit(b, [a])]
  {
    var b := Leaf(5, "B");
    var a := Parent(4, "A", b);
    assert Schema(a.kind) == ["body"] && Schema(b.kind) == ["body"];
    assert VisitNode(Schema, b, [a]) == [Visit(b, [a])] by {
      assert VisitKeys(Schema, b, ["body"], 0, [b, a]) == [];
    }
    assert VisitKeys(Schema, a, ["body"], 0, [a]) == [Visit(b, [a])] by {
      assert Member(NodeV(a), "body") == NodeV(b);
      assert VisitKeys(Schema, a, ["body"], 1, [a]) == [];
    }
    assert [a] + [] == [a];
    assert VisitNode(Schema, a, []) == [Visit(a, [])] + VisitKeys(Schema, a, Schema(a.kind), 0, [a]);
  }

  /** Under `A! > B`, the `A` reports nothing and the `B` reports the `A`. */
  lemma PairReports()
    ensures var b := Leaf(5, "B"); var a := Parent(4, "A", b);
            var report := ReportOf(TestHost(), Child(Identifier("A", true), Is("B"), false));
            report(Visit(a, [])) == [] && report(Visit(b, [a])) == [a]
  {
    var b := Leaf(5, "B");
    var a := Parent(4, "A", b);
    var sel := Child(Identifier("A", true), Is("B"), false);
    assert AltSubjects(sel) == [Identifier("A", true)];
    assert Matches(TestHost(), b, sel, [a]);
    assert SubjectHits(TestHost(), [Identifier("A", true)], 1, b, [a]) == [];
    assert AncestorHits(TestHost(), Identifier("A", true), [a], 0) == [a];
  }

  /** `A! > B` on `A -> B` reports the `A`, not the `B` that satisfied the whole selector. */
  lemma SubjectExample()
    ensures var b := Leaf(5, "B"); var a := Parent(4, "A", b);
            MatchSpec(TestHost(), a, Some(Child(Identifier("A", true), Is("B"), false))) == [a]
  {
    var b := Leaf(5, "B");
    var a := Parent(4, "A", b);
    var visits := [Visit(a, []), Visit(b, [a])];
    PairVisits();
    PairReports();
    assert visits[1..] == [Visit(b, [a])] && visits[1..][1..] == [];
  }

  /** `A` holding the list `[B, B]`. */
  function Fork(): Node
  {
    Node(4, "A", map["body" := ListV([Leaf(5, "B"), Leaf(6, "B")])])
  }

  /** The walk of `Fork()`: the `A`, then each `B` with the `A` as its ancestry. */
  lemma ForkVisits()
    ensures VisitNode(Schema, Fork(), []) == [Visit(Fork(), []), Visit(Leaf(5, "B"), [Fork()]), Visit(Leaf(6, "B"), [Fork()])]
  {
    var b1, b2, a := Leaf(5, "B"), Leaf(6, "B"), Fork();
    assert Schema(a.kind) == ["body"] && Schema(b1.kind) == ["body"];
    assert VisitNode(Schema, b1, [a]) == [Visit(b1, [a])] by {
      assert VisitKeys(Schema, b1, ["body"], 0, [b1, a]) == [];
    }
    assert VisitNode(Schema, b2, [a]) == [Visit(b2, [a])] by {
      assert VisitKeys(Schema, b2, ["body"], 0, [b2, a]) == [];
    }
    assert VisitItems(Schema, a, [b1, b2], 0, [a]) == [Visit(b1, [a]), Visit(b2, [a])] by {
      assert VisitItems(Schema, a, [b1, b2], 2, [a]) == [];
      assert VisitItems(Schema, a, [b1, b2], 1, [a]) == [Visit(b2, [a])];
    }
    assert VisitKeys(Schema, a, ["body"], 0, [a]) == [Visit(b1, [a]), Visit(b2, [a])] by {
      assert Member(NodeV(a), "body") == ListV([b1, b2]);
      assert VisitKeys(Schema, a, ["body"], 1, [a]) == [];
    }
    assert [a] + [] == [a];
    assert VisitNode(Schema, a, []) == [Visit(a, [])] + VisitKeys(Schema, a, Schema(a.kind), 0, [a]);
  }

  /** Under `A! > B`, each `B` of `Fork()` reports the `A`. */
  lemma ForkReports(b: Node)
    requires b == Leaf(5, "B") || b == Leaf(6, "B")
    ensures ReportOf(TestHost(), Child(Identifier("A", true), Is("B"), false))(Visit(b, [Fork()])) == [Fork()]
  {
    var a := Fork();
    var sel := Child(Identifier("A", true), Is("B"), false);
    assert AltSubjects(sel) == [Identifier("A", true)];
    assert AncestorHits(TestHost(), Identifier("A", true), [a], 0) == [a];
    assert SubjectHits(TestHost(), [Identifier("A", true)], 1, b, [a]) == [];
    assert Matches(TestHost(), b, sel, [a]);
  }

  lemma ForkReportAll()
    ensures ReportAll(ReportOf(TestHost(), Child(Identifier("A", true), Is("B"), false)),
                      [Visit(Leaf(5, "B"), [Fork()]), Visit(Leaf(6, "B"), [Fork()])]) == [Fork(), Fork()]
  {
    var rest := [Visit(Leaf(5, "B"), [Fork()]), Visit(Leaf(6, "B"), [Fork()])];
    ForkReports(Leaf(5, "B"));
    ForkReports(Leaf(6, "B"));
    assert rest[1..] == [Visit(Leaf(6, "B"), [Fork()])];
    assert rest[1..][1..] == [];
  }

  /** `A! > B` on `Fork()`: the `A` is reported once for each `B`, twice in all. */
  lemma DuplicateExample()
    ensures MatchSpec(TestHost(), Fork(), Some(Child(Identifier("A", true), Is("B"), false))) == [Fork(), Fork()]
  {
    var a := Fork();
    var sel := Child(Identifier("A", true), Is("B"), false);
    var rest := [Visit(Leaf(5, "B"), [a]), Visit(Leaf(6, "B"), [a])];
    ForkVisits();
    ForkReportAll();
    assert ReportOf(TestHost(), sel)(Visit(a, [])) == [];
    assert ([Visit(a, [])] + rest)[1..] == rest;
  }

  /** `[value]` fails on a node without a `value` field. */
  lemma ExistsExample()
    ensures !Matches(TestHost(), Leaf(1, "Literal"), Attribute("value", Exists, false), [])
  {
    SplitOfPieceWithoutDot("value");
  }

  /** `[value=type(string)]` holds for a string-valued field. */
  lemma TypeOperandExample()
    ensures Matches(TestHost(), Node(1, "Literal", map["value" := Str("x")]),
                    Attribute("value", Eq(TypeName("string")), false), [])
  {
    var n := Node(1, "Literal", map["value" := Str("x")]);
    SplitOfPieceWithoutDot("value");
    assert GetPath(NodeV(n), ["value"]) == Str("x") by {
      assert Member(NodeV(n), "value") == Str("x");
    }
  }

  /** `[value="5"]` holds for the number 5: both sides are compared as strings. */
  lemma LiteralOperandExample()
    ensures Matches(TestHost(), Node(1, "Literal", map["value" := Num(5)]),
                    Attribute("value", Eq(Literal(LStr("5"))), false), [])
  {
    var n := Node(1, "Literal", map["value" := Num(5)]);
    SplitOfPieceWithoutDot("value");
    assert GetPath(NodeV(n), ["value"]) == Num(5) by {
      assert Member(NodeV(n), "value") == Num(5);
    }
    assert ToJsString(Num(5)) == "5";
  }

  /** `switch (x) { case 1: case 2: foo(); }`: the first case has no statements, the second one. */
  function Statement(): Node
  {
    Leaf(23, "ExpressionStatement")
  }

  function EmptyCase(): Node
  {
    Node(21, "SwitchCase", map["consequent" := ListV([])])
  }

  function FullCase(): Node
  {
    Node(22, "SwitchCase", map["consequent" := ListV([Statement()])])
  }

  function Switch(): Node
  {
    Node(20, "SwitchStatement", map["cases" := ListV([EmptyCase(), FullCase()])])
  }

  /**
   * As written, the empty `consequent` of the first case sets the shared bound
   * to 0, so the loop over `cases` stops before the second case and the
   * statement is not found.
   */
  lemma FieldEarlyStopAsWritten()
    ensures InPathAsWritten(Statement(), NodeV(EmptyCase()), ["consequent"]) == (false, Some(0))
    ensures !InPathAsWritten(Statement(), NodeV(Switch()), ["cases", "consequent"]).0
  {
    var path := ["cases", "consequent"];
    assert path[1..] == ["consequent"] && ["consequent"][1..] == [];
    assert Member(NodeV(Switch()), "cases") == ListV([EmptyCase(), FullCase()]);
    assert Member(NodeV(EmptyCase()), "consequent") == ListV([]);
  }

  /** The intended `inPath` reaches the statement through the second case. */
  lemma FieldEarlyStopIntended()
    ensures InPath(Statement(), NodeV(Switch()), ["cases", "consequent"])
  {
    var path := ["cases", "consequent"];
    assert path[1..] == ["consequent"] && ["consequent"][1..] == [];
    assert Member(NodeV(Switch()), "cases") == ListV([EmptyCase(), FullCase()]);
    assert Member(NodeV(FullCase()), "consequent") == ListV([Statement()]);
    assert InSomeElement(Statement(), [Statement()], []);
    assert InPath(Statement(), NodeV(FullCase()), ["consequent"]);
    assert InSomeElement(Statement(), [EmptyCase(), FullCase()], ["consequent"]) by {
      assert [EmptyCase(), FullCase()][1..] == [FullCase()];
    }
  }

  /**
   * `.cases.consequent` on `foo();` under `case 2:` and the `switch`: the code
   * as written answers false, the intended field selector matches.
   */
  lemma CasesConsequent()
    ensures Split("cases.consequent") == ["cases", "consequent"]
  {
    SplitTwo("cases", "consequent");
    assert "cases" + [Dot] + "consequent" == "cases.consequent";
  }

  lemma FieldEarlyStopExample()
    ensures !InPathAsWritten(Statement(), NodeV(Switch()), Split("cases.consequent")).0
    ensures Matches(TestHost(), Statement(), Field("cases.consequent", false), [FullCase(), Switch()])
  {
    CasesConsequent();
    FieldEarlyStopAsWritten();
    FieldEarlyStopIntended();
    assert AncestorAt([FullCase(), Switch()], 1) == NodeV(Switch());
  }
}
