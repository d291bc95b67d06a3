# esquery selector engine in Dafny

A model of the selector-matching engine of esquery (`esquery.js`). esquery
answers CSS-like selectors over JavaScript syntax trees. The model covers
these parts:

- **Path resolution.** `getPath` reads the value at a dotted property path.
  `inPath` decides whether a node is reached from an ancestor by a path of
  field names.
- **The matcher.** `matches(node, selector, ancestry)` handles every selector
  kind: wildcard, identifier, field, attribute (`[name]`, `=`, `!=`, `<`, `<=`,
  `>`, `>=` against regexp, literal and type operands), `:matches`, compound,
  `:not`, child, descendant, sibling, adjacent, `:nth-child` and
  `:nth-last-child`. It uses the helpers `sibling`, `adjacent` and `nthChild`.
- **`subjects`.** This finds the sub-selectors flagged as subjects (`!`) and
  the scope each one is reported against.
- **The driver `match(ast, selector)`.** It walks the tree depth first. It
  keeps the ancestry stack with the nearest parent first and collects the
  reported nodes.

Modules, in dependency order:

| file | module | contents |
|---|---|---|
| `strings.dfy` | `Strings` | `split('.')` and its inverse; ASCII lower-casing; integer-to-decimal text; lexicographic order |
| `tree.dfy` | `Tree` | tree values (`undefined`, `null`, primitives, nodes, node lists); property access; `typeof`; `'' + x` |
| `paths.dfy` | `Paths` | `getPath` (a loop method proved against a recursive function); `inPath` as evidently intended, with a reference definition of what a path reaches; `inPath` as written, with its shared loop bound (see Findings) |
| `selectors.dfy` | `Selectors` | the selector syntax tree and `subjects`, with positions in a selector and the scope at each |
| `matcher.dfy` | `Matcher` | `matches`, `sibling`, `adjacent` and `nthChild` as pure predicates |
| `matcher_facts.dfy` | `MatcherFacts` | what each selector kind means, stated against quantified definitions |
| `driver.dfy` | `Driver` | the pre-order walk as a specification, and `match` as a class `Query` whose fields are the ancestry stack and the results |
| `driver_facts.dfy` | `DriverFacts` | what `match` returns, compared with reference definitions |
| `scenarios.dfy` | `Scenarios` | small concrete trees and what the engine answers on them |

Nodes carry an `id` that stands for object identity: the engine compares
nodes only with `===` and `indexOf`. Calls into code outside the engine become
fields of a `Host` value:
- the traversal library's child-field schema (`VisitorKeys`);
- `RegExp.prototype.test`;
- JavaScript's relational comparison on mixed operand types.

Numbers are integers.

`Driver.Query.Walk` and its helpers prove against `Driver.MatchSpec` that:
- the ancestry stack comes back unchanged after every subtree;
- the results grow by exactly the reports of that subtree's visits, in pre-order.

`Driver.Match` creates the `Query`, walks the root and returns the results.
`DriverFacts` then proves what those reports are.

Adjacent and sibling selectors test both orientations (esquery.js:123-133).
The node may match either side, and a neighbour on either side may match the
other one. So on the list `[X, Y, Z]`, `X + *` holds for `X`, whose successor
`Y` matches `*`. `Scenarios.AdjacentExample` proves this case, and
`MatcherFacts.SiblingSelectors` proves that both combinators are symmetric.

## Model

| member | source | states |
|---|---|---|
| Strings.Split | esquery.js:17 | `key.split(".")` yields at least one piece, and no piece contains a dot |
| Strings.SplitLength | esquery.js:17 | the number of pieces is the number of dots plus one |
| Strings.JoinSplit | esquery.js:17 | joining the pieces with dots gives back the original key |
| Strings.SplitJoin | esquery.js:17 | splitting a dot-join of dot-free pieces gives back the pieces |
| Strings.SplitOfPieceWithoutDot | esquery.js:61 | a name without a dot splits into one piece, itself |
| Strings.LowerCase | esquery.js:58 | `toLowerCase` keeps the length and lowers each character in place |
| Strings.EqualIgnoringCase | esquery.js:58 | the identifier test: equal after lowering both sides; stated by `MatcherFacts.IdentifierIgnoresCase` |
| Strings.LowerCaseIdempotent | esquery.js:58 | lowering twice is lowering once |
| Strings.Digits | esquery.js:108 | the decimal text of a natural number is non-empty and all digits |
| Strings.DigitsInjective | esquery.js:108 | distinct natural numbers have distinct decimal texts |
| Strings.IntToString | esquery.js:108 | `'' + n` for an integer: a minus sign for negatives, then the decimal digits; stated by `Strings.IntToStringSign` and `Strings.IntToStringInjective` |
| Strings.IntToStringSign | esquery.js:108 | the text of an integer starts with `-` exactly when the integer is negative |
| Strings.IntToStringInjective | esquery.js:108 | `'' + n` is injective on integers, so comparing numbers as text is comparing numbers |
| Strings.LexLess | esquery.js:117-120 | string `<`: the first differing character decides, and a proper prefix is less; stated by `Strings.LexLessTrichotomy`, `Strings.LexLessTransitive` and `MatcherFacts.RelationalOperators` |
| Strings.LexLessTrichotomy | esquery.js:117-120 | string `<` is irreflexive and asymmetric, and of two distinct strings one is less than the other |
| Strings.LexLessTransitive | esquery.js:117-120 | string `<` is transitive; with the trichotomy it is a strict total order |
| Strings.SplitTwo | esquery.js:61 | two dot-free names joined by a dot split back into those two names |
| Tree.Member | esquery.js:20 | `obj[key]` on a node gives the field's value; a node or list it gives is one of the node's field values |
| Tree.TypeOf | esquery.js:109 | `typeof` of each value kind: `"undefined"`, `"object"` for `null`, nodes and lists, and the primitive's own type name; stated by `Scenarios.TypeOperandExample` |
| Tree.ToJsString | esquery.js:108 | `'' + x` for each value kind, with numbers as decimal text; stated by `Strings.IntToStringInjective` and `MatcherFacts.NumericLiteralEquality` |
| Tree.ListField | esquery.js:159-160 | what the `isArray(listProp)` guard lets a loop see: a non-empty result is one of the parent's own list fields, with every element below the parent in the tree; a field that is not an array gives nothing |
| Paths.GetPath | esquery.js:16-23 | the value at a key path, stopping at the first `null`/`undefined` link; stated by `Paths.GetPathIter` and `Paths.GetPathAppend` |
| Paths.GetPathIter | esquery.js:16-23 | the loop's result is the value `GetPath` assigns to the split key, stopping at the first absent link |
| Paths.GetPathAppend | esquery.js:16-23 | following `a + b` is following `a` and then `b`; once `a` ends on `null`/`undefined` the result is that absent value |
| Paths.InPath | esquery.js:28-42 | `inPath` as evidently intended, every element of a list field tried (see Findings); stated by the rows below |
| Paths.InSomeElement | esquery.js:34-38 | the list loop of the intended `inPath`; stated by `Paths.InSomeElementExists` |
| Paths.InPathSteps | esquery.js:28-42 | for the intended `inPath`: the empty path holds exactly for the node itself; a nullish ancestor with a path left fails; through a list field, the path holds exactly when it holds from some element |
| Paths.InSomeElementExists | esquery.js:34-38 | for the intended `inPath`, the list loop succeeds exactly when some element succeeds |
| Paths.InPathReached | esquery.js:28-42 | the intended `inPath` holds exactly when the node is among the nodes the path reaches from the ancestor, lists expanded |
| Paths.InSomeElementReached | esquery.js:34-38 | for the intended `inPath`, the list loop holds exactly when the node is among the nodes reached from some element |
| Paths.InPathAsWritten | esquery.js:28-42 | `inPath` as written: it returns the verdict together with the last value written to the shared bound `l`, and each list loop re-reads the bound after every nested call |
| Paths.ElementsAsWritten | esquery.js:35-38 | the list loop as written: it stops once `i` reaches the bound, which a nested call may have lowered |
| Paths.InPathAsWrittenOnUndefined | esquery.js:30-31 | a call on `undefined` returns false and leaves the shared bound alone |
| Paths.FieldAt | esquery.js:36 | `field[i]`: the element, or `undefined` past the end of the list |
| Paths.LiteralLoop | esquery.js:35-38 | the loop exactly as the code runs it: `i` up to the shared bound whatever the list's length, calling `inPath` on `field[i]`; stated by `Paths.LiteralLoopIsElements` |
| Paths.LiteralLoopIsElements | esquery.js:35-38 | for every start index and bound, the literal loop and `Paths.ElementsAsWritten`, which stops at the list's end, give the same answer and the same final bound |
| Paths.InPathAsWrittenSound | esquery.js:28-42 | whenever the code as written answers true, the intended `inPath` does too |
| Paths.ElementsAsWrittenSound | esquery.js:35-38 | whenever the list loop as written succeeds, some element satisfies the intended `inPath` |
| Paths.InPathAsWrittenOneName | esquery.js:28-42 | on paths of at most one name, the code as written and the intended `inPath` agree |
| Paths.ElementsAsWrittenLastName | esquery.js:35-38 | on the last name of a path, the list loop as written tries every element |
| Selectors.Subjects | esquery.js:214-224 | `subjects(selector, ancestor)`: its own entry when flagged, then each property's entries, a `left` part walked with itself as the scope; stated by the rows below |
| Selectors.SubjectsOfEach | esquery.js:219-222 | the property walk over a list of selectors, each with the same scope; stated by `Selectors.SubjectsOfEachCount` and `Selectors.SubjectsOfEachAreScopes` |
| Selectors.AltSubjects | esquery.js:214-217 | `subjects(selector)`: the whole selector is the starting scope |
| Selectors.SubjectsCount | esquery.js:214-224 | `subjects` yields one entry per flagged selector node, so it is empty exactly when no flag is set |
| Selectors.SubjectsOfEachCount | esquery.js:219-222 | over a list of selectors, the entries are one per flag of the list |
| Selectors.SubjectsAreScopes | esquery.js:214-224 | every entry is the starting scope or a `left` part of the selector |
| Selectors.SubjectsOfEachAreScopes | esquery.js:219-222 | over a list of selectors, every entry is the scope or a `left` part inside the list |
| Selectors.LeftSubjectIsItself | esquery.js:218-221 | a flagged `left` part of a binary selector contributes the entry right after the binary selector's own entry, and that entry is the part itself, not the enclosing scope |
| Selectors.SubjectsByChildren | esquery.js:218-222 | `subjects` is the own entry followed by the entries of each child in property order, each child with its own scope |
| Selectors.SubjectsOfEachFrom | esquery.js:219-222 | the walk over a list of selectors is the walk over the selector's children from that index on |
| Selectors.SubjectsAreScopesOfFlags | esquery.js:214-224 | the entries of `subjects`, in order, are exactly the scopes of the flagged sub-selectors in pre-order: each one's nearest enclosing `left` part, or the starting scope |
| Selectors.SubjectsFromAreScopesOfFlags | esquery.js:219-222 | the same, for the children from a given index on |
| Selectors.FlaggedPositionsAreFlags | esquery.js:218 | every listed position is a position of the selector, and the sub-selector there is flagged |
| Selectors.FlaggedPositionsCount | esquery.js:218 | the flagged positions are as many as the flags, one per flagged sub-selector |
| Selectors.ScopeAtStep | esquery.js:221 | one step down from a sub-selector: into its `left` part, that part becomes the scope; into any other child, the scope is unchanged |
| Matcher.Matches | esquery.js:47-149 | `matches` for every selector kind; stated by the `MatcherFacts` rows |
| Matcher.MatchesEntry | esquery.js:47-50 | the absent-selector and absent-node checks in front of `matches`; stated by `MatcherFacts.EntryOnAbsence` |
| Matcher.AttrHolds | esquery.js:99-121 | the attribute operators on the value at the path; stated by `MatcherFacts.AttributeOperators` |
| Matcher.EqHolds | esquery.js:105-110 | `=` against a regexp, literal or type operand; stated by `MatcherFacts.AttributeOperators` and `MatcherFacts.NumericLiteralEquality` |
| Matcher.NeqHolds | esquery.js:111-116 | `!=` against each operand kind; stated by `MatcherFacts.AttributeOperators` |
| Matcher.Compare | esquery.js:117-120 | JavaScript's `<`, `<=`, `>`, `>=`; stated by `MatcherFacts.RelationalOperators` |
| Matcher.HasSibling | esquery.js:154-169 | `sibling`; stated by `MatcherFacts.HasSiblingSemantics` |
| Matcher.SiblingInKeys | esquery.js:158-167 | the key loop of `sibling`; stated by `MatcherFacts.SiblingInKeysExists` |
| Matcher.SiblingInList | esquery.js:161-165 | the list loop of `sibling`; stated by `MatcherFacts.SiblingInListExists` |
| Matcher.HasAdjacent | esquery.js:174-192 | `adjacent`; stated by `MatcherFacts.HasAdjacentSemantics` |
| Matcher.AdjacentInKeys | esquery.js:178-190 | the key loop of `adjacent`; stated by `MatcherFacts.AdjacentInKeysExists` |
| Matcher.AdjacentInList | esquery.js:180-188 | the neighbour test in one list; stated by `MatcherFacts.AdjacentInOneList` |
| Matcher.IsNthChild | esquery.js:197-209 | `nthChild`; stated by `MatcherFacts.NthSelectors` |
| Matcher.NthInKeys | esquery.js:201-207 | the key loop of `nthChild`; stated by `MatcherFacts.NthInKeysExists` |
| Matcher.Target | esquery.js:137-145 | the index functions `n - 1` and `length - n`; stated by `MatcherFacts.NthSelectors` |
| Matcher.AncestorAt | esquery.js:62 | `ancestry[i]` is nullish, so that `inPath` fails at once (esquery.js:31), exactly when `i` lies outside the ancestry; it is never `null`; a present one is the ancestry's node at `i` |
| Matcher.SomeMatches | esquery.js:65-69 | the `:matches` loop; stated by `MatcherFacts.SomeMatchesExists` |
| Matcher.AllMatch | esquery.js:71-75 | the compound loop; stated by `MatcherFacts.AllMatchForall` |
| Matcher.AncestorMatchesFrom | esquery.js:91-95 | the descendant loop from index `i` on; stated by `MatcherFacts.AncestorMatchesFromExists` |
| Matcher.IndexOf | esquery.js:181 | `indexOf` gives the first position holding the node itself, or -1 when no position does |
| MatcherFacts.EntryOnAbsence | esquery.js:49-50 | an absent selector matches everything; a present one never matches an absent node |
| MatcherFacts.SomeMatchesExists | esquery.js:65-69 | the `matches` loop holds exactly when some selector matches |
| MatcherFacts.AllMatchForall | esquery.js:71-75 | the `compound` loop holds exactly when every selector matches |
| MatcherFacts.BooleanCombinators | esquery.js:65-81 | `:matches` is disjunction, compound is conjunction, `:not` holds when none match; over no selectors they give false, true, true |
| MatcherFacts.AncestorMatchesFromExists | esquery.js:91-95 | the descendant loop holds exactly when some `ancestry[j]`, from `i` on, matches `left` under `ancestry[j+1..]` |
| MatcherFacts.StructuralCombinators | esquery.js:83-97 | child: `right` matches the node and `left` matches `ancestry[0]` under `ancestry[1..]`; descendant: `left` matches some `ancestry[i]` under `ancestry[i+1..]`; neither holds with no ancestry |
| MatcherFacts.FieldSelector | esquery.js:60-63 | with the intended `inPath`, a field selector with `k` segments starts at `ancestry[k-1]`; it holds exactly when the node is among the nodes reached, and fails with fewer than `k` ancestors |
| MatcherFacts.IdentifierIgnoresCase | esquery.js:57-58 | identifiers compare type tags case-insensitively, and a node always matches its own type |
| MatcherFacts.AttributeOperators | esquery.js:99-116 | `[name]` holds exactly when the value at the path is present; for every operand kind `!=` is the negation of `=` |
| MatcherFacts.RelationalOperators | esquery.js:117-120 | on two numbers or two strings, exactly one of `<`, `>` and equality holds, `<=` is `<` or equal, and `>=` is `>` or equal |
| MatcherFacts.NumericLiteralEquality | esquery.js:108 | `[name=n]` on a numeric value `m` holds exactly when `n == m` |
| MatcherFacts.SiblingInListExists | esquery.js:161-165 | the list loop of `sibling` holds exactly when some element, not the node itself, matches |
| MatcherFacts.SiblingInKeysExists | esquery.js:158-167 | the key loop of `sibling` holds exactly when some element of some list field of the parent, not the node itself, matches |
| MatcherFacts.HasSiblingSemantics | esquery.js:154-169 | `sibling` holds exactly when the parent has a list field with a matching element other than the node; with no parent it fails |
| MatcherFacts.AdjacentInOneList | esquery.js:180-188 | in one list, `adjacent` holds exactly when the element just before or just after the node's first occurrence matches |
| MatcherFacts.NoAdjacentInEmpty | esquery.js:181-182 | a field that is not a list, read as an empty list, never yields an adjacent match |
| MatcherFacts.AdjacentInKeysExists | esquery.js:178-190 | the key loop of `adjacent` holds exactly when the test succeeds in some list field of the parent |
| MatcherFacts.HasAdjacentSemantics | esquery.js:174-192 | `adjacent` holds exactly when some list field of the parent has a match right next to the node; nothing further away is consulted; with no parent it fails |
| MatcherFacts.NthInKeysExists | esquery.js:201-207 | the key loop of `nthChild` holds exactly when the node's first occurrence in some list field is at the target position |
| MatcherFacts.NthSelectors | esquery.js:135-145 | `:nth-child(n)` holds at 0-based position `n-1` and `:nth-last-child(n)` at `length-n` of a list field of the parent, and `right` must match; with no parent neither holds |
| MatcherFacts.SiblingSelectors | esquery.js:123-133 | sibling and adjacent selectors are symmetric in `left` and `right`, and neither holds with no ancestry |
| MatcherFacts.MatchesIgnoresSubjects | esquery.js:47-149 | the `subject` flags never affect whether a selector matches |
| MatcherFacts.SomeMatchesIgnoresSubjects | esquery.js:65-69 | clearing flags on a selector list leaves the `matches`/`not` loop unchanged |
| MatcherFacts.AllMatchIgnoresSubjects | esquery.js:71-75 | clearing flags on a selector list leaves the `compound` loop unchanged |
| MatcherFacts.HasSiblingIgnoresSubjects | esquery.js:154-169 | clearing flags leaves `sibling` unchanged |
| MatcherFacts.HasAdjacentIgnoresSubjects | esquery.js:174-192 | clearing flags leaves `adjacent` unchanged |
| Driver.VisitNode | esquery.js:233 | the visits of a pre-order walk of a subtree: the node with its ancestry, then its children's visits; stated by the `DriverFacts` chain rows |
| Driver.VisitKeys | esquery.js:233 | the visits under each schema key, in key order |
| Driver.VisitValue | esquery.js:233 | the visits under one field: a node, each element of a list, or nothing |
| Driver.VisitItems | esquery.js:233 | the visits of the elements of a list field, in list order |
| Driver.AncestorHits | esquery.js:240-244 | the ancestors that match a subject under the ancestors above them; stated by `DriverFacts.AncestorHitsWithin` |
| Driver.SubjectHits | esquery.js:238-245 | the reports for each subject in turn; stated by `DriverFacts.SubjectHitsWithin` |
| Driver.Report | esquery.js:236-249 | what one `enter` appends to the results; stated by `DriverFacts.ReportWithin` |
| Driver.MatchSpec | esquery.js:229-254 | the results of `match`, visit by visit; stated by `Driver.Match` and the `DriverFacts` rows |
| Driver.Query.constructor | esquery.js:230-232 | a query starts with an empty ancestry and no results, and its subjects are computed once |
| Driver.Query.Enter | esquery.js:234-250 | `enter` pushes the parent, if any, onto the ancestry; it appends the node when it matches and there are no subjects, or each subject's matches among the node and its ancestors |
| Driver.Query.CollectSubjects | esquery.js:238-245 | the loop over subjects appends, subject by subject, the node if it matches and then each matching ancestor |
| Driver.Query.CollectSubject | esquery.js:239-244 | for one subject, the node if it matches under the ancestry, then each `ancestry[k]` matching under `ancestry[k+1..]`, in order |
| Driver.Query.Leave | esquery.js:251 | `leave` drops the front of the ancestry, leaving it empty if it was empty, and keeps the results |
| Driver.Query.Walk | esquery.js:233-252 | the traversal of a subtree restores the ancestry and appends the reports of the subtree's visits, in pre-order |
| Driver.Query.WalkKeys | esquery.js:233 | the children under each schema key, in key order, each entered with the node on top of the ancestry |
| Driver.Query.WalkValue | esquery.js:233 | the children under one field: the node, or each element of a list, each entered in turn |
| Driver.Query.WalkItems | esquery.js:233 | the elements of a list field, in list order |
| Driver.Match | esquery.js:229-254 | `match` returns `[]` for an absent selector, and otherwise the reports of every visit of the pre-order walk |
| Driver.Entered | esquery.js:235 | the ancestry after `enter`: the parent pushed on the front when there is one; `Driver.Query.Enter` sets the ancestry to it, and `Driver.Query.Walk` restores the ancestry after the subtree |
| Driver.ReportAllAppend | esquery.js:229-254 | the reports of two walks in sequence are the reports of each, concatenated |
| DriverFacts.VisitNodeChains | esquery.js:235 | below a node entered with its true ancestry, every visit carries its own true ancestry, ending at the same outermost node |
| DriverFacts.WalkAncestry | esquery.js:233-252 | every node is matched with its ancestors, nearest first, as its ancestry, and the chain ends at the root |
| DriverFacts.ReportAllWithoutSubjects | esquery.js:246-248 | with no subject flags, the reports of a sequence of visits are the nodes of the visits that match |
| DriverFacts.MatchWithoutSubjects | esquery.js:229-254 | with no subject flags, `match` returns exactly the matching nodes of the tree in pre-order |
| DriverFacts.AncestorHitsWithin | esquery.js:240-244 | the ancestor loop reports exactly the ancestors that match under the ancestors above them |
| DriverFacts.SubjectHitsWithin | esquery.js:238-245 | a node is reported for the subjects exactly when some subject matches it, as the current node or as an ancestor |
| DriverFacts.ReportWithin | esquery.js:236-249 | every node a visit reports is the visited node or in its ancestry |
| DriverFacts.ReportAllWithin | esquery.js:236-249 | every node a sequence of visits reports is the node or an ancestor of one of the visits |
| DriverFacts.MatchReportsVisited | esquery.js:229-254 | with or without subjects, every result is a visited node or one of its true ancestors |
| Scenarios.DescendantExample | esquery.js:89-97 | `A B` matches the `B` of `A -> C -> B`, and not a `B` with no ancestors |
| Scenarios.ChildExample | esquery.js:83-87 | `A > B` matches the `B` of `A -> B`, and not the `B` of `A -> C -> B` |
| Scenarios.NthExample | esquery.js:135-145 | in `[X, Y, Z]`, `:nth-child(1)` is `X` and not `Y`; `:nth-last-child(1)` is `Z` and not `X` |
| Scenarios.AdjacentExample | esquery.js:129-133 | in `[X, Y, Z]`, `X + *` holds for `Y` and for `X`, and not for `Z` |
| Scenarios.SubjectExample | esquery.js:229-254 | `A! > B` on `A -> B` reports the `A` |
| Scenarios.DuplicateExample | esquery.js:238-244 | `A! > B` on an `A` holding two `B`s reports the `A` twice; repeats are kept |
| Scenarios.ExistsExample | esquery.js:102-104 | `[value]` fails on a node without a `value` field |
| Scenarios.TypeOperandExample | esquery.js:109 | `[value=type(string)]` holds for a string-valued field |
| Scenarios.LiteralOperandExample | esquery.js:108 | `[value="5"]` holds for the number 5, because both sides are compared as text |
| Scenarios.CasesConsequent | esquery.js:61 | the field name `cases.consequent` splits into `cases` and `consequent` |
| Scenarios.FieldEarlyStopAsWritten | esquery.js:34-38 | as written, searching the empty `consequent` of the first case sets the shared bound to 0, so the outer loop over `cases` stops before the second case and the answer is false |
| Scenarios.FieldEarlyStopIntended | esquery.js:28-42 | the intended `inPath` reaches the statement through the second case |
| Scenarios.FieldEarlyStopExample | esquery.js:60-63 | `.cases.consequent` fails for the statement in the code as written, and matches it in the model |

## Left out

- `parse` and `query` (esquery.js:259-268) only delegate to the selector parser, which is not part of this model. Selectors are given as syntax trees.
- The traversal library `estraverse` is not part of this model. `Driver.VisitNode` is an explicit pre-order walk over a schema parameter (`Host.keys`) that stands in for it. The library's skip and break controls are not modelled, and neither are node types missing from the schema.
- The module wrapper, the AMD, CommonJS and global exports, and the `isArray` polyfill are left out. They are packaging.
- `RegExp.prototype.test` is the uninterpreted `Host.regexTest`, applied to the pattern and the coerced text.
- Relational operators compare numbers with numbers and strings with strings concretely. Every other operand pair goes to the uninterpreted `Host.looseCompare`. Relational operands are literals only, as the parser produces them.
- Numbers are integers. Floating point, `NaN` and exponent notation in `'' + x` are not modelled.
- `toLowerCase` is modelled on ASCII letters only.
- String `<` compares characters, not UTF-16 code units. The two differ only outside the Basic Multilingual Plane.
- List fields hold only nodes. Holes and primitive elements in arrays are not modelled.
- Property access on lists and primitives (`length`, indices, prototype members) reads as `undefined`.
- Members that node objects inherit from `Object.prototype` (`constructor`, `toString`, `hasOwnProperty`, …) also read as `undefined`: `Tree.Member` knows only a node's `type` and its own fields. In JavaScript `obj[key]` (esquery.js:20) finds them, so `[constructor]` and `[toString=type(function)]` hold for every node; in the model they fail.
- The unknown-type throw (esquery.js:148) and the switch fall-throughs of the attribute case (esquery.js:105-123) cannot be reached. Selector kinds, operators and operand kinds are closed datatypes.
- The `!ancestry` default (esquery.js:51) is built in: the ancestry is always a sequence.
- Objects that are not nodes, such as `loc` or a RegExp-valued `regex`, can only be written as `NodeV`. Their `type` then reads as a kind tag and their text as `[object Object]`, whereas JavaScript gives `undefined` and `/re/`.
- Paths.InPath: models `inPath` as evidently intended, with every element of a list field tried. The code as written shares the loop bound `l` between nested calls; it is modelled by `Paths.InPathAsWritten` and recorded under Findings.
- `subjects` visits a selector's properties in the order the parser writes them: `left` before `right`, and list members in order. `for (p in selector)` follows that order for string keys.

## Findings

| source | as written | input that shows it | evidently intended | confidence | as-written member | corrected member |
|---|---|---|---|---|---|---|
| esquery.js:35 | `inPath` declares `field`, `remainingPath` and `i` (esquery.js:29) but not `l`, so the loop bound is one global shared by nested calls. A nested call over a shorter list lowers the bound of the outer loop, which can then stop before its last element. | `switch (x) { case 1: case 2: foo(); }` with the selector `.cases.consequent`. The first case's empty `consequent` sets `l` to 0, so the loop over `cases` stops after the first case and `foo();` is not matched. | every element of the list is tried, so `.cases.consequent` matches `foo();` | not executed | Paths.InPathAsWritten (Scenarios.FieldEarlyStopAsWritten) | Paths.InPath (Paths.InPathReached, Scenarios.FieldEarlyStopExample) |
