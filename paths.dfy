/**
 * Path resolution on tree values: `getPath`, which reads the value at a dotted
 * path for attribute selectors, and `inPath`, which decides whether a node is
 * reached from an ancestor by a path of field names for field selectors.
 */
module Paths {
  import opened Strings
  import opened Tree

  /**
   * The value at `keys` below `obj`.  The walk stops at the first absent link
   * and yields that link itself (`null` or `undefined`).
   */
  function GetPath(obj: Value, keys: seq<string>): Value
    decreases |keys|
  {
    if |keys| == 0 then obj
    else if IsNullish(obj) then obj
    else GetPath(Member(obj, keys[0]), keys[1..])
  }

  /** `getPath(obj, key)`: splits `key` on dots and follows the pieces one by one. */
  method GetPathIter(obj: Value, key: string) returns (r: Value)
    ensures r == GetPath(obj, Split(key))
  {
    var keys := Split(key);
    r := obj;
    var i := 0;
    while i < |keys|
      invariant 0 <= i <= |keys|
      invariant GetPath(r, keys[i..]) == GetPath(obj, keys)
    {
      if IsNullish(r) {
        return;
      }
      assert keys[i..][1..] == keys[i + 1..];
      r := Member(r, keys[i]);
      i := i + 1;
    }
    assert keys[i..] == [];
  }

  /**
   * Following a path in two stages is following it at once, and once a stage
   * ends on an absent link nothing further is read.
   */
  lemma {:induction false} GetPathAppend(obj: Value, a: seq<string>, b: seq<string>)
    ensures GetPath(obj, a + b) == GetPath(GetPath(obj, a), b)
    ensures IsNullish(GetPath(obj, a)) ==> GetPath(obj, a + b) == GetPath(obj, a)
    decreases |a|
  {
    if |a| == 0 {
      assert a + b == b;
    } else if !IsNullish(obj) {
      assert (a + b)[1..] == a[1..] + b;
      GetPathAppend(Member(obj, a[0]), a[1..], b);
    }
  }

  /**
   * `inPath(node, ancestor, path)`: whether `node` itself (`===`) is reached from
   * `ancestor` by the field names of `path`, where a list-valued field is entered
   * through each of its elements in turn.
   */
  predicate InPath(node: Node, ancestor: Value, path: seq<string>)
    decreases |path|, 0
  {
    if |path| == 0 then ancestor.NodeV? && SameNode(ancestor.node, node)
    else if IsNullish(ancestor) then false
    else
      var field := Member(ancestor, path[0]);
      if field.ListV? then InSomeElement(node, field.items, path[1..])
      else InPath(node, field, path[1..])
  }

  /** The loop of `inPath` over a list-valued field: the first element that succeeds. */
  predicate InSomeElement(node: Node, items: seq<Node>, rest: seq<string>)
    decreases |rest|, 1, |items|
  {
    |items| > 0 && (InPath(node, NodeV(items[0]), rest) || InSomeElement(node, items[1..], rest))
  }

  lemma {:induction false} InSomeElementExists(node: Node, items: seq<Node>, rest: seq<string>)
    ensures InSomeElement(node, items, rest) <==>
            exists i :: 0 <= i < |items| && InPath(node, NodeV(items[i]), rest)
    decreases |items|
  {
    if |items| > 0 {
      InSomeElementExists(node, items[1..], rest);
      assert forall i :: 1 <= i < |items| ==> items[i] == items[1..][i - 1];
    }
  }

  /**
   * The empty path is the identity check, and a path through a list-valued
   * field succeeds exactly when it succeeds from some element of the list.
   */
  lemma InPathSteps(node: Node, ancestor: Value, path: seq<string>)
    ensures |path| == 0 ==> (InPath(node, ancestor, path) <==> ancestor.NodeV? && SameNode(ancestor.node, node))
    ensures |path| > 0 && Member(ancestor, path[0]).ListV? ==>
            (InPath(node, ancestor, path) <==>
             var items := Member(ancestor, path[0]).items;
             exists i :: 0 <= i < |items| && InPath(node, NodeV(items[i]), path[1..]))
    ensures |path| > 0 && IsNullish(ancestor) ==> !InPath(node, ancestor, path)
  {
    if |path| > 0 && Member(ancestor, path[0]).ListV? {
      InSomeElementExists(node, Member(ancestor, path[0]).items, path[1..]);
    }
  }

  /**
   * Reference definition of what a path reaches: every node at the end of the
   * path, with lists expanded, in field order.
   */
  ghost function Reached(v: Value, path: seq<string>): seq<Node>
    decreases |path|, 0
  {
    if |path| == 0 then (if v.NodeV? then [v.node] else [])
    else if IsNullish(v) then []
    else
      var field := Member(v, path[0]);
      if field.ListV? then ReachedFromEach(field.items, path[1..])
      else Reached(field, path[1..])
  }

  ghost function ReachedFromEach(items: seq<Node>, rest: seq<string>): seq<Node>
    decreases |rest|, 1, |items|
  {
    if |items| == 0 then [] else Reached(NodeV(items[0]), rest) + ReachedFromEach(items[1..], rest)
  }

  /** `inPath` holds exactly when the node is one of the nodes the path reaches. */
  lemma {:induction false} InPathReached(node: Node, v: Value, path: seq<string>)
    ensures InPath(node, v, path) <==> exists x :: x in Reached(v, path) && SameNode(x, node)
    decreases |path|, 0
  {
    if |path| > 0 && !IsNullish(v) {
      var field := Member(v, path[0]);
      if field.ListV? {
        InSomeElementReached(node, field.items, path[1..]);
      } else {
        InPathReached(node, field, path[1..]);
      }
    }
  }

  lemma {:induction false} InSomeElementReached(node: Node, items: seq<Node>, rest: seq<string>)
    ensures InSomeElement(node, items, rest) <==>
            exists x :: x in ReachedFromEach(items, rest) && SameNode(x, node)
    decreases |rest|, 1, |items|
  {
    if |items| > 0 {
      InPathReached(node, NodeV(items[0]), rest);
      InSomeElementReached(node, items[1..], rest);
      var head, tail := Reached(NodeV(items[0]), rest), ReachedFromEach(items[1..], rest);
      assert ReachedFromEach(items, rest) == head + tail;
      assert forall x :: x in head + tail <==> x in head || x in tail;
    }
  }

  /**
   * `inPath` as written.  Its loop bound `l` is not declared in `inPath`
   * (esquery.js:29 declares only `field`, `remainingPath` and `i`), so it is one
   * variable shared by every call: a nested call that reaches a list field
   * assigns it, and the enclosing loop then compares its own `i` with that
   * value.  The result pairs the answer with what `l` holds when the call
   * returns, `None` when the call does not assign it.
   */
  function InPathAsWritten(node: Node, ancestor: Value, path: seq<string>): (bool, Option<nat>)
    decreases |path|, 0
  {
    if |path| == 0 then (ancestor.NodeV? && SameNode(ancestor.node, node), None)
    else if IsNullish(ancestor) then (false, None)
    else
      var field := Member(ancestor, path[0]);
      if field.ListV? then ElementsAsWritten(node, field.items, path[1..], 0, |field.items|)
      else InPathAsWritten(node, field, path[1..])
  }

  /**
   * The loop `for (i = 0, l = field.length; i < l; ++i)` of `inPath`, from
   * index `i` on with the shared bound at `l`.  Past the end of the list,
   * `field[i]` is `undefined`, on which `inPath` fails without assigning `l`,
   * so the loop runs out with the bound unchanged.
   */
  function ElementsAsWritten(node: Node, items: seq<Node>, rest: seq<string>, i: nat, l: nat): (bool, Option<nat>)
    decreases |rest|, 1, |items| - i
  {
    if i >= l || i >= |items| then (false, Some(l))
    else
      var call := InPathAsWritten(node, NodeV(items[i]), rest);
      var bound := if call.1.Some? then call.1.value else l;
      if call.0 then (true, Some(bound))
      else ElementsAsWritten(node, items, rest, i + 1, bound)
  }

  /** `inPath(node, undefined, rest)` fails and leaves the shared bound alone. */
  lemma InPathAsWrittenOnUndefined(node: Node, rest: seq<string>)
    ensures InPathAsWritten(node, Undefined, rest) == (false, None)
  {
  }

  /** `field[i]`: the element at `i`, or `undefined` past the end of the list. */
  function FieldAt(items: seq<Node>, i: nat): Value
  {
    if i < |items| then NodeV(items[i]) else Undefined
  }

  /**
   * The loop of `inPath` exactly as the code runs it: `i` goes up to the shared
   * bound, whatever the list's length, and each step calls `inPath` on
   * `field[i]`.  Past the end of the list the calls are on `undefined` and
   * leave the bound alone, which is what makes this loop finish.
   */
  function LiteralLoop(node: Node, items: seq<Node>, rest: seq<string>, i: nat, l: nat): (bool, Option<nat>)
    decreases |items| - (if i < |items| then i else |items|), l - i
  {
    if i >= l then (false, Some(l))
    else
      InPathAsWrittenOnUndefined(node, rest);
      var call := InPathAsWritten(node, FieldAt(items, i), rest);
      var bound := if call.1.Some? then call.1.value else l;
      if call.0 then (true, Some(bound))
      else LiteralLoop(node, items, rest, i + 1, bound)
  }

  /**
   * Stopping at the end of the list, as `ElementsAsWritten` does, gives the
   * same answer and the same final bound as running `i` all the way up to the
   * shared bound.
   */
  lemma {:induction false} LiteralLoopIsElements(node: Node, items: seq<Node>, rest: seq<string>, i: nat, l: nat)
    ensures LiteralLoop(node, items, rest, i, l) == ElementsAsWritten(node, items, rest, i, l)
    decreases |items| - (if i < |items| then i else |items|), l - i
  {
    if i < l {
      InPathAsWrittenOnUndefined(node, rest);
      var call := InPathAsWritten(node, FieldAt(items, i), rest);
      var bound := if call.1.Some? then call.1.value else l;
      LiteralLoopIsElements(node, items, rest, i + 1, bound);
    }
  }

  /**
   * The code as written never finds a node the intended `inPath` does not: the
   * shared bound can only cut a loop short.
   */
  lemma {:induction false} InPathAsWrittenSound(node: Node, ancestor: Value, path: seq<string>)
    ensures InPathAsWritten(node, ancestor, path).0 ==> InPath(node, ancestor, path)
    decreases |path|, 0
  {
    if |path| > 0 && !IsNullish(ancestor) {
      var field := Member(ancestor, path[0]);
      if field.ListV? {
        ElementsAsWrittenSound(node, field.items, path[1..], 0, |field.items|);
        InSomeElementExists(node, field.items, path[1..]);
      } else {
        InPathAsWrittenSound(node, field, path[1..]);
      }
    }
  }

  lemma {:induction false} ElementsAsWrittenSound(node: Node, items: seq<Node>, rest: seq<string>, i: nat, l: nat)
    ensures ElementsAsWritten(node, items, rest, i, l).0 ==>
            exists j :: i <= j < |items| && InPath(node, NodeV(items[j]), rest)
    decreases |rest|, 1, |items| - i
  {
    if i < l && i < |items| {
      var call := InPathAsWritten(node, NodeV(items[i]), rest);
      InPathAsWrittenSound(node, NodeV(items[i]), rest);
      var bound := if call.1.Some? then call.1.value else l;
      ElementsAsWrittenSound(node, items, rest, i + 1, bound);
    }
  }

  /**
   * With no field name after the list, the nested calls assign nothing and the
   * loop visits every element: a one-name path behaves as intended.
   */
  lemma InPathAsWrittenOneName(node: Node, ancestor: Value, path: seq<string>)
    requires |path| <= 1
    ensures InPathAsWritten(node, ancestor, path).0 == InPath(node, ancestor, path)
  {
    if |path| == 1 && !IsNullish(ancestor) && Member(ancestor, path[0]).ListV? {
      var items := Member(ancestor, path[0]).items;
      ElementsAsWrittenLastName(node, items, 0);
      InSomeElementExists(node, items, []);
    }
  }

  lemma {:induction false} ElementsAsWrittenLastName(node: Node, items: seq<Node>, i: nat)
    ensures ElementsAsWritten(node, items, [], i, |items|).0 <==>
            exists j :: i <= j < |items| && InPath(node, NodeV(items[j]), [])
    decreases |items| - i
  {
    if i < |items| {
      ElementsAsWrittenLastName(node, items, i + 1);
    }
  }
}
