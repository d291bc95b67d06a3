/**
 * The syntax trees the engine queries, as the engine sees them: every node has
 * a type tag and named fields; a field holds nothing, a primitive, a child
 * node or an ordered list of child nodes.
 */
module Tree {
  import opened Strings

  datatype Option<T> = None | Some(value: T)

  /**
   * What `obj[key]` can give.  `Undefined` and `Null` are JavaScript's two
   * absent values; numbers are integer-valued here.
   */
  datatype Value =
    | Undefined
    | Null
    | Bool(b: bool)
    | Num(i: int)
    | Str(s: string)
    | NodeV(node: Node)
    | ListV(items: seq<Node>)

  /**
   * A tree node; `kind` is its `type` tag.  `id` stands for the node's object
   * identity: the engine compares nodes with `===` and `indexOf`, never structurally.
   */
  datatype Node = Node(id: nat, kind: string, fields: map<string, Value>)

  /** Same object, in the sense of `===` on nodes. */
  predicate SameNode(a: Node, b: Node)
  {
    a.id == b.id
  }

  /** `v == null`: true of both `null` and `undefined`. */
  predicate IsNullish(v: Value)
  {
    v.Undefined? || v.Null?
  }

  /**
   * `obj[key]` for an object that is not nullish.  A node answers its `type`
   * tag and its fields; a missing field reads as `undefined`.
   */
  function Member(v: Value, key: string): (r: Value)
    ensures v.NodeV? && key != "type" && key in v.node.fields ==> r == v.node.fields[key]
    ensures (r.NodeV? || r.ListV?) ==> v.NodeV? && r in v.node.fields.Values
  {
    match v
    case NodeV(n) =>
      if key == "type" then Str(n.kind)
      else if key in n.fields then n.fields[key]
      else Undefined
    case _ => Undefined
  }

  /**
   * The list a field holds, or nothing when the field is not a list: what the
   * `isArray(listProp)` guard lets a loop over the field see.  A non-empty
   * result is one of the parent's own list fields, and its elements lie below
   * the parent in the tree.
   */
  function ListField(parent: Node, key: string): (r: seq<Node>)
    ensures r != [] ==> ListV(r) in parent.fields.Values
    ensures forall j :: 0 <= j < |r| ==> r[j] < parent
    ensures Member(NodeV(parent), key).ListV? ==> r == Member(NodeV(parent), key).items
    ensures !Member(NodeV(parent), key).ListV? ==> r == []
  {
    match Member(NodeV(parent), key)
    case ListV(items) => items
    case _ => []
  }

  /** JavaScript's `typeof`. */
  function TypeOf(v: Value): string
  {
    match v
    case Undefined => "undefined"
    case Null => "object"
    case Bool(_) => "boolean"
    case Num(_) => "number"
    case Str(_) => "string"
    case NodeV(_) => "object"
    case ListV(_) => "object"
  }

  /** What `'' + x` gives for an object that is not an array. */
  const ObjectText: string := "[object Object]"

  /** An array of `n` nodes as text: `ObjectText` repeated, comma separated. */
  function NodeListText(n: nat): string
  {
    if n == 0 then "" else if n == 1 then ObjectText else NodeListText(n - 1) + "," + ObjectText
  }

  /** JavaScript's string coercion `'' + x`. */
  function ToJsString(v: Value): string
  {
    match v
    case Undefined => "undefined"
    case Null => "null"
    case Bool(b) => if b then "true" else "false"
    case Num(i) => IntToString(i)
    case Str(s) => s
    case NodeV(_) => ObjectText
    case ListV(items) => NodeListText(|items|)
  }
}
