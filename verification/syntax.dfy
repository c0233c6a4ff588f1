/**
 The subset of a Go syntax tree that the range detector looks at.

 A file is a tree of nodes. Range statements are singled out because they are
 the only nodes the detector inspects; identifiers are singled out because a
 value binding is usually one (possibly the blank identifier `_`); every other
 node (blocks, calls, composite literals, function literals, ...) is an
 `Other` node with its children in source order.
 */
module Syntax {

  datatype Option<+T> = None | Some(value: T)

  /** Identity of a node. The type table of a package is keyed by expression
      nodes, which Go compares by pointer; a `NodeId` stands in for that pointer. */
  type NodeId = nat

  /** An abstract source position (Go's `token.Pos`). */
  type Pos = nat

  /** The assignment token of a range clause: `:=`, `=`, or none at all when
      no iteration variable is bound. */
  datatype Token = Illegal | Define | Assign

  datatype Node =
    | Ident(id: NodeId, pos: Pos, name: string)
    | Range(id: NodeId, stmt: RangeStmt)
    | Other(id: NodeId, pos: Pos, children: seq<Node>)

  /** `for key, value tok range x body`. The statement's own position is that
      of its `for` keyword. */
  datatype RangeStmt = RangeStmt(
    forPos: Pos,
    key: Option<Node>,
    value: Option<Node>,
    tok: Token,
    x: Node,
    body: Node)

  /** Every node of the tree in the order the Go syntax walker visits them:
      the node itself first, then, for a range statement, the key (if any),
      the value (if any), the collection and the body; for any other node,
      its children from left to right. */
  function PreOrder(n: Node): (r: seq<Node>)
    ensures |r| >= 1 && r[0] == n
    decreases n
  {
    match n
    case Ident(_, _, _) => [n]
    case Range(_, s) =>
      [n]
      + (if s.key.Some? then PreOrder(s.key.value) else [])
      + (if s.value.Some? then PreOrder(s.value.value) else [])
      + PreOrder(s.x)
      + PreOrder(s.body)
    case Other(_, _, children) => [n] + PreOrderAll(children)
  }

  /** The pre-order sequences of a list of sibling nodes, one after the other. */
  function PreOrderAll(cs: seq<Node>): (r: seq<Node>)
    ensures |r| >= |cs|
    decreases cs
  {
    if cs == [] then [] else PreOrder(cs[0]) + PreOrderAll(cs[1..])
  }
}
