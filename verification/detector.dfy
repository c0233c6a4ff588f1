/**
 The range-over-addressable-array check: the per-statement decision rule and
 the walk over a file that applies it to every range statement.
 */
module Detector {
  import opened Syntax
  import opened Types

  /** The text of every diagnostic the check reports. */
  const Message: string := "range over addressable array"

  /** One reported finding: where it is and what it says. */
  datatype Diagnostic = Diagnostic(pos: Pos, msg: string)

  /** The diagnostic reported for a flagged range statement. */
  function ReportFor(s: RangeStmt): Diagnostic
  {
    Diagnostic(s.forPos, Message)
  }

  /** A range statement the check is meant to report: it binds a value, and
      its collection, according to the table, has an array as its underlying
      type and is addressable. */
  predicate Flagged(s: RangeStmt, info: TypeTable)
  {
    && s.value.Some?
    && s.x.id in info
    && Underlying(info[s.x.id].typ).Array?
    && info[s.x.id].addressable
  }

  /** The table has what the check needs to look up for statement `s`. The
      collection's entry is read only once the statement is known to bind a
      value, so a statement without a value binding needs no entry. */
  predicate HasEntry(s: RangeStmt, info: TypeTable)
  {
    s.value.Some? ==> s.x.id in info
  }

  /** The decision rule for one range statement: nothing when no value is
      bound; nothing when the collection's underlying type is not an array or
      the collection is not addressable; otherwise one diagnostic at the
      statement's own position. */
  function Danger(s: RangeStmt, info: TypeTable): (r: seq<Diagnostic>)
    requires HasEntry(s, info)
    ensures s.value.None? ==> r == []
    ensures s.value.Some? && !Underlying(info[s.x.id].typ).Array? ==> r == []
    ensures s.value.Some? && !info[s.x.id].addressable ==> r == []
    ensures |r| <= 1
    ensures r != [] <==> Flagged(s, info)
    ensures r != [] ==> r == [Diagnostic(s.forPos, "range over addressable array")]
  {
    if s.value.None? then
      []
    else
      var tv := info[s.x.id];
      if !Underlying(tv.typ).Array? || !tv.addressable then
        []
      else
        [ReportFor(s)]
  }

  /** The table has an entry for every range statement of the tree that
      needs one. */
  predicate Typed(n: Node, info: TypeTable)
    decreases n
  {
    match n
    case Ident(_, _, _) => true
    case Range(_, s) =>
      && HasEntry(s, info)
      && (s.key.Some? ==> Typed(s.key.value, info))
      && (s.value.Some? ==> Typed(s.value.value, info))
      && Typed(s.x, info)
      && Typed(s.body, info)
    case Other(_, _, children) => TypedAll(children, info)
  }

  predicate TypedAll(cs: seq<Node>, info: TypeTable)
    decreases cs
  {
    cs != [] ==> Typed(cs[0], info) && TypedAll(cs[1..], info)
  }

  /** What the walker's callback does with one node: apply the decision rule
      to a range statement, ignore anything else. The callback always asks the
      walker to continue into the node's children. */
  function Visit(n: Node, info: TypeTable): (r: seq<Diagnostic>)
    requires n.Range? ==> HasEntry(n.stmt, info)
    ensures !n.Range? ==> r == []
  {
    match n
    case Range(_, s) => Danger(s, info)
    case _ => []
  }

  /** The diagnostics for one file: the callback's output for the node
      itself, followed by those for its children in walk order (key, value,
      collection and body of a range statement; the children of any other
      node from left to right). No subtree is skipped. */
  function Inspect(n: Node, info: TypeTable): (r: seq<Diagnostic>)
    requires Typed(n, info)
    ensures forall d :: d in r ==> d.msg == Message
    decreases n
  {
    match n
    case Ident(_, _, _) => Visit(n, info)
    case Range(_, s) =>
      Visit(n, info)
      + (if s.key.Some? then Inspect(s.key.value, info) else [])
      + (if s.value.Some? then Inspect(s.value.value, info) else [])
      + Inspect(s.x, info)
      + Inspect(s.body, info)
    case Other(_, _, children) => Visit(n, info) + InspectAll(children, info)
  }

  function InspectAll(cs: seq<Node>, info: TypeTable): (r: seq<Diagnostic>)
    requires TypedAll(cs, info)
    ensures forall d :: d in r ==> d.msg == Message
    decreases cs
  {
    if cs == [] then [] else Inspect(cs[0], info) + InspectAll(cs[1..], info)
  }
}
