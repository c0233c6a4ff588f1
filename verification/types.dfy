/**
 The static types a Go type checker assigns to expressions, and the per-package
 table that records, for each expression node, its type and whether it is
 addressable. How the checker computes either is not part of this model: the
 table is an input.
 */
module Types {
  import opened Syntax

  datatype Type =
    | Basic(name: string)                 // bool, int, string, untyped constants, ...
    | Array(len: nat, elem: Type)         // [N]T
    | Slice(elem: Type)                   // []T
    | Pointer(base: Type)                 // *T
    | MapOf(key: Type, elem: Type)        // map[K]V
    | Chan(elem: Type)                    // chan T
    | Struct(fields: seq<Type>)
    | Signature(params: seq<Type>, results: seq<Type>)
    | Interface
    | Named(name: string, underlying: Type)  // type T U

  /** The underlying type: a named type is replaced by the type it was
      declared with, until a type that is not named is reached. */
  function Underlying(t: Type): (r: Type)
    ensures !r.Named?
    ensures !t.Named? ==> r == t
  {
    match t
    case Named(_, u) => Underlying(u)
    case _ => t
  }

  /** What the checker recorded for one expression. */
  datatype TypeAndValue = TypeAndValue(typ: Type, addressable: bool)

  /** A package's type table, keyed by expression node. */
  type TypeTable = map<NodeId, TypeAndValue>
}
