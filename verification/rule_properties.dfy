/**
 Properties of the per-statement decision rule and of how nested statements
 are treated by the walk.
 */
module RuleProperties {
  import opened Syntax
  import opened Types
  import opened Detector
  import opened DetectorProperties

  /** The decision depends only on whether a value is bound, on the
      collection's table entry and on the statement's position: the index
      binding, the assignment token and the body play no part. */
  lemma DecisionIgnoresIndexAndBody(s: RangeStmt, s': RangeStmt, info: TypeTable)
    requires HasEntry(s, info) && HasEntry(s', info)
    requires s'.value.Some? == s.value.Some?
    requires s'.x.id == s.x.id
    requires s'.forPos == s.forPos
    ensures Danger(s', info) == Danger(s, info)
  {
  }

  /** The collection's type is tested through its underlying type, so giving
      the collection a named type declared as `t` changes nothing: a named
      array type is treated exactly like the array type itself. */
  lemma NamedTypeTreatedAsItsUnderlying(s: RangeStmt, info: TypeTable, name: string, t: Type, addressable: bool)
    ensures var literal := info[s.x.id := TypeAndValue(t, addressable)];
            var named := info[s.x.id := TypeAndValue(Named(name, t), addressable)];
            Danger(s, named) == Danger(s, literal)
  {
  }

  /** Ranging over a pointer to an array is not reported: the underlying
      type is a pointer, not an array. */
  lemma PointerToArrayNotFlagged(s: RangeStmt, info: TypeTable, len: nat, elem: Type)
    requires s.x.id in info
    requires Underlying(info[s.x.id].typ) == Pointer(Array(len, elem))
    ensures Danger(s, info) == []
  {
  }

  /** Nested statements in the body of a range statement are evaluated on
      their own: the diagnostics of the whole statement are those of the
      statement with an empty body, followed by exactly those the body
      would produce as a tree by itself. */
  lemma {:induction false} BodyEvaluatedOnItsOwn(id: NodeId, s: RangeStmt, info: TypeTable)
    requires Typed(Range(id, s), info)
    ensures var bare := Range(id, s.(body := Other(s.body.id, 0, [])));
            Typed(bare, info) && Typed(s.body, info) &&
            Inspect(Range(id, s), info) == Inspect(bare, info) + Inspect(s.body, info)
  {
    var b0 := Other(s.body.id, 0, []);
    var s0 := s.(body := b0);
    DecisionIgnoresIndexAndBody(s, s0, info);
    assert Inspect(b0, info) == [];
    var front :=
      Visit(Range(id, s), info)
      + (if s.key.Some? then Inspect(s.key.value, info) else [])
      + (if s.value.Some? then Inspect(s.value.value, info) else [])
      + Inspect(s.x, info);
    assert Inspect(Range(id, s0), info) == front + [];
  }
}
