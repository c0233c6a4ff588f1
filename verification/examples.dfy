/**
 Small concrete files and what the check reports for them. Each is written
 in Go in its comment; node ids are distinct, positions are arbitrary.
 */
module Examples {
  import opened Syntax
  import opened Types
  import opened Detector
  import opened DetectorProperties

  const Int: Type := Basic("int")
  const EmptyBody: Node := Other(90, 91, [])

  /** A table giving the collection node `id` the type `t`. */
  function Table(id: NodeId, t: Type, addressable: bool): TypeTable
  {
    map[id := TypeAndValue(t, addressable)]
  }

  /** `for i, v := range x {}` at position 10, with the collection at 20. */
  function RangeKV(value: string, x: Node): Node
  {
    Range(1, RangeStmt(10, Some(Ident(2, 14, "i")), Some(Ident(3, 17, value)), Define, x, EmptyBody))
  }

  /** `var a [5]int; for i, v := range a {}`: reported, at the `for`. */
  lemma AddressableArrayReported()
    ensures Inspect(RangeKV("v", Ident(4, 20, "a")), Table(4, Array(5, Int), true))
         == [Diagnostic(10, "range over addressable array")]
  {
  }

  /** `var a [5]int; for i := range a {}`: no value binding, not reported. */
  lemma IndexOnlyNotReported()
    ensures Inspect(Range(1, RangeStmt(10, Some(Ident(2, 14, "i")), None, Define, Ident(4, 20, "a"), EmptyBody)),
                    Table(4, Array(5, Int), true)) == []
  {
  }

  /** `for range a {}` needs no table entry at all: the collection is never
      looked up when no value is bound. */
  lemma NoBindingNeedsNoEntry()
    ensures Inspect(Range(1, RangeStmt(10, None, None, Illegal, Ident(4, 20, "a"), EmptyBody)), map[]) == []
  {
  }

  /** `var s []int; for i, v := range s {}`: a slice, not reported. */
  lemma SliceNotReported()
    ensures Inspect(RangeKV("v", Ident(4, 20, "s")), Table(4, Slice(Int), true)) == []
  {
  }

  /** `func f() [5]int; for i, v := range f() {}`: a call result is not
      addressable, not reported. */
  lemma CallResultNotReported()
    ensures Inspect(RangeKV("v", Other(4, 20, [Ident(5, 20, "f")])), Table(4, Array(5, Int), false)) == []
  {
  }

  /** `var m map[string][3]int; for i, v := range m["k"] {}`: a map index
      expression is not addressable, not reported. */
  lemma MapIndexNotReported()
    ensures Inspect(RangeKV("v", Other(4, 20, [Ident(5, 20, "m"), Other(6, 22, [])])), Table(4, Array(3, Int), false)) == []
  {
  }

  /** `var a [5]int; for _, _ = range a {}`: the blank identifier is an
      ordinary value binding here, so this is reported. */
  lemma BlankValueReported()
    ensures Inspect(Range(1, RangeStmt(10, Some(Ident(2, 14, "_")), Some(Ident(3, 17, "_")), Assign, Ident(4, 20, "a"), EmptyBody)),
                    Table(4, Array(5, Int), true))
         == [Diagnostic(10, "range over addressable array")]
  {
  }

  /** `type A [5]int; var a A; for i, v := range a {}`: reported, like the
      array type itself. */
  lemma NamedArrayReported()
    ensures Inspect(RangeKV("v", Ident(4, 20, "a")), Table(4, Named("A", Array(5, Int)), true))
         == [Diagnostic(10, "range over addressable array")]
  {
  }

  /** `var a [5]int; for i, v := range &a {}`: a pointer to an array, not
      reported. */
  lemma PointerToArrayNotReported()
    ensures Inspect(RangeKV("v", Other(4, 20, [Ident(5, 21, "a")])), Table(4, Pointer(Array(5, Int)), false)) == []
  {
  }

  /**
    var a [2][3]int
    var s []int
    for _, row := range a {        // position 10, reported
      for j := range s {}          // position 30, no value
      for _, x := range row {}     // position 40, reported
    }
   */
  const IndexOnlyInner: Node :=
    Range(31, RangeStmt(30, Some(Ident(32, 34, "j")), None, Define, Ident(33, 36, "s"), Other(34, 38, [])))
  const RowInner: Node :=
    Range(41, RangeStmt(40, Some(Ident(42, 44, "_")), Some(Ident(43, 46, "x")), Define, Ident(44, 48, "row"), Other(45, 50, [])))
  const RowsOuter: Node :=
    Range(1, RangeStmt(10, Some(Ident(2, 14, "_")), Some(Ident(3, 17, "row")), Define, Ident(4, 20, "a"),
                       Other(5, 25, [IndexOnlyInner, RowInner])))
  const RowsInfo: TypeTable :=
    map[4 := TypeAndValue(Array(2, Array(3, Int)), true),
        33 := TypeAndValue(Slice(Int), true),
        44 := TypeAndValue(Array(3, Int), true)]

  lemma IndexOnlyInnerReports()
    ensures Typed(IndexOnlyInner, RowsInfo) && Inspect(IndexOnlyInner, RowsInfo) == []
  {
  }

  lemma RowInnerReports()
    ensures Typed(RowInner, RowsInfo) && Inspect(RowInner, RowsInfo) == [Diagnostic(40, Message)]
  {
  }

  lemma RowsBodyReports()
    ensures Typed(RowsOuter.stmt.body, RowsInfo)
    ensures Inspect(RowsOuter.stmt.body, RowsInfo) == [Diagnostic(40, Message)]
  {
    IndexOnlyInnerReports();
    RowInnerReports();
    InspectAllCons(RowInner, [], RowsInfo);
    assert [RowInner] + [] == [RowInner];
    InspectAllCons(IndexOnlyInner, [RowInner], RowsInfo);
    assert [IndexOnlyInner] + [RowInner] == [IndexOnlyInner, RowInner];
  }

  lemma NestedStatementsEvaluatedIndependently()
    ensures Typed(RowsOuter, RowsInfo)
    ensures Inspect(RowsOuter, RowsInfo) == [Diagnostic(10, Message), Diagnostic(40, Message)]
  {
    RowsBodyReports();
  }

  /**
    var s [][3]int
    for i := range s {             // position 10, no value
      for _, x := range s[i] {}    // position 40, reported: s[i] is addressable
    }
   */
  const ElemInner: Node :=
    Range(41, RangeStmt(40, Some(Ident(42, 44, "_")), Some(Ident(43, 46, "x")), Define,
                        Other(44, 48, [Ident(46, 48, "s"), Ident(47, 50, "i")]), Other(45, 52, [])))
  const IndexOuter: Node :=
    Range(1, RangeStmt(10, Some(Ident(2, 14, "i")), None, Define, Ident(4, 20, "s"), Other(5, 25, [ElemInner])))
  const ElemInfo: TypeTable :=
    map[4 := TypeAndValue(Slice(Array(3, Int)), true),
        44 := TypeAndValue(Array(3, Int), true)]

  lemma ElemInnerReports()
    ensures Typed(ElemInner, ElemInfo) && Inspect(ElemInner, ElemInfo) == [Diagnostic(40, Message)]
  {
    var elem := ElemInner.stmt.x;
    assert Inspect(elem, ElemInfo) == [];
  }

  lemma NestedReportedInsideUnreported()
    ensures Typed(IndexOuter, ElemInfo)
    ensures Inspect(IndexOuter, ElemInfo) == [Diagnostic(40, Message)]
  {
    ElemInnerReports();
    InspectAllCons(ElemInner, [], ElemInfo);
    assert [ElemInner] + [] == [ElemInner];
  }
}
