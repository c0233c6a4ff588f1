/**
 What the walk reports, characterised against an independent description:
 the pre-order sequence of the tree, filtered down to the flagged range
 statements, one diagnostic each. Soundness, completeness, count, order and
 the independence of nested statements all follow from that one equation.
 */
module DetectorProperties {
  import opened Syntax
  import opened Types
  import opened Detector

  /** The flagged range statements among `ns`, in the order they occur. */
  function FlaggedRanges(ns: seq<Node>, info: TypeTable): (r: seq<RangeStmt>)
    ensures |r| <= |ns|
    ensures forall s :: s in r ==> Flagged(s, info)
  {
    if ns == [] then []
    else
      (if ns[0].Range? && Flagged(ns[0].stmt, info) then [ns[0].stmt] else [])
      + FlaggedRanges(ns[1..], info)
  }

  /** One diagnostic per statement, in the same order. */
  function Reports(ss: seq<RangeStmt>): (r: seq<Diagnostic>)
  {
    seq(|ss|, i requires 0 <= i < |ss| => ReportFor(ss[i]))
  }

  lemma {:induction false} FlaggedRangesAppend(a: seq<Node>, b: seq<Node>, info: TypeTable)
    ensures FlaggedRanges(a + b, info) == FlaggedRanges(a, info) + FlaggedRanges(b, info)
    decreases |a|
  {
    if a == [] {
      assert a + b == b;
    } else {
      assert (a + b)[1..] == a[1..] + b;
      FlaggedRangesAppend(a[1..], b, info);
    }
  }

  lemma ReportsAppend(a: seq<RangeStmt>, b: seq<RangeStmt>)
    ensures Reports(a + b) == Reports(a) + Reports(b)
  {
  }

  /** The diagnostics a node's callback contributes are the report for the
      node if it is a flagged range statement, and nothing otherwise. */
  lemma VisitReportsFlagged(n: Node, info: TypeTable)
    requires n.Range? ==> HasEntry(n.stmt, info)
    ensures Visit(n, info) == Reports(FlaggedRanges([n], info))
  {
    assert FlaggedRanges([n], info)
      == (if n.Range? && Flagged(n.stmt, info) then [n.stmt] else []) + FlaggedRanges([], info);
  }

  /** Main theorem: the walk reports exactly the flagged range statements of
      the tree, one diagnostic each, at each statement's own position, in
      pre-order. */
  lemma {:induction false} InspectReportsFlaggedInPreOrder(n: Node, info: TypeTable)
    requires Typed(n, info)
    ensures Inspect(n, info) == Reports(FlaggedRanges(PreOrder(n), info))
    decreases n
  {
    VisitReportsFlagged(n, info);
    match n
    case Ident(_, _, _) =>
    case Range(_, s) =>
      var k := if s.key.Some? then PreOrder(s.key.value) else [];
      var v := if s.value.Some? then PreOrder(s.value.value) else [];
      var ik := if s.key.Some? then Inspect(s.key.value, info) else [];
      var iv := if s.value.Some? then Inspect(s.value.value, info) else [];
      if s.key.Some? { InspectReportsFlaggedInPreOrder(s.key.value, info); }
      if s.value.Some? { InspectReportsFlaggedInPreOrder(s.value.value, info); }
      InspectReportsFlaggedInPreOrder(s.x, info);
      InspectReportsFlaggedInPreOrder(s.body, info);
      assert ik == Reports(FlaggedRanges(k, info));
      assert iv == Reports(FlaggedRanges(v, info));
      assert PreOrder(n) == [n] + k + v + PreOrder(s.x) + PreOrder(s.body);
      FlaggedRangesAppend([n] + k + v + PreOrder(s.x), PreOrder(s.body), info);
      FlaggedRangesAppend([n] + k + v, PreOrder(s.x), info);
      FlaggedRangesAppend([n] + k, v, info);
      FlaggedRangesAppend([n], k, info);
      var f0 := FlaggedRanges([n], info);
      var fk := FlaggedRanges(k, info);
      var fv := FlaggedRanges(v, info);
      var fx := FlaggedRanges(PreOrder(s.x), info);
      var fb := FlaggedRanges(PreOrder(s.body), info);
      assert FlaggedRanges(PreOrder(n), info) == f0 + fk + fv + fx + fb;
      ReportsAppend(f0 + fk + fv + fx, fb);
      ReportsAppend(f0 + fk + fv, fx);
      ReportsAppend(f0 + fk, fv);
      ReportsAppend(f0, fk);
    case Other(_, _, children) =>
      InspectAllReportsFlaggedInPreOrder(children, info);
      FlaggedRangesAppend([n], PreOrderAll(children), info);
      ReportsAppend(FlaggedRanges([n], info), FlaggedRanges(PreOrderAll(children), info));
  }

  lemma {:induction false} InspectAllReportsFlaggedInPreOrder(cs: seq<Node>, info: TypeTable)
    requires TypedAll(cs, info)
    ensures InspectAll(cs, info) == Reports(FlaggedRanges(PreOrderAll(cs), info))
    decreases cs
  {
    if cs != [] {
      InspectReportsFlaggedInPreOrder(cs[0], info);
      InspectAllReportsFlaggedInPreOrder(cs[1..], info);
      FlaggedRangesAppend(PreOrder(cs[0]), PreOrderAll(cs[1..]), info);
      ReportsAppend(FlaggedRanges(PreOrder(cs[0]), info), FlaggedRanges(PreOrderAll(cs[1..]), info));
    }
  }

  /** A statement is among the flagged ones of `ns` exactly when it is
      flagged and some range node of `ns` holds it. */
  lemma {:induction false} FlaggedRangesMembers(ns: seq<Node>, info: TypeTable)
    ensures forall s :: s in FlaggedRanges(ns, info) <==>
      (Flagged(s, info) && exists m :: m in ns && m.Range? && m.stmt == s)
    decreases |ns|
  {
    if ns != [] {
      FlaggedRangesMembers(ns[1..], info);
      forall s | Flagged(s, info) && (exists m :: m in ns && m.Range? && m.stmt == s)
        ensures s in FlaggedRanges(ns, info)
      {
        var m :| m in ns && m.Range? && m.stmt == s;
        if m != ns[0] {
          assert m in ns[1..];
        }
      }
    }
  }

  lemma ReportsMembers(ss: seq<RangeStmt>)
    ensures forall d :: d in Reports(ss) <==> exists s :: s in ss && d == ReportFor(s)
  {
    forall d | exists s :: s in ss && d == ReportFor(s)
      ensures d in Reports(ss)
    {
      var s :| s in ss && d == ReportFor(s);
      var i :| 0 <= i < |ss| && ss[i] == s;
      assert Reports(ss)[i] == d;
    }
  }

  /** Soundness: every diagnostic belongs to a flagged range statement of the
      tree and sits at that statement's own position. */
  lemma {:induction false} InspectSound(n: Node, info: TypeTable)
    requires Typed(n, info)
    ensures forall d :: d in Inspect(n, info) ==>
      exists m :: m in PreOrder(n) && m.Range? && Flagged(m.stmt, info) && d == ReportFor(m.stmt)
  {
    InspectReportsFlaggedInPreOrder(n, info);
    FlaggedRangesMembers(PreOrder(n), info);
    ReportsMembers(FlaggedRanges(PreOrder(n), info));
  }

  /** Completeness: every flagged range statement of the tree, however deeply
      nested and whatever the statements around it decide, is reported at its
      own position. */
  lemma {:induction false} InspectComplete(n: Node, info: TypeTable)
    requires Typed(n, info)
    ensures forall m :: m in PreOrder(n) && m.Range? && Flagged(m.stmt, info) ==>
      ReportFor(m.stmt) in Inspect(n, info)
  {
    InspectReportsFlaggedInPreOrder(n, info);
    FlaggedRangesMembers(PreOrder(n), info);
    ReportsMembers(FlaggedRanges(PreOrder(n), info));
  }

  /** Count: one diagnostic per occurrence of a flagged range statement. */
  lemma {:induction false} InspectCount(n: Node, info: TypeTable)
    requires Typed(n, info)
    ensures |Inspect(n, info)| == |FlaggedRanges(PreOrder(n), info)|
  {
    InspectReportsFlaggedInPreOrder(n, info);
  }

  /** A tree with no flagged range statement yields no diagnostic. */
  lemma {:induction false} NothingFlaggedNothingReported(n: Node, info: TypeTable)
    requires Typed(n, info)
    requires forall m :: m in PreOrder(n) && m.Range? ==> !Flagged(m.stmt, info)
    ensures Inspect(n, info) == []
  {
    InspectReportsFlaggedInPreOrder(n, info);
    NoneFlaggedNoneKept(PreOrder(n), info);
  }

  lemma {:induction false} NoneFlaggedNoneKept(ns: seq<Node>, info: TypeTable)
    requires forall m :: m in ns && m.Range? ==> !Flagged(m.stmt, info)
    ensures FlaggedRanges(ns, info) == []
    decreases |ns|
  {
    if ns != [] {
      assert forall m :: m in ns[1..] ==> m in ns;
      NoneFlaggedNoneKept(ns[1..], info);
    }
  }

  /** `d` is the report of some flagged range statement of tree `n`. */
  predicate ReportedFor(d: Diagnostic, n: Node, info: TypeTable)
  {
    exists m :: m in PreOrder(n) && m.Range? && Flagged(m.stmt, info) && d == ReportFor(m.stmt)
  }

  /** Soundness and completeness together: the diagnostics of a file are
      exactly the reports of its flagged range statements. */
  lemma {:induction false} InspectReportsExactlyFlagged(n: Node, info: TypeTable)
    requires Typed(n, info)
    ensures forall d :: d in Inspect(n, info) <==> ReportedFor(d, n, info)
  {
    InspectSound(n, info);
    InspectComplete(n, info);
  }

  /** Walking a list of siblings walks the first, then the rest. */
  lemma InspectAllCons(c: Node, cs: seq<Node>, info: TypeTable)
    requires Typed(c, info) && TypedAll(cs, info)
    ensures TypedAll([c] + cs, info)
    ensures InspectAll([c] + cs, info) == Inspect(c, info) + InspectAll(cs, info)
  {
    assert ([c] + cs)[1..] == cs;
  }

  /** The table suits a tree exactly when every range statement of its
      pre-order that binds a value has an entry for its collection. */
  lemma {:induction false} TypedCoversPreOrder(n: Node, info: TypeTable)
    ensures Typed(n, info) <==> forall m :: m in PreOrder(n) && m.Range? ==> HasEntry(m.stmt, info)
    decreases n
  {
    match n
    case Ident(_, _, _) =>
    case Range(_, s) =>
      if s.key.Some? { TypedCoversPreOrder(s.key.value, info); }
      if s.value.Some? { TypedCoversPreOrder(s.value.value, info); }
      TypedCoversPreOrder(s.x, info);
      TypedCoversPreOrder(s.body, info);
    case Other(_, _, children) =>
      TypedAllCoversPreOrder(children, info);
  }

  lemma {:induction false} TypedAllCoversPreOrder(cs: seq<Node>, info: TypeTable)
    ensures TypedAll(cs, info) <==> forall m :: m in PreOrderAll(cs) && m.Range? ==> HasEntry(m.stmt, info)
    decreases cs
  {
    if cs != [] {
      TypedCoversPreOrder(cs[0], info);
      TypedAllCoversPreOrder(cs[1..], info);
    }
  }
}
