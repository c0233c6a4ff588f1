/**
 The driver: every file of every loaded package is walked in turn, and the
 diagnostics are reported in that order. Loading the packages is not part of
 this model; the loaded packages are the input.
 */
module Program {
  import opened Syntax
  import opened Types
  import opened Detector
  import opened DetectorProperties

  /** A loaded package: its files and its type table. */
  datatype Package = Package(files: seq<Node>, types: TypeTable)

  predicate FilesTyped(files: seq<Node>, info: TypeTable)
  {
    forall f :: f in files ==> Typed(f, info)
  }

  predicate ProgramTyped(pkgs: seq<Package>)
  {
    forall p :: p in pkgs ==> FilesTyped(p.files, p.types)
  }

  /** The diagnostics of the first `n` files of a package, file by file. */
  function FileDiagnostics(files: seq<Node>, info: TypeTable, n: nat): (r: seq<Diagnostic>)
    requires n <= |files| && FilesTyped(files, info)
    ensures forall d :: d in r ==> d.msg == Message
    decreases n
  {
    if n == 0 then [] else FileDiagnostics(files, info, n - 1) + Inspect(files[n - 1], info)
  }

  /** The diagnostics of the first `n` packages, package by package. */
  function ProgramDiagnostics(pkgs: seq<Package>, n: nat): (r: seq<Diagnostic>)
    requires n <= |pkgs| && ProgramTyped(pkgs)
    ensures forall d :: d in r ==> d.msg == Message
    decreases n
  {
    if n == 0 then []
    else
      var p := pkgs[n - 1];
      ProgramDiagnostics(pkgs, n - 1) + FileDiagnostics(p.files, p.types, |p.files|)
  }

  /** Walks every file of one package, in order, collecting what each walk
      reports. */
  method RunFiles(files: seq<Node>, info: TypeTable) returns (out: seq<Diagnostic>)
    requires FilesTyped(files, info)
    ensures out == FileDiagnostics(files, info, |files|)
    ensures forall d :: d in out ==> d.msg == Message
  {
    out := [];
    var j := 0;
    while j < |files|
      invariant 0 <= j <= |files|
      invariant out == FileDiagnostics(files, info, j)
    {
      out := out + Inspect(files[j], info);
      j := j + 1;
    }
  }

  /** Walks every package, in order, collecting what its files report. */
  method Run(pkgs: seq<Package>) returns (out: seq<Diagnostic>)
    requires ProgramTyped(pkgs)
    ensures out == ProgramDiagnostics(pkgs, |pkgs|)
  {
    out := [];
    var i := 0;
    while i < |pkgs|
      invariant 0 <= i <= |pkgs|
      invariant out == ProgramDiagnostics(pkgs, i)
    {
      var reported := RunFiles(pkgs[i].files, pkgs[i].types);
      out := out + reported;
      i := i + 1;
    }
  }

  /** `d` is the report of a flagged range statement of one of `files`. */
  predicate ReportedInSomeFile(d: Diagnostic, files: seq<Node>, info: TypeTable)
  {
    exists i :: 0 <= i < |files| && ReportedFor(d, files[i], info)
  }

  /** `d` is reported by the walk of one of the first `n` files. */
  predicate InFirstFiles(d: Diagnostic, files: seq<Node>, info: TypeTable, n: nat)
    requires n <= |files| && FilesTyped(files, info)
  {
    exists i :: 0 <= i < n && d in Inspect(files[i], info)
  }

  /** A diagnostic is among those of the first `n` files exactly when one
      of those files reports it. */
  lemma {:induction false} FileDiagnosticsMembers(files: seq<Node>, info: TypeTable, n: nat)
    requires n <= |files| && FilesTyped(files, info)
    ensures forall d :: d in FileDiagnostics(files, info, n) <==> InFirstFiles(d, files, info, n)
    decreases n
  {
    if n > 0 {
      FileDiagnosticsMembers(files, info, n - 1);
      forall d
        ensures d in FileDiagnostics(files, info, n) <==> InFirstFiles(d, files, info, n)
      {
        assert FileDiagnostics(files, info, n)
          == FileDiagnostics(files, info, n - 1) + Inspect(files[n - 1], info);
        if d in Inspect(files[n - 1], info) {
          assert InFirstFiles(d, files, info, n);
        }
        if InFirstFiles(d, files, info, n - 1) {
          var i :| 0 <= i < n - 1 && d in Inspect(files[i], info);
          assert InFirstFiles(d, files, info, n);
        }
        if InFirstFiles(d, files, info, n) {
          var i :| 0 <= i < n && d in Inspect(files[i], info);
          if i < n - 1 {
            assert InFirstFiles(d, files, info, n - 1);
          }
        }
      }
    }
  }

  /** A diagnostic is among those of the first `n` packages exactly when one
      file of one of those packages reports it. */
  lemma {:induction false} ProgramDiagnosticsMembers(pkgs: seq<Package>, n: nat)
    requires n <= |pkgs| && ProgramTyped(pkgs)
    ensures forall d :: d in ProgramDiagnostics(pkgs, n) <==>
      exists p :: 0 <= p < n && InFirstFiles(d, pkgs[p].files, pkgs[p].types, |pkgs[p].files|)
    decreases n
  {
    if n > 0 {
      ProgramDiagnosticsMembers(pkgs, n - 1);
      var last := pkgs[n - 1];
      FileDiagnosticsMembers(last.files, last.types, |last.files|);
    }
  }

  /** Within one package, the walks of its files report exactly the
      flagged range statements of those files. */
  lemma FilesReportExactlyFlagged(files: seq<Node>, info: TypeTable)
    requires FilesTyped(files, info)
    ensures forall d :: InFirstFiles(d, files, info, |files|) <==> ReportedInSomeFile(d, files, info)
  {
    forall i | 0 <= i < |files|
      ensures forall d :: d in Inspect(files[i], info) <==> ReportedFor(d, files[i], info)
    {
      InspectReportsExactlyFlagged(files[i], info);
    }
  }

  /** Every flagged range statement of every file of every package is
      reported, and every report belongs to a flagged range statement of one
      of the files. */
  lemma ProgramSoundAndComplete(pkgs: seq<Package>)
    requires ProgramTyped(pkgs)
    ensures forall d :: d in ProgramDiagnostics(pkgs, |pkgs|) <==>
      exists p :: 0 <= p < |pkgs| && ReportedInSomeFile(d, pkgs[p].files, pkgs[p].types)
  {
    ProgramDiagnosticsMembers(pkgs, |pkgs|);
    forall p | 0 <= p < |pkgs|
      ensures forall d :: InFirstFiles(d, pkgs[p].files, pkgs[p].types, |pkgs[p].files|) <==> ReportedInSomeFile(d, pkgs[p].files, pkgs[p].types)
    {
      FilesReportExactlyFlagged(pkgs[p].files, pkgs[p].types);
    }
  }
}
