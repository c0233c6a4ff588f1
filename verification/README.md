# rangerdanger, modelled in Dafny

rangerdanger is a Go static check. It reports every `for ... range`
statement that binds a value variable and iterates over an addressable
expression whose underlying type is a fixed-size array. In such a loop the
value variable is a copy of each element, not the element itself. The
program loads the packages named on the command line, walks every syntax
tree of every package in pre-order, and prints one line per reported
statement: `file:line:col: range over addressable array`.

This project models the check itself:

- `syntax.dfy` (module `Syntax`): the syntax tree (identifiers, range
  statements, and every other node with its children) and its pre-order,
  in the order Go's syntax walker visits a range statement's parts: key,
  value, collection, body.
- `types.dfy` (module `Types`): static types, including named types and
  their underlying type, and the per-package type table. The table maps an
  expression node to its type and its addressability flag.
- `detector.dfy` (module `Detector`): the decision rule `Danger`, the
  walker's callback `Visit` and the walk `Inspect`.
- `properties.dfy` (module `DetectorProperties`): what a walk reports,
  stated against an independent description. That description takes the
  tree's pre-order and keeps only the flagged range statements.
- `rule_properties.dfy` (module `RuleProperties`): what the decision
  depends on, and how nested statements are treated.
- `program.dfy` (module `Program`): the loops over packages and files.
- `examples.dfy` (module `Examples`): small concrete Go files and what is
  reported for each.

Node identity stands in for Go pointer identity: every node carries a
`NodeId`, and the type table is keyed by it. Positions are abstract
numbers. A range statement's position is that of its `for` keyword, which
is what Go's `RangeStmt.Pos()` returns.

Two consequences of the code as written:

- The code tests only whether a value binding is present
  (`s.Value == nil`, main.go:47). It does not look at the binding's name,
  so a blank value binding `_` is an ordinary binding, and
  `for _, _ = range a` over an addressable array is reported
  (`Examples.BlankValueReported`).
- The code indexes the type table and calls `Underlying()` on the result
  without a guard (main.go:51-52), so a missing table entry would make
  `tv.Type.Underlying()` panic. The model therefore requires the entry
  (`HasEntry`, `Typed`), but only for range statements that bind a value.
  The lookup comes after the no-value exit, so a statement without a value
  binding needs no entry (`Examples.NoBindingNeedsNoEntry`).

The detector changes neither the tree nor the table. It is a set of pure
functions, so running it twice on the same input gives the same sequence of
diagnostics by construction. `Run`'s postcondition fixes its output
uniquely.

## Model

| member | source | states |
|---|---|---|
| Detector.Danger | main.go:46-57 | no diagnostic without a value binding; none when the collection's underlying type is not an array; none when the collection is not addressable; otherwise exactly one diagnostic, at the statement's own position, with the text "range over addressable array"; non-empty exactly when `Flagged` holds |
| Detector.Visit | main.go:36-41 | the walker's callback contributes nothing for a node that is not a range statement |
| Detector.Inspect | main.go:36-41 | every diagnostic of a walk carries the fixed message; what the walk reports is characterised by `InspectReportsFlaggedInPreOrder` |
| Detector.InspectAll | main.go:36-41 | the same for a list of sibling nodes walked left to right |
| Syntax.PreOrder | main.go:36 | the pre-order of a tree starts at the tree's root; its order (the node, then a range statement's key, value, collection and body, or another node's children left to right) is the order in which `ast.Inspect` calls the callback, and the walk properties of `DetectorProperties` are stated against it |
| Syntax.PreOrderAll | main.go:36 | the pre-order of a list of siblings holds at least one node per sibling: each sibling's pre-order, left to right |
| Types.Underlying | main.go:52 | the underlying type is never a named type, and a type that is not named is its own underlying type |
| DetectorProperties.VisitReportsFlagged | main.go:37-39 | the callback's output for a node is the report of that node if it is a flagged range statement, else nothing |
| DetectorProperties.InspectReportsFlaggedInPreOrder | main.go:36-41 | the walk of a file reports exactly the flagged range statements of its pre-order: one diagnostic each, at each statement's position, in pre-order; no subtree is skipped |
| DetectorProperties.InspectAllReportsFlaggedInPreOrder | main.go:36-41 | the same for a list of sibling nodes |
| DetectorProperties.FlaggedRangesAppend | main.go:36-41 | the flagged statements of two consecutive stretches of the walk are those of the first followed by those of the second |
| DetectorProperties.FlaggedRangesMembers | main.go:46-57 | a statement is among the kept ones exactly when it is flagged and occurs in the sequence |
| DetectorProperties.InspectSound | main.go:36-57 | every diagnostic belongs to a flagged range statement of the file and sits at that statement's position |
| DetectorProperties.InspectComplete | main.go:36-57 | every flagged range statement of the file, at any depth of nesting, is reported at its own position |
| DetectorProperties.InspectReportsExactlyFlagged | main.go:36-57 | a diagnostic is reported for a file if and only if it is the report of one of the file's flagged range statements |
| DetectorProperties.InspectCount | main.go:36-57 | the number of diagnostics equals the number of flagged range statements in the walk |
| DetectorProperties.NothingFlaggedNothingReported | main.go:36-57 | a file with no flagged range statement yields no diagnostic |
| DetectorProperties.NoneFlaggedNoneKept | main.go:46-57 | a sequence with no flagged range statement keeps nothing |
| DetectorProperties.TypedCoversPreOrder | main.go:47-51 | the table suits a tree exactly when every range statement of its pre-order that binds a value has an entry for its collection |
| DetectorProperties.TypedAllCoversPreOrder | main.go:47-51 | the same for a list of sibling nodes |
| DetectorProperties.InspectAllCons | main.go:36-41 | walking a list of siblings walks the first, then the rest |
| RuleProperties.DecisionIgnoresIndexAndBody | main.go:46-57 | the decision depends only on whether a value is bound, on the collection's table entry and on the position; the index binding, the token and the body do not affect it |
| RuleProperties.NamedTypeTreatedAsItsUnderlying | main.go:52 | giving the collection a named type declared as `t` yields the same decision as the type `t` itself |
| RuleProperties.PointerToArrayNotFlagged | main.go:52 | a collection whose underlying type is a pointer to an array is not reported |
| RuleProperties.BodyEvaluatedOnItsOwn | main.go:36-41 | a range statement's diagnostics are those of the statement with an empty body, followed by those its body produces as a tree by itself; the outer decision is unaffected by the nested statements |
| Program.FileDiagnostics | main.go:35-42 | every diagnostic of the first files of a package carries the fixed message |
| Program.ProgramDiagnostics | main.go:34-43 | every diagnostic of the first packages carries the fixed message |
| Program.RunFiles | main.go:35-42 | the loop over a package's files produces the concatenation of each file's walk, file by file |
| Program.Run | main.go:34-43 | the loop over packages produces the concatenation of each package's file loop, package by package; with `ProgramSoundAndComplete` this is exactly the reports of the flagged range statements of all files |
| Program.FileDiagnosticsMembers | main.go:35-42 | a diagnostic is among those of the first files of a package exactly when one of those files reports it |
| Program.ProgramDiagnosticsMembers | main.go:34-43 | a diagnostic is among those of the first packages exactly when one file of one of them reports it |
| Program.FilesReportExactlyFlagged | main.go:35-57 | within one package, a diagnostic is reported by some file exactly when it is the report of a flagged range statement of some file |
| Program.ProgramSoundAndComplete | main.go:34-57 | a diagnostic is printed exactly when it is the report of a flagged range statement of some file of some package |
| Examples.AddressableArrayReported | main.go:46-57 | `for i, v := range a` over a local `[5]int` is reported at the `for` |
| Examples.IndexOnlyNotReported | main.go:47-49 | `for i := range a` is not reported |
| Examples.NoBindingNeedsNoEntry | main.go:47-51 | `for range a` is not reported and needs no table entry |
| Examples.SliceNotReported | main.go:52-53 | ranging over a slice is not reported |
| Examples.CallResultNotReported | main.go:52-53 | ranging over a call result of array type is not reported |
| Examples.MapIndexNotReported | main.go:52-53 | ranging over a map element of array type is not reported |
| Examples.BlankValueReported | main.go:47-56 | `for _, _ = range a` over an addressable array is reported |
| Examples.NamedArrayReported | main.go:52-56 | ranging over a variable of a named array type is reported |
| Examples.PointerToArrayNotReported | main.go:52-53 | ranging over `&a` is not reported |
| Examples.IndexOnlyInnerReports | main.go:47-49 | in the nested example, the inner `for j := range s` is not reported |
| Examples.RowInnerReports | main.go:46-57 | in the nested example, the inner statement over an addressable array row is reported |
| Examples.RowsBodyReports | main.go:36-41 | the body of the nested example reports only its second statement |
| Examples.ElemInnerReports | main.go:46-57 | ranging with a value over `s[i]`, an addressable element of array type, is reported |
| Examples.NestedStatementsEvaluatedIndependently | main.go:36-57 | a reported outer statement and a reported inner statement are both reported, in pre-order, while an unreported inner statement between them is not |
| Examples.NestedReportedInsideUnreported | main.go:36-57 | an addressable array element ranged over inside an unreported outer statement is reported |

## Left out

- Program loading and command-line handling (`flag.Parse`, import-path
  expansion, the loader configuration, and the fatal exit on a load error,
  main.go:21-32): this is I/O and library plumbing. The loaded packages are
  the input to `Program.Run`.
- Rendering positions through the shared file set and printing with
  `fmt.Printf` (main.go:19, main.go:56): a position is an abstract number
  and a diagnostic is a (position, message) pair. The printed line is that
  position's `file:line:col`, then `: `, then the message.
- How the Go type checker computes types and addressability: the type
  table is an input. The type checker is not part of this model.
- The general pruning ability of Go's syntax walker: the callback here
  always returns true, so the walk is modelled as never pruning.
- A missing type-table entry for the collection of a range statement that
  binds a value: the code would panic, and the model requires the entry
  instead of inventing a fallback.
