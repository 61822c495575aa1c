# mockery's directory walker, modelled in Dafny

mockery generates mock implementations of Go interfaces. Its walker finds
the interfaces to mock. It has three steps:

1. It walks a directory tree from `BaseDir` and hands each eligible Go
   source file to a parser. Eligible means: not hidden, not private, and
   not a test file. It descends into sub-directories only when `Recursive`
   is set.
2. It asks the parser once to resolve everything it parsed into interface
   descriptors.
3. It hands the descriptors whose name matches `Filter` to a visitor, in
   the order the parser yields them.

The visitor that is modelled, `GeneratorVisitor`, works as follows:

- It picks the target package: the interface's own path when `InPackage`
  is set, `PackageName` otherwise.
- It gets a writer from the output stream provider. If that fails, the
  process ends.
- It runs the generator: note, prologue, generate, write.
- It releases the writer on every exit once it was obtained.
- It recovers from panics, returning nil.

The model has one file per part of the walker:

| file | module | contents |
|---|---|---|
| `sequences.dfy` | `Sequences` | associativity of appending, stated once for the bookkeeping proofs |
| `tree.dfy` | `FileTree` | the tree a walk reads; naming rules (hidden/private prefixes, `.go` / `_test.go` suffixes); `EntriesPaths`, the paths a walk hands to the parser, in order; `Reaches`, an order-free reference definition of the same set |
| `parser.dfy` | `SourceParser` | the parser as the walker uses it: a class that records every `Parse` call and resolves the successfully parsed files once in `Load`; what parsing and resolution do is given by an `Analyzer` value |
| `visitor.dfy` | `Generation` | `GeneratorVisitor.VisitWalk` as a class whose trace records every collaborator call. How each call ends (normally, with an error, or with a panic) is given by the visitor's `Outcome` function. `Plan`, `FirstStop`, `Performed` and `Result` specify the calls made and the value returned |
| `dispatch.dfy` | `Dispatch` | `Dispatched`, the dispatch loop of `Walk` as a function of the descriptors, the filter, `LimitOne` and the visit results, with its properties |
| `walker.dfy` | `Walking` | the `Walker` class: `Walk`, the dispatch loop `VisitAll`, and the recursive `DoWalk`, each proved against the specification functions above |

Some behaviours in the source that are easy to misread:

- `doWalk` returns `false` every time. Its `generated` is only ever
  assigned from its own recursive calls, so the stop-after-first check
  inside the directory walk (mockery/walker.go:79-81) never fires.
  `WalkEntry` keeps that check as an assertion, and `DoWalk`'s contract
  says `!generated`. `LimitOne` therefore only matters in the dispatch
  loop.
- A visit that returns an error ends the process, so no later interface
  is visited. A visit that panics returns nil, so the walk counts it as
  generated.
- The comment on `PackageName` (mockery/walker.go:107) says it defaults
  to "mocks". The code has no such default: `PackageName` is used as it
  is, even when empty. The model follows the code; see
  `Generation.SamePackageEverywhere`.
- A directory that cannot be read contributes nothing, and the root
  directory is no exception.

## Model

| member | source | states |
|---|---|---|
| FileTree.Hidden | mockery/walker.go:70-72 | an entry is skipped, with everything beneath it, exactly when its name starts with "." or "_" |
| FileTree.IsSourcePath | mockery/walker.go:86-88 | a path is handed to the parser only when it ends in `.go` and not in `_test.go` |
| FileTree.EntriesPaths | mockery/walker.go:67-98 | the paths the walk loop over a directory's entries hands to the parser, in listing order, each entry contributing its own |
| FileTree.EntryPaths | mockery/walker.go:70-97 | one entry's contribution: none when hidden; its own walk for a directory when recursive, none otherwise; its path for a source file |
| FileTree.ListingPaths | mockery/walker.go:58-101 | a directory's contribution: nothing when it cannot be read, otherwise its entries' paths |
| FileTree.JoinPath | mockery/walker.go:74 | the joined path ends with the entry name |
| FileTree.SuffixOfJoin | mockery/walker.go:74-86 | a suffix test with a separator-free suffix gives the same answer on the joined path as on the entry name |
| FileTree.SourcePathOfJoin | mockery/walker.go:86-88 | a joined path is eligible exactly when the entry name ends in `.go` and not in `_test.go` |
| FileTree.EntriesPathsAppend | mockery/walker.go:67-98 | walking two runs of entries one after the other hands over the first run's paths, then the second's |
| FileTree.WalkedPathReached | mockery/walker.go:58-101 | every path handed to the parser is the join of a chain of names that `Reaches` a source file |
| FileTree.ReachedPathWalked | mockery/walker.go:58-101 | every source file reached through visible names, and through sub-directories only when recursive, is handed to the parser |
| FileTree.WalkedIffReached | mockery/walker.go:58-101 | both directions together: the walk hands over exactly the reachable source files |
| FileTree.ReachedNamesVisible | mockery/walker.go:70-88 | no component of a reached path is hidden or private; the last one is a non-test `.go` name; without recursion the path has one component |
| FileTree.NonRecursiveTopLevelOnly | mockery/walker.go:76-84 | without recursion the walk hands over exactly the visible source files listed directly in the directory |
| FileTree.UnvisitedSubtreeIrrelevant | mockery/walker.go:70-84 | the contents of a hidden directory, or of any directory in a non-recursive walk, do not affect what is handed over |
| SourceParser.Accepted | mockery/walker.go:92-97 | the files resolution sees are exactly the handed-over files whose parse succeeded, and there are no more of them than were handed over |
| SourceParser.Parser.constructor | mockery/walker.go:26 | a new parser has received no file and holds no interface |
| SourceParser.Parser.Parse | mockery/walker.go:92-97 | the call is recorded; success is the analyser's verdict; only a successful parse adds the file to what Load resolves |
| SourceParser.Parser.Load | mockery/walker.go:29-33 | Load fails exactly when resolving the parsed files fails; on success the interfaces are the resolution of exactly the parsed files |
| Generation.GeneratorVisitor.constructor | mockery/walker.go:103-109 | a new visitor holds its configuration and has made no call |
| Generation.GeneratorVisitor.Call | mockery/walker.go:128-147 | one collaborator call is appended to the trace; whether it stops the visit decides the position of the first stop |
| Generation.GeneratorVisitor.VisitWalk | mockery/walker.go:111-149 | the trace grows by exactly the calls `Performed` lists, and the result is `Result`, for every combination of call outcomes |
| Generation.GeneratorVisitor.Emit | mockery/walker.go:135-148 | the generator calls run until the first one that stops the visit, and the visit's result follows from how that call ended |
| Generation.GeneratorVisitor.Release | mockery/walker.go:133 | the deferred closer is the last call of a visit that obtained a writer |
| Generation.PackageFor | mockery/walker.go:122-126 | the target package: the interface's path when InPackage is set, PackageName as it is otherwise |
| Generation.Performed | mockery/walker.go:111-149 | the calls a visit makes: the plan up to and including the first call that panics or reports an error, then the closer when the writer was obtained; one to seven calls |
| Generation.Result | mockery/walker.go:111-149 | what a visit returns: nil when every call went through or the stopping call panicked, the end of the process when GetWriter reported an error, an error when Generate or Write reported one |
| Generation.Plan | mockery/walker.go:122-144 | a visit makes at most six calls before the release |
| Generation.FirstStop | mockery/walker.go:128-147 | the calls before the first stop all went through, and the call at that position panicked or reported an error |
| Generation.SamePackageEverywhere | mockery/walker.go:122-137 | GetWriter, NewGenerator and GeneratePrologue all get the same package: the interface's path when InPackage is set, PackageName unchanged otherwise; the note passed is Note |
| Generation.ReleasedExactlyOnce | mockery/walker.go:128-133 | GetWriter is the first call; the closer runs exactly once, as the last call, when the writer was obtained, and never otherwise |
| Generation.CallOrder | mockery/walker.go:128-147 | the calls other than the release follow the fixed order, each made only when all earlier ones went through; Write is made only after Generate succeeded |
| Generation.ExitIffNoWriter | mockery/walker.go:128-132 | the visit ends the process exactly when GetWriter reports an error, and then it makes no other call |
| Generation.ErrIffGenerateOrWriteFails | mockery/walker.go:139-147 | the visit returns an error exactly when Generate or Write reports one after every earlier call went through |
| Generation.PanicReturnsNil | mockery/walker.go:112-117 | a panic at any call is recovered and the visit returns nil; Write is not made unless it is the call that panicked |
| Dispatch.Matching | mockery/walker.go:39-41 | the matching interfaces are exactly those the filter accepts, in their original order |
| Dispatch.Dispatched | mockery/walker.go:36-55 | the dispatch loop: skip a non-matching interface, end the process on a visit that does not return nil, otherwise mark generated and stop at once under LimitOne; the interfaces visited in order, and the outcome |
| Dispatch.VisitsPrefixOfMatching | mockery/walker.go:36-53 | the visitor receives a prefix of the matching interfaces: never a non-matching one, no position of the list twice, never one out of order |
| Dispatch.AllMatchingVisited | mockery/walker.go:36-55 | without LimitOne, the walk finishes exactly when every matching visit returns nil, and it then visits every matching interface |
| Dispatch.AbortIsLastVisit | mockery/walker.go:42-46 | every visit but the last returned nil; the walk ends the process exactly when the last visit did not return nil |
| Dispatch.GeneratedIffSomeVisit | mockery/walker.go:48-55 | a finished walk reports generated exactly when at least one visit happened, and every visit then returned nil |
| Dispatch.LimitOneVisitsFirstMatch | mockery/walker.go:49-52 | with LimitOne, at most one interface is visited, and it is the first matching one; having visited it, a finished walk reports generated |
| Walking.Walker.constructor | mockery/walker.go:13-19 | a new walker holds its configuration |
| Walking.Walker.Walk | mockery/walker.go:25-56 | Load fails → the process ends and the visitor was never called. Otherwise the outcome and the visitor's calls are those of `Dispatched` on the resolution of the successfully parsed files `EntriesPaths` lists |
| Walking.Walker.VisitAll | mockery/walker.go:36-55 | the loop's outcome is `Dispatched`, and the visitor's trace is the concatenation of the visits of the interfaces it visited, in order |
| Walking.Walker.VisitOne | mockery/walker.go:42 | one visit extends the trace by that interface's calls and returns its `Result` |
| Walking.Walker.DoWalk | mockery/walker.go:58-101 | the parser receives the paths of `ListingPaths`, in that order and nothing else; the result is always false |
| Walking.Walker.WalkEntry | mockery/walker.go:67-97 | one loop pass hands the parser exactly that entry's paths, and its result is always false |

## Left out

- Filesystem access: each directory's `ioutil.ReadDir` result is given as a `Listing`, so I/O is left out. ReadDir sorts by file name; the model takes the listed order as that sorted order.
- `filepath.Join` cleaning: `JoinPath` joins with "/" and does not remove "..", "." or doubled separators. The suffix tests are unaffected (`SuffixOfJoin`).
- `IsDir` on symbolic links: an entry is either a file or a directory with its own listing.
- The regular expression filter: it is a predicate on interface names.
- Parser internals and the effect of `BuildTags`: which files parse, whether resolution fails, and the descriptors it yields are given by an `Analyzer` value. Parser internals are not part of this model.
- Generator and output-stream-provider internals: the text generated is not modelled. Only the calls, their arguments, and how each call ends are modelled.
- `fmt` output, including every DEBUG line and error message.
- `os.Exit(1)`: it becomes the result `Aborted` of `Walk` and `Exit` of `VisitWalk`. Nothing deferred runs after it.
- Panics: they are modelled as an outcome of each collaborator call. The writer's closer is assumed not to panic. A failure outcome on a call that returns no error (NewGenerator, GeneratePrologueNote, GeneratePrologue) counts as a normal return.
- SourceParser.Parser.Parse: that a failed parse leaves nothing of that file for `Load` to resolve is an assumption about the parser, which is not part of this model; the walker itself only reports the error and goes on.
- Generation.GeneratorVisitor: how each collaborator call ends is a fixed function of the interface and the call (`Outcome`), so a provider or generator whose behaviour depends on earlier visits or on time cannot be expressed.
- The `WalkerVisitor` interface: `Walk` takes a `GeneratorVisitor`, the one implementation in the core. Other visitors are not modelled.

