/** The walker: a depth-first walk of the tree under BaseDir that feeds
    source files to a fresh parser, one resolution step, and the dispatch loop
    that hands the matching interfaces to the visitor. */
module Walking {
  import opened FileTree
  import opened SourceParser
  import opened Generation
  import opened Dispatch
  import opened Sequences

  /** The visit results as a function of the interface, for the dispatch
      specification. */
  function VisitResults(v: GeneratorVisitor): Interface -> VisitResult {
    x => Result(v, x)
  }

  /** The calls the visitor makes while visiting `visited` in turn. */
  function Traces(v: GeneratorVisitor, visited: seq<Interface>): seq<Event>
    decreases |visited|
  {
    if visited == [] then []
    else
      var last := visited[|visited| - 1];
      Traces(v, visited[..|visited| - 1]) + Events(last, Performed(v, last))
  }

  lemma TracesSnoc(v: GeneratorVisitor, visited: seq<Interface>, x: Interface)
    ensures Traces(v, visited + [x]) == Traces(v, visited) + Events(x, Performed(v, x))
  {
  }

  lemma ResumeResume(a: seq<Interface>, g: bool, b: seq<Interface>, h: bool, run: Run)
    ensures Resume(a, g, Resume(b, h, run)) == Resume(a + b, g || h, run)
  {
  }

  class Walker {
    const BaseDir: string
    const Recursive: bool
    /** The interface-name filter (a regular expression in the source). */
    const Filter: string -> bool
    const LimitOne: bool
    const BuildTags: seq<string>

    constructor (baseDir: string, recursive: bool, filter: string -> bool, limitOne: bool, buildTags: seq<string>)
      ensures BaseDir == baseDir && Recursive == recursive && Filter == filter
      ensures LimitOne == limitOne && BuildTags == buildTags
    {
      BaseDir, Recursive, Filter, LimitOne, BuildTags := baseDir, recursive, filter, limitOne, buildTags;
    }

    /** Walks the tree whose root listing is `root`, resolves what was parsed,
        and visits the matching interfaces. The analyser's behaviour is given
        by `analyzer`; ending the process is the result Aborted. */
    method Walk(visitor: GeneratorVisitor, root: Listing, analyzer: Analyzer) returns (r: RunResult)
      modifies visitor
      ensures var files := Accepted(ListingPaths(BaseDir, root, Recursive), analyzer.ParseFails);
              if analyzer.LoadFails(files) then
                r == Aborted && visitor.trace == old(visitor.trace)
              else
                var run := Dispatched(analyzer.Resolve(files), Filter, LimitOne, VisitResults(visitor));
                r == run.result && visitor.trace == old(visitor.trace) + Traces(visitor, run.visited)
    {
      var parser := new Parser(BuildTags, analyzer);
      var _ := DoWalk(parser, BaseDir, root, visitor);
      assert parser.calls == ListingPaths(BaseDir, root, Recursive);
      ghost var files := Accepted(ListingPaths(BaseDir, root, Recursive), analyzer.ParseFails);

      var ok := parser.Load();
      if !ok {
        return Aborted;
      }

      var ifaces := parser.Interfaces();
      r := VisitAll(ifaces, visitor);
    }

    /** The dispatch loop: visits the interfaces the filter accepts, in the
        order the parser yields them, as Dispatched describes. */
    method VisitAll(ifaces: seq<Interface>, visitor: GeneratorVisitor) returns (r: RunResult)
      modifies visitor
      ensures var run := Dispatched(ifaces, Filter, LimitOne, VisitResults(visitor));
              r == run.result && visitor.trace == old(visitor.trace) + Traces(visitor, run.visited)
    {
      ghost var visit := VisitResults(visitor);
      ghost var visited: seq<Interface> := [];
      var generated := false;
      for i := 0 to |ifaces|
        invariant Dispatched(ifaces, Filter, LimitOne, visit) ==
                  Resume(visited, generated, Dispatched(ifaces[i..], Filter, LimitOne, visit))
        invariant visitor.trace == old(visitor.trace) + Traces(visitor, visited)
      {
        var iface := ifaces[i];
        DispatchedStep(ifaces, i, Filter, LimitOne, visit);
        if !Filter(iface.Name) {
          continue;
        }
        var err := VisitOne(visitor, iface, visited, old(visitor.trace));
        ghost var next := Dispatched(ifaces[i + 1..], Filter, LimitOne, visit);
        if err != Nil {
          assert Dispatched(ifaces, Filter, LimitOne, visit) == Run(visited + [iface], Aborted);
          return Aborted;
        }
        if LimitOne {
          assert Dispatched(ifaces, Filter, LimitOne, visit) == Run(visited + [iface], Finished(true));
          return Finished(true);
        }
        ResumeResume(visited, generated, [iface], true, next);
        visited := visited + [iface];
        generated := true;
      }
      assert ifaces[|ifaces|..] == [] && visited + [] == visited;
      return Finished(generated);
    }

    /** One visit of the dispatch loop, as the loop's bookkeeping sees it: the
        visitor's calls for `iface` follow those for the interfaces already
        visited. */
    method VisitOne(visitor: GeneratorVisitor, iface: Interface, ghost visited: seq<Interface>, ghost start: seq<Event>)
        returns (err: VisitResult)
      modifies visitor
      requires visitor.trace == start + Traces(visitor, visited)
      ensures err == Result(visitor, iface)
      ensures visitor.trace == start + Traces(visitor, visited + [iface])
    {
      err := visitor.VisitWalk(iface);
      TracesSnoc(visitor, visited, iface);
      AppendAssoc(start, Traces(visitor, visited), Events(iface, Performed(visitor, iface)));
    }

    /** Walks directory `dir`, whose listing is `contents`, handing its source
        files to the parser in pre-order. It never calls the visitor (it may
        change only the parser), and its result is always false: it is only
        ever assigned from recursive calls, so the stop-after-first check in
        the loop can never fire. */
    method DoWalk(p: Parser, dir: string, contents: Listing, visitor: GeneratorVisitor) returns (generated: bool)
      modifies p`calls
      ensures p.calls == old(p.calls) + ListingPaths(dir, contents, Recursive)
      ensures !generated
      decreases contents
    {
      generated := false;
      if contents.Unreadable? {
        return;
      }
      var files := contents.entries;
      for i := 0 to |files|
        invariant p.calls == old(p.calls) + EntriesPaths(dir, files[..i], Recursive)
        invariant !generated
      {
        EntriesPathsNext(dir, files, i, Recursive);
        AppendAssoc(old(p.calls), EntriesPaths(dir, files[..i], Recursive), EntryPaths(dir, files[i], Recursive));
        var sub := WalkEntry(p, dir, files[i], visitor);
        generated := sub || generated;
      }
      assert files[..|files|] == files;
    }

    /** One pass of the walk loop, for entry `file` of directory `dir`: skip
        it when hidden; descend into it when it is a directory and the walk is
        recursive; otherwise hand it to the parser when it is a source file. A
        failed parse is reported and the walk goes on with the next entry. */
    method WalkEntry(p: Parser, dir: string, file: Entry, visitor: GeneratorVisitor) returns (generated: bool)
      modifies p`calls
      ensures p.calls == old(p.calls) + EntryPaths(dir, file, Recursive)
      ensures !generated
      decreases file
    {
      generated := false;
      if Hidden(file.name) {
        return;
      }
      var path := JoinPath(dir, file.name);
      if file.Dir? {
        if Recursive {
          generated := DoWalk(p, path, file.contents, visitor);
          // Dead: `generated` is false here, whatever LimitOne says.
          assert !(generated && LimitOne);
        }
        return;
      }
      if !IsSourcePath(path) {
        return;
      }
      var ok := p.Parse(path);
    }
  }
}
