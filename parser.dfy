/** The source analyser as the walker sees it: it takes files one at a time,
    later resolves everything it took into interface descriptors, and yields
    them. How it parses and resolves is not modelled; its outcomes are given by
    an `Analyzer` value. */
module SourceParser {

  /** An interface descriptor: its name and the package path it comes from.
      Its method signatures play no part in the walk. */
  datatype Interface = Interface(Name: string, Path: string)

  /** How the (unmodelled) analyser behaves: which paths fail to parse,
      whether resolving the parsed files fails, and the descriptors resolution
      yields, in the order it yields them. */
  datatype Analyzer = Analyzer(
    ParseFails: string -> bool,
    LoadFails: seq<string> -> bool,
    Resolve: seq<string> -> seq<Interface>)

  /** The paths among `paths` whose parse succeeds, in their original order. */
  function Accepted(paths: seq<string>, fails: string -> bool): (ok: seq<string>)
    ensures |ok| <= |paths|
    ensures forall x :: x in ok <==> x in paths && !fails(x)
    decreases |paths|
  {
    if paths == [] then []
    else
      var last := paths[|paths| - 1];
      Accepted(paths[..|paths| - 1], fails) + if fails(last) then [] else [last]
  }

  class Parser {
    const BuildTags: seq<string>
    const analyzer: Analyzer
    /** Every path passed to Parse, in call order. */
    var calls: seq<string>
    /** The resolved descriptors, set by a successful Load. */
    var interfaces: seq<Interface>

    constructor (buildTags: seq<string>, analyzer: Analyzer)
      ensures this.BuildTags == buildTags && this.analyzer == analyzer
      ensures calls == [] && interfaces == []
    {
      this.BuildTags := buildTags;
      this.analyzer := analyzer;
      calls, interfaces := [], [];
    }

    /** The paths whose Parse succeeded, in call order: what Load resolves. */
    function Parsed(): seq<string>
      reads this
    {
      Accepted(calls, analyzer.ParseFails)
    }

    /** Ingests one file; a failed parse leaves the file out of resolution. */
    method Parse(path: string) returns (ok: bool)
      modifies this`calls
      ensures ok == !analyzer.ParseFails(path)
      ensures calls == old(calls) + [path]
      ensures Parsed() == if ok then old(Parsed()) + [path] else old(Parsed())
    {
      ok := !analyzer.ParseFails(path);
      calls := calls + [path];
      assert calls[..|calls| - 1] == old(calls);
    }

    /** Resolves the parsed files into descriptors, once all files are in. */
    method Load() returns (ok: bool)
      modifies this`interfaces
      ensures ok == !analyzer.LoadFails(Parsed())
      ensures interfaces == if ok then analyzer.Resolve(Parsed()) else old(interfaces)
    {
      ok := !analyzer.LoadFails(Parsed());
      if ok {
        interfaces := analyzer.Resolve(Parsed());
      }
    }

    function Interfaces(): seq<Interface>
      reads this
    {
      interfaces
    }
  }
}
