/** Which resolved interfaces a walk hands to the visitor, and what the walk
    reports, given the filter, the stop-after-first policy and what each visit
    returns. */
module Dispatch {
  import opened SourceParser
  import opened Generation

  /** The outcome of a walk: the process is ended (os.Exit(1)), or the walk
      finishes and reports whether any mock was generated. */
  datatype RunResult = Aborted | Finished(generated: bool)

  /** The interfaces visited, in visiting order, and the outcome. */
  datatype Run = Run(visited: seq<Interface>, result: RunResult)

  /** The interfaces whose name the filter accepts, in their original order. */
  function Matching(ifaces: seq<Interface>, filter: string -> bool): (m: seq<Interface>)
    ensures |m| <= |ifaces|
    ensures forall x :: x in m <==> x in ifaces && filter(x.Name)
  {
    if ifaces == [] then []
    else (if filter(ifaces[0].Name) then [ifaces[0]] else []) + Matching(ifaces[1..], filter)
  }

  /** The dispatch loop over the resolved interfaces: a non-matching interface
      is skipped; a matching one is visited; a visit that does not return nil
      ends the process; a successful one marks the walk as having generated,
      and ends it at once when `limitOne` is set. */
  function Dispatched(ifaces: seq<Interface>, filter: string -> bool, limitOne: bool,
                      visit: Interface -> VisitResult): Run
  {
    if ifaces == [] then Run([], Finished(false))
    else
      var i := ifaces[0];
      if !filter(i.Name) then Dispatched(ifaces[1..], filter, limitOne, visit)
      else if visit(i) != Nil then Run([i], Aborted)
      else if limitOne then Run([i], Finished(true))
      else
        var rest := Dispatched(ifaces[1..], filter, limitOne, visit);
        Run([i] + rest.visited, if rest.result.Aborted? then Aborted else Finished(true))
  }

  /** The state of the loop after `visited` and `generated`, followed by the
      rest of the loop. */
  function Resume(visited: seq<Interface>, generated: bool, rest: Run): Run {
    Run(visited + rest.visited,
        if rest.result.Aborted? then Aborted else Finished(generated || rest.result.generated))
  }

  // ---------------------------------------------------------------------------
  // Properties of the dispatch loop

  /** The visitor sees a prefix of the matching interfaces, in their order:
      never a non-matching one, no position of the list twice, never one out of
      order. */
  lemma {:induction false} VisitsPrefixOfMatching(ifaces: seq<Interface>, filter: string -> bool, limitOne: bool,
                                                  visit: Interface -> VisitResult)
    ensures var v := Dispatched(ifaces, filter, limitOne, visit).visited;
            v <= Matching(ifaces, filter)
  {
    if ifaces != [] {
      VisitsPrefixOfMatching(ifaces[1..], filter, limitOne, visit);
    }
  }

  /** A walk that is not ended and not limited to one visits every matching
      interface, and it is ended exactly when some matching interface's visit
      does not return nil. */
  lemma {:induction false} AllMatchingVisited(ifaces: seq<Interface>, filter: string -> bool,
                                              visit: Interface -> VisitResult)
    ensures var run := Dispatched(ifaces, filter, false, visit);
            run.result.Finished? <==> forall x :: x in Matching(ifaces, filter) ==> visit(x) == Nil
    ensures var run := Dispatched(ifaces, filter, false, visit);
            run.result.Finished? ==> run.visited == Matching(ifaces, filter)
  {
    if ifaces != [] {
      AllMatchingVisited(ifaces[1..], filter, visit);
    }
  }

  /** The walk is ended exactly when the last visit made did not return nil;
      every earlier visit returned nil, so an ending visit is the last one. */
  lemma {:induction false} AbortIsLastVisit(ifaces: seq<Interface>, filter: string -> bool, limitOne: bool,
                                            visit: Interface -> VisitResult)
    ensures var run := Dispatched(ifaces, filter, limitOne, visit);
            forall j :: 0 <= j < |run.visited| - 1 ==> visit(run.visited[j]) == Nil
    ensures var run := Dispatched(ifaces, filter, limitOne, visit);
            run.result.Aborted? <==> |run.visited| > 0 && visit(run.visited[|run.visited| - 1]) != Nil
  {
    if ifaces != [] {
      var i := ifaces[0];
      var rest := Dispatched(ifaces[1..], filter, limitOne, visit);
      AbortIsLastVisit(ifaces[1..], filter, limitOne, visit);
      if filter(i.Name) && visit(i) == Nil && !limitOne {
        var run := Dispatched(ifaces, filter, limitOne, visit);
        assert run.visited == [i] + rest.visited;
        forall j | 0 <= j < |run.visited| - 1 ensures visit(run.visited[j]) == Nil {
          if j > 0 { assert run.visited[j] == rest.visited[j - 1]; }
        }
      }
    }
  }

  /** A finished walk reports a generated mock exactly when at least one visit
      happened, and every visit it made returned nil. */
  lemma {:induction false} GeneratedIffSomeVisit(ifaces: seq<Interface>, filter: string -> bool, limitOne: bool,
                                                 visit: Interface -> VisitResult)
    ensures var run := Dispatched(ifaces, filter, limitOne, visit);
            run.result.Finished? ==>
              (run.result.generated <==> |run.visited| > 0) &&
              forall x :: x in run.visited ==> visit(x) == Nil
  {
    if ifaces != [] {
      GeneratedIffSomeVisit(ifaces[1..], filter, limitOne, visit);
    }
  }

  /** With `limitOne`, at most one interface is visited; when some interface
      matches, exactly the first matching one is, and a finished walk then
      reports a generated mock. */
  lemma {:induction false} LimitOneVisitsFirstMatch(ifaces: seq<Interface>, filter: string -> bool,
                                                    visit: Interface -> VisitResult)
    ensures var run := Dispatched(ifaces, filter, true, visit);
            |run.visited| <= 1
    ensures var run := Dispatched(ifaces, filter, true, visit);
            var m := Matching(ifaces, filter);
            m != [] ==> run.visited == [m[0]] && (run.result.Finished? ==> run.result.generated)
  {
    if ifaces != [] {
      LimitOneVisitsFirstMatch(ifaces[1..], filter, visit);
    }
  }

  /** Splitting the loop at any point: the outcome is the first part's state
      resumed with the rest of the loop, for as long as the first part neither
      ended the walk nor stopped it under `limitOne`. */
  lemma {:induction false} DispatchedStep(ifaces: seq<Interface>, i: nat, filter: string -> bool, limitOne: bool,
                                          visit: Interface -> VisitResult)
    requires i < |ifaces|
    ensures var x := ifaces[i];
            var here := Dispatched(ifaces[i..], filter, limitOne, visit);
            var next := Dispatched(ifaces[i + 1..], filter, limitOne, visit);
            here == if !filter(x.Name) then next
                    else if visit(x) != Nil then Run([x], Aborted)
                    else if limitOne then Run([x], Finished(true))
                    else Resume([x], true, next)
  {
  }
}
