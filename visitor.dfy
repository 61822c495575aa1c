/** The per-interface driver: choose the target package, obtain a writer from
    the output stream provider, run the generator, release the writer. The
    collaborators (provider and generator) are not modelled; how each of their
    calls ends is given by the visitor's `Outcome` oracle, and every call made is
    recorded, in order, in the visitor's trace. */
module Generation {
  import opened SourceParser

  /** How one collaborator call ends: normally, with an error, or with a panic. */
  datatype Step = Ok | Fail | Panic

  /** The collaborator calls a visit makes. */
  datatype Op =
    | GetWriter(pkg: string)
    | NewGenerator(pkg: string, inPackage: bool)
    | GeneratePrologueNote(note: string)
    | GeneratePrologue(pkg: string)
    | Generate
    | Write
    | Close

  datatype Event = Event(iface: Interface, op: Op)

  /** What a visit comes to: it returns nil, it returns an error, or it ends
      the process (os.Exit), which deferred calls do not survive. */
  datatype VisitResult = Nil | Err | Exit

  /** How the generator's part of a visit ends: it ran through, returned an
      error, or panicked. */
  datatype End = Completed | Errored | Panicked

  /** Calls that report an error; the other generator calls return nothing
      and can only end normally or panic. */
  predicate Fallible(op: Op) {
    op.GetWriter? || op.Generate? || op.Write?
  }

  class GeneratorVisitor {
    const InPackage: bool
    const Note: string
    /** The output package when InPackage is false; used as it is, with no default. */
    const PackageName: string
    /** How each call to the output stream provider or the generator ends. */
    const Outcome: (Interface, Op) -> Step
    /** Every collaborator call made so far, in order. */
    var trace: seq<Event>

    constructor (inPackage: bool, note: string, packageName: string, outcome: (Interface, Op) -> Step)
      ensures InPackage == inPackage && Note == note && PackageName == packageName && Outcome == outcome
      ensures trace == []
    {
      InPackage, Note, PackageName, Outcome := inPackage, note, packageName, outcome;
      trace := [];
    }

    /** Makes call number `n` of the plan and records it. The ghost
        parameters carry what the calls before it did: `start` is the trace
        as the visit found it. */
    method Call(iface: Interface, op: Op, ghost start: seq<Event>, ghost n: nat) returns (s: Step)
      requires n < |Plan(this, iface)| && op == Plan(this, iface)[n]
      requires FirstStop(this, iface, Plan(this, iface)) >= n
      requires trace == start + Events(iface, Plan(this, iface)[..n])
      modifies this
      ensures trace == start + Events(iface, Plan(this, iface)[..n + 1])
      ensures s == Outcome(iface, op)
      ensures !Stops(this, iface, op) ==> FirstStop(this, iface, Plan(this, iface)) >= n + 1
      ensures Stops(this, iface, op) ==> FirstStop(this, iface, Plan(this, iface)) == n
    {
      ghost var plan := Plan(this, iface);
      EventsAppend(iface, plan[..n], [op]);
      assert plan[..n] + [op] == plan[..n + 1];
      trace := trace + [Event(iface, op)];
      s := Outcome(iface, op);
    }

    /** Generates the mock for one interface. A panic anywhere is recovered
        and, the error result being unnamed, the visit then returns nil. The
        writer is released on every exit once it has been obtained; a failure
        to obtain one ends the process, and nothing deferred runs then. */
    method VisitWalk(iface: Interface) returns (r: VisitResult)
      modifies this
      ensures trace == old(trace) + Events(iface, Performed(this, iface))
      ensures r == Result(this, iface)
    {
      ghost var start := trace;
      var pkg := PackageFor(this, iface);
      var s := Call(iface, GetWriter(pkg), start, 0);
      if s == Panic { r := Nil; return; }
      if s == Fail { r := Exit; return; }
      var end, k := Emit(iface, pkg, start);
      // The deferred closer runs, then the deferred recovery turns a panic into nil.
      Release(iface, start, k);
      r := if end == Errored then Err else Nil;
    }

    /** The generator's part of a visit, from NewGenerator to Write; it ends
        at call number `k` of the plan (the plan's length when every call went through). */
    method Emit(iface: Interface, pkg: string, ghost start: seq<Event>) returns (end: End, ghost k: nat)
      requires pkg == PackageFor(this, iface)
      requires FirstStop(this, iface, Plan(this, iface)) >= 1
      requires trace == start + Events(iface, Plan(this, iface)[..1])
      modifies this
      ensures 1 <= k <= |Plan(this, iface)| && FirstStop(this, iface, Plan(this, iface)) == k
      ensures trace == start + Events(iface, Plan(this, iface)[..if k < |Plan(this, iface)| then k + 1 else |Plan(this, iface)|])
      ensures Result(this, iface) == if end == Errored then Err else Nil
    {
      var s := Call(iface, NewGenerator(pkg, InPackage), start, 1);
      if s == Panic { return Panicked, 1; }
      s := Call(iface, GeneratePrologueNote(Note), start, 2);
      if s == Panic { return Panicked, 2; }
      s := Call(iface, GeneratePrologue(pkg), start, 3);
      if s == Panic { return Panicked, 3; }
      s := Call(iface, Generate, start, 4);
      if s == Panic { return Panicked, 4; }
      if s == Fail { return Errored, 4; }
      s := Call(iface, Write, start, 5);
      if s == Panic { return Panicked, 5; }
      if s == Fail { return Errored, 5; }
      return Completed, |Plan(this, iface)|;
    }

    /** The deferred call of the writer's closer, after the visit stopped at
        call number `k` of the plan (the plan's length when it ran to the end). */
    method Release(iface: Interface, ghost start: seq<Event>, ghost k: nat)
      requires 1 <= k <= |Plan(this, iface)| && FirstStop(this, iface, Plan(this, iface)) == k
      requires trace == start + Events(iface, Plan(this, iface)[..if k < |Plan(this, iface)| then k + 1 else |Plan(this, iface)|])
      modifies this
      ensures trace == start + Events(iface, Performed(this, iface))
    {
      ghost var plan := Plan(this, iface);
      ghost var called := plan[..if k < |plan| then k + 1 else |plan|];
      EventsAppend(iface, called, [Close]);
      trace := trace + [Event(iface, Close)];
    }
  }

  /** The target package: the interface's own package when generating in
      place, the configured package name otherwise. */
  function PackageFor(v: GeneratorVisitor, iface: Interface): string {
    if v.InPackage then iface.Path else v.PackageName
  }

  /** The calls a visit makes when none of them stops it. */
  function Plan(v: GeneratorVisitor, iface: Interface): (plan: seq<Op>)
    ensures |plan| == 6
  {
    var pkg := PackageFor(v, iface);
    [GetWriter(pkg), NewGenerator(pkg, v.InPackage), GeneratePrologueNote(v.Note),
     GeneratePrologue(pkg), Generate, Write]
  }

  /** A call stops the visit when it panics or reports an error. */
  predicate Stops(v: GeneratorVisitor, iface: Interface, op: Op) {
    v.Outcome(iface, op) == Panic || (v.Outcome(iface, op) == Fail && Fallible(op))
  }

  /** The position of the first call in `ops` that stops the visit, or |ops| if none does. */
  function FirstStop(v: GeneratorVisitor, iface: Interface, ops: seq<Op>): (k: nat)
    ensures k <= |ops|
    ensures forall j :: 0 <= j < k ==> !Stops(v, iface, ops[j])
    ensures k < |ops| ==> Stops(v, iface, ops[k])
  {
    if ops == [] then 0
    else if Stops(v, iface, ops[0]) then 0
    else 1 + FirstStop(v, iface, ops[1..])
  }

  /** The calls a visit makes: the plan up to and including the call that
      stops it, then the release of the writer if the writer was obtained
      (neither a panic nor an error from GetWriter). */
  function Performed(v: GeneratorVisitor, iface: Interface): (ops: seq<Op>)
    ensures 1 <= |ops| <= |Plan(v, iface)| + 1
  {
    var plan := Plan(v, iface);
    var k := FirstStop(v, iface, plan);
    var called := if k < |plan| then plan[..k + 1] else plan;
    if k == 0 then called else called + [Close]
  }

  /** What the visit returns, read off the call that stops it. */
  function Result(v: GeneratorVisitor, iface: Interface): VisitResult {
    var plan := Plan(v, iface);
    var k := FirstStop(v, iface, plan);
    if k == |plan| || v.Outcome(iface, plan[k]) == Panic then Nil
    else if k == 0 then Exit
    else Err
  }

  /** The trace entries for calls `ops` made while visiting `iface`. */
  function Events(iface: Interface, ops: seq<Op>): seq<Event> {
    seq(|ops|, j requires 0 <= j < |ops| => Event(iface, ops[j]))
  }

  lemma EventsAppend(iface: Interface, a: seq<Op>, b: seq<Op>)
    ensures Events(iface, a + b) == Events(iface, a) + Events(iface, b)
  {
  }

  function CountClose(ops: seq<Op>): nat {
    if ops == [] then 0 else CountClose(ops[1..]) + if ops[0].Close? then 1 else 0
  }

  // ---------------------------------------------------------------------------
  // Properties of a visit

  /** Every call that names a package names the same one: the interface's own
      package when InPackage is set, PackageName unchanged otherwise (no
      fallback is substituted for an empty PackageName). */
  lemma SamePackageEverywhere(v: GeneratorVisitor, iface: Interface, op: Op)
    requires op in Performed(v, iface)
    ensures op.GetWriter? || op.GeneratePrologue? ==> op.pkg == PackageFor(v, iface)
    ensures op.NewGenerator? ==> op.pkg == PackageFor(v, iface) && op.inPackage == v.InPackage
    ensures op.GeneratePrologueNote? ==> op.note == v.Note
  {
  }

  /** The writer is requested first, and is released exactly once, as the
      last call, on every exit after it was obtained, and never otherwise. */
  lemma {:induction false} ReleasedExactlyOnce(v: GeneratorVisitor, iface: Interface)
    ensures Performed(v, iface)[0] == GetWriter(PackageFor(v, iface))
    ensures var obtained := !Stops(v, iface, GetWriter(PackageFor(v, iface)));
            CountClose(Performed(v, iface)) == (if obtained then 1 else 0)
    ensures !Stops(v, iface, GetWriter(PackageFor(v, iface))) ==>
            Performed(v, iface)[|Performed(v, iface)| - 1] == Close
  {
    var plan := Plan(v, iface);
    var k := FirstStop(v, iface, plan);
    var called := if k < |plan| then plan[..k + 1] else plan;
    CountCloseNone(called, plan);
    if k > 0 {
      CountCloseAppend(called, [Close]);
    }
  }

  lemma {:induction false} CountCloseNone(ops: seq<Op>, plan: seq<Op>)
    requires forall j :: 0 <= j < |ops| ==> ops[j] in plan
    requires Close !in plan
    ensures CountClose(ops) == 0
  {
    if ops != [] {
      CountCloseNone(ops[1..], plan);
    }
  }

  lemma {:induction false} CountCloseAppend(a: seq<Op>, b: seq<Op>)
    ensures CountClose(a + b) == CountClose(a) + CountClose(b)
  {
    if a != [] {
      assert (a + b)[1..] == a[1..] + b;
      CountCloseAppend(a[1..], b);
    } else {
      assert a + b == b;
    }
  }

  /** The calls, leaving aside the release, follow the fixed order
      GetWriter, NewGenerator, GeneratePrologueNote(Note), GeneratePrologue,
      Generate, Write; each is made only when every earlier one went through;
      and Write is made only when Generate ended normally. */
  lemma CallOrder(v: GeneratorVisitor, iface: Interface)
    ensures var ops := Performed(v, iface);
            var plan := Plan(v, iface);
            forall j :: 0 <= j < |ops| && !ops[j].Close? ==>
              ops[j] == plan[j] && forall i :: 0 <= i < j ==> !Stops(v, iface, plan[i])
    ensures Write in Performed(v, iface) ==> v.Outcome(iface, Generate) == Ok
  {
    var plan := Plan(v, iface);
    var ops := Performed(v, iface);
    if Write in ops {
      var j :| 0 <= j < |ops| && ops[j] == Write;
      assert plan[4] == Generate;
    }
  }

  /** The visit ends the process exactly when GetWriter reports an error, and
      then nothing else is called. */
  lemma ExitIffNoWriter(v: GeneratorVisitor, iface: Interface)
    ensures Result(v, iface) == Exit <==> v.Outcome(iface, GetWriter(PackageFor(v, iface))) == Fail
    ensures Result(v, iface) == Exit ==> Performed(v, iface) == [GetWriter(PackageFor(v, iface))]
  {
  }

  /** The visit returns an error exactly when Generate or Write reports one
      after all earlier calls went through. */
  lemma ErrIffGenerateOrWriteFails(v: GeneratorVisitor, iface: Interface)
    ensures Result(v, iface) == Err <==>
      exists j :: 1 <= j < 6 && v.Outcome(iface, Plan(v, iface)[j]) == Fail && Fallible(Plan(v, iface)[j]) &&
        forall i :: 0 <= i < j ==> !Stops(v, iface, Plan(v, iface)[i])
  {
  }

  /** A panic inside a visit is recovered and the visit returns nil, so the
      caller counts it as a generated mock. */
  lemma PanicReturnsNil(v: GeneratorVisitor, iface: Interface, j: nat)
    requires j < 6 && v.Outcome(iface, Plan(v, iface)[j]) == Panic
    requires forall i :: 0 <= i < j ==> !Stops(v, iface, Plan(v, iface)[i])
    ensures Result(v, iface) == Nil
    ensures Write !in Performed(v, iface) || j == 5
  {
  }
}
