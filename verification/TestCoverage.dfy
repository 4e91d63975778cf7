/**
 What is reported for a test, read off its run. A function is reported if the chain of its first callers
 leads through the test body; this is not the same as being called by the test body, and the difference
 is stated exactly.
 */
module TestCoverage {
  import opened IR
  import opened Wrappers
  import opened CallTrace
  import opened CallForest
  import opened CallTreeBuilder
  import opened CallTreeShape
  import opened Instrumentations
  import opened TestRuns
  import C = Callbacks
  import R = Reachability
  import S = TestSubtrees

  // ---- First callers --------------------------------------------------------------------------------

  /** The function that was on top of the stack when `f` was first entered. */
  function FirstCaller(n: nat, log: seq<Event>, f: nat): (caller: nat)
    requires Legal(n, log) && HasEntered(log, f) && !RootEntered(n, log, f)
    ensures HasEntered(log, caller) && First(log, caller) < First(log, f)
  {
    var stack := StackAt(n, log, First(log, f));
    assert stack != [] by { assert log[First(log, f)] == Entered(f); }
    StackEnteredBefore(n, log, First(log, f), Top(stack));
    Top(stack)
  }

  /** How many first callers it takes to get from `f` to `b`. The chain ends at a function that was ever
      entered on an empty stack. */
  function Steps(n: nat, log: seq<Event>, b: nat, f: nat): Option<nat>
    requires Legal(n, log)
    decreases if HasEntered(log, f) then First(log, f) else 0
  {
    if !HasEntered(log, f) then None
    else if f == b then Some(0)
    else if RootEntered(n, log, f) then None
    else
      match Steps(n, log, b, FirstCaller(n, log, f))
      case None => None
      case Some(steps) => Some(steps + 1)
  }

  /** In the array that the run leaves, the chain of first callers is the chain of parents. */
  lemma {:induction false} StepsAreDepth(n: nat, log: seq<Event>, b: nat, f: nat)
    requires LeavesForest(n, log) && HasEntered(log, b) && HasEntered(log, f)
    ensures var (m, rank) := (Run(n, log).mapping, FirstEntries(n, log));
      && IsEntered(m, b) && IsEntered(m, f)
      && (Steps(n, log, b, f) != None <==> Above(m, rank, b, f))
      && (Steps(n, log, b, f) != None ==> Depth(m, rank, f) == Depth(m, rank, b) + Steps(n, log, b, f).value)
    decreases First(log, f)
  {
    EntryIsEntered(n, log, b);
    EntryIsEntered(n, log, f);
    MappingIsExpected(n, log, f);
    if f != b && !RootEntered(n, log, f) {
      StepsAreDepth(n, log, b, FirstCaller(n, log, f));
    }
  }

  /** Some function whose chain of first callers leads through `f` is listed before all those whose chain
      leads through `g`. */
  ghost predicate ListedFirst(n: nat, log: seq<Event>, f: nat, g: nat)
    requires Legal(n, log)
  {
    exists h :: Steps(n, log, f, h) != None && forall h' :: Steps(n, log, g, h') != None ==> h < h'
  }

  /** Behind the first one, functions with one first caller come as they, or what they call first, are
      listed, and others as their first callers do. */
  ghost predicate InCallOrder(n: nat, log: seq<Event>, fs: seq<nat>)
    requires Legal(n, log)
  {
    forall j, k :: 1 <= j < k < |fs| ==> CalledBefore(n, log, fs, fs[j], fs[k])
  }

  ghost predicate CalledBefore(n: nat, log: seq<Event>, fs: seq<nat>, f: nat, g: nat)
    requires Legal(n, log)
  {
    && HasEntered(log, f) && HasEntered(log, g) && !RootEntered(n, log, f) && !RootEntered(n, log, g)
    && (|| (FirstCaller(n, log, f) == FirstCaller(n, log, g) && ListedFirst(n, log, f, g))
        || R.Precedes(fs, FirstCaller(n, log, f), FirstCaller(n, log, g)))
  }

  /** `r` reports exactly the functions whose chain of first callers leads through `b` in at most
      `maxDistance` steps: each once, nearest first and otherwise as they are called, with its number of
      steps. */
  ghost predicate ReportsThrough(n: nat, log: seq<Event>, names: seq<Option<string>>, b: nat, maxDistance: int,
                                 r: seq<S.ReachableFunction>, fs: seq<nat>)
    requires Legal(n, log) && |names| == n
  {
    && |r| == |fs| && InCallOrder(n, log, [b] + fs)
    && (forall f: nat :: f in fs <==>
          f < n && f != b && Steps(n, log, b, f) != None && Steps(n, log, b, f).value <= maxDistance)
    && (forall j, k :: 0 <= j < k < |fs| ==> fs[j] != fs[k])
    && (forall k :: 0 <= k < |fs| ==> ReportsFunction(n, log, names, b, r[k], fs[k]))
    && (forall j, k :: 0 <= j <= k < |fs| ==> r[j].distance <= r[k].distance)
  }

  ghost predicate ReportsFunction(n: nat, log: seq<Event>, names: seq<Option<string>>, b: nat,
                                  r: S.ReachableFunction, f: nat)
    requires Legal(n, log) && |names| == n
  {
    f < n && Steps(n, log, b, f) != None && r == S.ReachableFunction(names[f], Steps(n, log, b, f).value)
  }

  lemma {:induction false} WithinIsThrough(n: nat, log: seq<Event>, b: nat, maxDistance: int, f: nat)
    requires LeavesForest(n, log) && HasEntered(log, b) && IsEntered(Run(n, log).mapping, b)
    ensures S.Within(Run(n, log).mapping, FirstEntries(n, log), b, maxDistance, f)
       <==> f < n && Steps(n, log, b, f) != None && Steps(n, log, b, f).value <= maxDistance
  {
    EntryIsEntered(n, log, f);
    EntryIsEntered(n, log, b);
    if HasEntered(log, f) {
      StepsAreDepth(n, log, b, f);
    }
  }

  lemma {:induction false} SmallestIsListed(n: nat, log: seq<Event>, f: nat, g: nat)
    requires LeavesForest(n, log) && HasEntered(log, f) && HasEntered(log, g)
    requires IsEntered(Run(n, log).mapping, f) && IsEntered(Run(n, log).mapping, g)
    requires var (m, rank) := (Run(n, log).mapping, FirstEntries(n, log));
      Smallest(m, rank, f) < Smallest(m, rank, g)
    ensures ListedFirst(n, log, f, g)
  {
    var (m, rank) := (Run(n, log).mapping, FirstEntries(n, log));
    var h := Smallest(m, rank, f);
    SmallestFacts(m, rank, f, h);
    EntryIsEntered(n, log, h);
    StepsAreDepth(n, log, f, h);
    forall h' | Steps(n, log, g, h') != None ensures h < h' {
      StepsAreDepth(n, log, g, h');
      SmallestFacts(m, rank, g, h');
    }
  }

  lemma {:induction false} SearchedIsCalled(n: nat, log: seq<Event>, fs: seq<nat>, f: nat, g: nat)
    requires LeavesForest(n, log) && HasEntered(log, f) && HasEntered(log, g)
    requires !RootEntered(n, log, f) && !RootEntered(n, log, g)
    requires R.SearchedBefore(Run(n, log).mapping, FirstEntries(n, log), fs, f, g)
    ensures CalledBefore(n, log, fs, f, g)
  {
    MappingIsExpected(n, log, f);
    MappingIsExpected(n, log, g);
    var (m, rank) := (Run(n, log).mapping, FirstEntries(n, log));
    if Parent(m, f) == Parent(m, g) && Smallest(m, rank, f) < Smallest(m, rank, g) {
      SmallestIsListed(n, log, f, g);
    }
  }

  lemma {:induction false} SearchOrderIsCallOrder(n: nat, log: seq<Event>, b: nat, fs: seq<nat>)
    requires LeavesForest(n, log) && R.InSearchOrder(Run(n, log).mapping, FirstEntries(n, log), [b] + fs)
    requires forall f :: f in fs ==> f != b && Steps(n, log, b, f) != None
    ensures InCallOrder(n, log, [b] + fs)
  {
    hide Legal, Forest, R.SearchedBefore, CalledBefore, Steps;
    var all := [b] + fs;
    forall j, k | 1 <= j < k < |all| ensures CalledBefore(n, log, all, all[j], all[k]) {
      assert all[j] in fs && all[k] in fs;
      ThroughLater(n, log, b, all[j]);
      ThroughLater(n, log, b, all[k]);
      assert R.SearchedBefore(Run(n, log).mapping, FirstEntries(n, log), all, all[j], all[k]);
      SearchedIsCalled(n, log, all, all[j], all[k]);
    }
  }

  /** What the searches report, in terms of the run. */
  lemma {:induction false} ReportsAreThrough(n: nat, log: seq<Event>, names: seq<Option<string>>, b: nat,
                                             maxDistance: int, r: seq<S.ReachableFunction>, fs: seq<nat>)
    requires LeavesForest(n, log) && |names| == n && HasEntered(log, b) && IsEntered(Run(n, log).mapping, b)
    requires S.ReportsReachable(Run(n, log).mapping, FirstEntries(n, log), names, b, maxDistance, r, fs)
    ensures ReportsThrough(n, log, names, b, maxDistance, r, fs)
  {
    hide R.InSearchOrder, InCallOrder, Forest;
    forall f: nat
      ensures f in fs <==> f < n && f != b && Steps(n, log, b, f) != None && Steps(n, log, b, f).value <= maxDistance
    {
      WithinIsThrough(n, log, b, maxDistance, f);
    }
    EntryIsEntered(n, log, b);
    SearchOrderIsCallOrder(n, log, b, fs);
    forall k | 0 <= k < |fs| ensures ReportsFunction(n, log, names, b, r[k], fs[k]) {
      assert fs[k] in fs;
      EntryIsEntered(n, log, fs[k]);
      StepsAreDepth(n, log, b, fs[k]);
    }
  }

  // ---- From the program to the report -----------------------------------------------------------------

  /** How the sandboxed process ended: all calls returned, or it stopped somewhere. */
  datatype TestRun = Completed(outcomes: seq<Outcome>) | Interrupted(log: seq<Event>)

  function Log(run: TestRun): seq<Event> {
    match run
    case Completed(outcomes) => LogOf(outcomes)
    case Interrupted(log) => log
  }

  /** A test passes if all its calls return and the driver returns zero. */
  predicate Passed(run: TestRun, constructors: nat) {
    run.Completed? && constructors < |run.outcomes| && run.outcomes[constructors].Done?
    && run.outcomes[constructors].value == Int(0)
  }

  /** The run of a test whose calls are `calls`; one that was interrupted entered and left functions in
      turn. */
  ghost predicate IsRun(t: Machine, n: nat, calls: seq<TopLevelCall>, memory: Memory, run: TestRun) {
    match run
    case Completed(outcomes) => Returns(t, calls, memory, outcomes)
    case Interrupted(log) => Legal(n, log)
  }

  /** The original program, with its functions numbered as listed. */
  ghost predicate Linked(s: Machine, ds: seq<Symbol>) {
    DistinctlyNamed(ds) && s.functions == Link(ds) && s.traced == Numbering(ds)
  }

  /** The functions as the call tree knows them: those listed, without nodes, after the phony root. */
  ghost predicate ListedNodes(functions: seq<CallTreeFunction>, ds: seq<Symbol>) {
    |functions| == |ds| + 1 && functions[0] == CallTreeFunction(None, null) && Names(functions) == Listing(ds)
  }

  lemma DriverReturns(m: Machine, constructors: seq<string>, driver: TopLevelCall, destructors: seq<TopLevelCall>,
                      memory: Memory, outcomes: seq<Outcome>)
    requires Returns(m, TestCalls(constructors, driver, destructors), memory, outcomes)
    ensures |constructors| < |outcomes| && outcomes[|constructors|].Done?
  {
    assert CallReturns(m, TestCalls(constructors, driver, destructors), memory, outcomes, |constructors|);
  }

  lemma ListingDistinct(ds: seq<Symbol>)
    requires DistinctlyNamed(ds)
    ensures S.DistinctNames(Listing(ds))
  {
  }

  /** Replays the events of the process on the memory it shares with Mull. */
  method Replay(info: InstrumentationInfo, log: seq<Event>)
    requires Legal(info.callTreeMapping.Length, log)
    requires info.View() == State(seq(info.callTreeMapping.Length, _ => 0), [])
    modifies info`callstack, info.callTreeMapping
    ensures info.View() == CallTrace.Run(info.callTreeMapping.Length, log)
  {
    var n := info.callTreeMapping.Length;
    assert log[..0] == [];
    for k := 0 to |log|
      invariant Legal(n, log[..k]) && info.View() == CallTrace.Run(n, log[..k])
    {
      LegalPrefix(n, log, k + 1);
      assert log[..k + 1][..k] == log[..k];
      match log[k]
      case Entered(f) => info.EnterFunction(f);
      case Left(f) => info.LeaveFunction(f);
    }
    assert log[..|log|] == log;
  }

  /** One original test, from the instrumented program to what is stored: the process runs the
      constructors, the driver and the destructors; its events fill the array; if the test passed, the
      call tree is built and searched, and the first result dropped. What is stored are exactly the
      functions whose chain of first callers in the original program's run leads through the body. */
  method OriginalTest(functions: seq<CallTreeFunction>, ds: seq<Symbol>, b: nat, constructors: seq<string>,
                      driver: TopLevelCall, destructors: seq<TopLevelCall>, run: TestRun, maxDistance: int,
                      ghost t: Machine, ghost s: Machine, ghost memory: Memory, ghost n: nat)
    returns (storage: seq<S.ReachableFunction>, ghost fs: seq<nat>)
    requires Linked(s, ds) && ListedNodes(functions, ds) && b < |ds| && n == |functions|
    requires C.Instruments(t, s) && C.Unreported(s.functions)
    requires IsRun(t, n, TestCalls(constructors, driver, destructors), memory, run)
    ensures Legal(n, Log(run))
    ensures run.Completed? ==> Returns(s, TestCalls(constructors, driver, destructors), memory, run.outcomes)
    ensures run.Completed? ==> |constructors| < |run.outcomes| && run.outcomes[|constructors|].Done?
    ensures run.Completed? && run.outcomes[|constructors|].value == Int(0) ==>
      ReportsThrough(n, Log(run), Listing(ds), b + 1, S.NonNegative(maxDistance), storage, fs)
    ensures run.Completed? && run.outcomes[|constructors|].value != Int(0) ==> storage == []
    ensures run.Interrupted? ==> storage == []
  {
    ghost var calls := TestCalls(constructors, driver, destructors);
    storage, fs := [], [];
    if run.Completed? {
      DriverReturns(t, constructors, driver, destructors, memory, run.outcomes);
      NumbersInListing(ds);
      InstrumentedRun(n, t, s, calls, memory, run.outcomes);
      InstrumentedReturns(t, s, calls, memory, run.outcomes);
    }
    var info := new InstrumentationInfo(|functions|);
    Replay(info, Log(run));
    if Passed(run, |constructors|) {
      ListingDistinct(ds);
      storage, fs := Reachable(info, functions, ds, b, maxDistance, Log(run));
    }
  }

  /** The searches on the array that a run left. */
  method Reachable(info: InstrumentationInfo, functions: seq<CallTreeFunction>, ds: seq<Symbol>, b: nat,
                   maxDistance: int, ghost log: seq<Event>)
    returns (storage: seq<S.ReachableFunction>, ghost fs: seq<nat>)
    requires b < |ds| && LeavesForest(|ds| + 1, log) && S.DistinctNames(Listing(ds))
    requires ListedNodes(functions, ds)
    requires info.callTreeMapping.Length == |functions| && info.View() == CallTrace.Run(|ds| + 1, log)
    modifies info.callTreeMapping
    ensures ReportsThrough(|ds| + 1, log, Listing(ds), b + 1, S.NonNegative(maxDistance), storage, fs)
  {
    ghost var n, rank := |ds| + 1, FirstEntries(|ds| + 1, log);
    EntryIsEntered(n, log, b + 1);
    storage, fs := S.ReachableFunctionsOfTest(info.callTreeMapping, functions, ds[b].name, maxDistance, rank, b + 1);
    if HasEntered(log, b + 1) {
      ReportsAreThrough(n, log, Listing(ds), b + 1, S.NonNegative(maxDistance), storage, fs);
    } else {
      fs := [];
      NeverThrough(n, log, b + 1);
    }
  }

  /** One test from the modules of a program on: all modules are recorded and instrumented, the process runs
      what the linker makes of them, and its events are evaluated. `process` stands for the sandbox. */
  method TestProgram(modules: seq<BitcodeModule>, b: nat, constructors: seq<string>, driver: TopLevelCall,
                     destructors: seq<TopLevelCall>, process: Module -> TestRun, maxDistance: int,
                     ghost whole: Module, ghost cells: Cells, ghost operations: (nat, seq<Value>) -> int,
                     ghost memory: Memory)
    returns (run: TestRun, storage: seq<S.ReachableFunction>, ghost fs: seq<nat>)
    requires LastDefines(modules) && Links(whole, ModuleParts(modules)) && C.Unreported(whole)
    requires Testable(AllDefinitions(modules)) && b < |AllDefinitions(modules)|
    requires var linked := Link(Instrumented(AllDefinitions(modules), 1));
      IsRun(Machine(linked, cells, operations, map[]), |AllDefinitions(modules)| + 1,
            TestCalls(constructors, driver, destructors), memory, process(linked))
    ensures run == process(Link(Instrumented(AllDefinitions(modules), 1)))
    ensures Legal(|AllDefinitions(modules)| + 1, Log(run))
    ensures run.Completed? ==> Returns(Machine(whole, cells, operations, Numbering(AllDefinitions(modules))),
                                       TestCalls(constructors, driver, destructors), memory, run.outcomes)
    ensures run.Completed? ==> |constructors| < |run.outcomes| && run.outcomes[|constructors|].Done?
    ensures run.Completed? && run.outcomes[|constructors|].value == Int(0) ==>
      ReportsThrough(|AllDefinitions(modules)| + 1, Log(run), Listing(AllDefinitions(modules)), b + 1,
                     S.NonNegative(maxDistance), storage, fs)
    ensures run.Completed? && run.outcomes[|constructors|].value != Int(0) ==> storage == []
    ensures run.Interrupted? ==> storage == []
  {
    hide C.Instruments, C.Unreported, Linked, ListedNodes, Links, Legal, IsRun, Returns, Passed, ReportsThrough,
         LastDefines, Testable, AllDefinitions, ModuleParts, Link, Numbering, Reported, S.NonNegative;
    var instrumentation := new Instrumentation();
    var instrumented := instrumentation.InstrumentProgram(modules);
    var ds := AllDefinitions(modules);
    run := process(Link(AllDefinitions(instrumented)));
    ghost var s := Machine(whole, cells, operations, Numbering(ds));
    ghost var t := Machine(Link(Instrumented(ds, 1)), cells, operations, map[]);
    ProgramInstruments(modules, whole, t, s);
    var functions := NodesOf(instrumentation.functions, ds);
    assert |functions| == |ds| + 1;
    storage, fs := OriginalTest(functions, ds, b, constructors, driver, destructors, run, maxDistance, t, s, memory,
                                |functions|);
  }

  method NodesOf(names: seq<Option<string>>, ghost ds: seq<Symbol>) returns (functions: seq<CallTreeFunction>)
    requires names == Listing(ds)
    ensures ListedNodes(functions, ds) && |functions| == |names|
  {
    functions := seq(|names|, k requires 0 <= k < |names| => CallTreeFunction(names[k], null));
    assert Names(functions) == names;
  }

  lemma ProgramInstruments(modules: seq<BitcodeModule>, whole: Module, t: Machine, s: Machine)
    requires LastDefines(modules) && Links(whole, ModuleParts(modules)) && Testable(AllDefinitions(modules))
    requires s.functions == whole && s.traced == Numbering(AllDefinitions(modules))
    requires t == s.(functions := Link(Instrumented(AllDefinitions(modules), 1)), traced := map[])
    ensures C.Instruments(t, s) && Linked(s, AllDefinitions(modules))
  {
    hide C.Instruments, Links;
    LinkLinks(modules);
    LinksUnique(whole, Link(AllDefinitions(modules)), ModuleParts(modules));
    ListingInstruments(AllDefinitions(modules), Instrumented(AllDefinitions(modules), 1), t, s);
  }

  /** Listed functions are defined under names of their own, and nothing jumps to an entry block. */
  ghost predicate Testable(ds: seq<Symbol>) {
    DistinctlyNamed(ds) && forall k :: 0 <= k < |ds| ==> C.EntryNotTargeted(ds[k].function_.blocks)
  }

  /** If the body never ran, no chain leads through it. */
  lemma NeverThrough(n: nat, log: seq<Event>, b: nat)
    requires Legal(n, log) && !HasEntered(log, b)
    ensures forall f :: Steps(n, log, b, f) == None
  {
    forall f ensures Steps(n, log, b, f) == None {
      ThroughLater(n, log, b, f);
    }
  }

  /** A chain through `b` starts at a function first entered after `b`. */
  lemma {:induction false} ThroughLater(n: nat, log: seq<Event>, b: nat, f: nat)
    requires Legal(n, log)
    ensures Steps(n, log, b, f) != None ==>
      && HasEntered(log, b) && HasEntered(log, f)
      && (f != b ==> First(log, b) < First(log, f) && !RootEntered(n, log, f))
    decreases if HasEntered(log, f) then First(log, f) else 0
  {
    if HasEntered(log, f) && f != b && !RootEntered(n, log, f) {
      ThroughLater(n, log, b, FirstCaller(n, log, f));
    }
  }

  // ---- Reported and called ----------------------------------------------------------------------------

  /** What a log does to a stack it does to any deeper one. */
  lemma {:induction false} StackFrame(base: seq<nat>, stack: seq<nat>, log: seq<Event>)
    requires C.OpenCalls(stack, log) != []
    ensures C.OpenCalls(base + stack, log) == [base + C.OpenCalls(stack, log)[0]]
    decreases |log|
  {
    if log != [] {
      match log[0]
      case Entered(index) =>
        assert (base + stack) + [index] == base + (stack + [index]);
        StackFrame(base, stack + [index], log[1..]);
      case Left(index) =>
        assert (base + stack)[..|base + stack| - 1] == base + stack[..|stack| - 1];
        StackFrame(base, stack[..|stack| - 1], log[1..]);
    }
  }

  /** Every open call was entered. */
  lemma {:induction false} OpenWereEntered(stack: seq<nat>, log: seq<Event>, f: nat)
    requires C.OpenCalls(stack, log) != [] && f in C.OpenCalls(stack, log)[0]
    ensures f in stack || HasEntered(log, f)
    decreases |log|
  {
    if log != [] {
      match log[0]
      case Entered(index) => OpenWereEntered(stack + [index], log[1..], f);
      case Left(index) => OpenWereEntered(stack[..|stack| - 1], log[1..], f);
    }
  }

  /** A call of `b` with the events `inner`. */
  ghost predicate CallOf(log: seq<Event>, b: nat, before: seq<Event>, inner: seq<Event>, after: seq<Event>) {
    log == before + [Entered(b)] + inner + [Left(b)] + after && C.Bracketed(inner)
  }

  /** The body is entered once, by that call. */
  ghost predicate BodyCall(log: seq<Event>, b: nat, before: seq<Event>, inner: seq<Event>, after: seq<Event>) {
    && CallOf(log, b, before, inner, after)
    && !HasEntered(before, b) && !HasEntered(inner, b) && !HasEntered(after, b)
  }

  /** A log that closes the innermost call of a stack does so once, after a bracketed part. */
  lemma {:induction false} CallCloses(stack: seq<nat>, log: seq<Event>, end: seq<nat>) returns (q: nat)
    requires stack != [] && C.OpenCalls(stack, log) == [end] && |end| < |stack|
    ensures q < |log| && log[q] == Left(Top(stack)) && C.Bracketed(log[..q])
    ensures C.OpenCalls(stack[..|stack| - 1], log[q + 1..]) == [end]
    decreases |log|
  {
    hide C.Bracketed;
    match log[0]
    case Left(index) =>
      q := 0;
      C.EmptyBracketed();
      assert log[..0] == [];
    case Entered(index) =>
      var i := CallCloses(stack + [index], log[1..], end);
      var inner, rest := log[1..][..i], log[i + 2..];
      assert rest == log[1..][i + 1..] && (stack + [index])[..|stack|] == stack;
      var j := CallCloses(stack, rest, end);
      q := i + 2 + j;
      C.CallBracketed(index, inner);
      C.BracketedAppend([Entered(index)] + (inner + [Left(index)]), rest[..j]);
      assert log[..q] == [Entered(index)] + (inner + [Left(index)]) + rest[..j];
      assert log[q + 1..] == rest[j + 1..];
  }

  lemma BodyCallAt(log: seq<Event>, p: nat, q: nat, b: nat)
    requires p < q < |log| && log[p] == Entered(b) && log[q] == Left(b) && C.Bracketed(log[p + 1..q])
    requires forall k :: 0 <= k < |log| && k != p ==> log[k] != Entered(b)
    ensures BodyCall(log, b, log[..p], log[p + 1..q], log[q + 1..])
  {
    hide C.Bracketed;
    assert log == log[..p] + [log[p]] + log[p + 1..q] + [log[q]] + log[q + 1..];
  }

  /** In a run whose calls all return, a function that is entered once has one call. */
  lemma {:induction false} BodyCallExists(log: seq<Event>, p: nat, b: nat)
    returns (before: seq<Event>, inner: seq<Event>, after: seq<Event>)
    requires C.OpenCalls([], log) == [[]] && p < |log| && log[p] == Entered(b)
    requires forall k :: 0 <= k < |log| && k != p ==> log[k] != Entered(b)
    ensures BodyCall(log, b, before, inner, after) && |before| == p
  {
    hide BodyCall, C.Bracketed;
    var rest := log[p + 1..];
    var opening := [Entered(b)] + rest;
    assert log == log[..p] + opening && opening[1..] == rest;
    C.OpenCallsAppend([], log[..p], opening);
    var base := C.OpenCalls([], log[..p])[0];
    assert (base + [b])[..|base|] == base;
    var q := CallCloses(base + [b], rest, []);
    assert rest[..q] == log[p + 1..p + 1 + q];
    before, inner, after := log[..p], log[p + 1..p + 1 + q], log[p + 2 + q..];
    BodyCallAt(log, p, p + 1 + q, b);
  }

  /** During the body's call, what is on top of the stack is the body or was entered during it. */
  lemma {:induction false} TopDuringBody(n: nat, log: seq<Event>, b: nat, before: seq<Event>, inner: seq<Event>,
                                         after: seq<Event>, k: nat)
    requires Legal(n, log) && Disciplined(n, log) && CallOf(log, b, before, inner, after)
    requires |before| < k <= |before| + 1 + |inner|
    ensures StackAt(n, log, k) != []
    ensures Top(StackAt(n, log, k)) == b || HasEntered(inner, Top(StackAt(n, log, k)))
  {
    var part := inner[..k - |before| - 1];
    var entry := before + [Entered(b)];
    assert log[..k] == entry + part;
    assert log == log[..k] + log[k..];
    C.OpenCallsAppend([], log[..k], log[k..]);
    C.OpenCallsAppend([], entry, part);
    C.OpenCallsAppend([], before, [Entered(b)]);
    var base := C.OpenCalls([], before)[0] + [b];
    assert [Entered(b)][1..] == [] && C.OpenCalls([], entry) == [base];
    assert inner == part + inner[|part|..];
    C.OpenCallsAppend([], part, inner[|part|..]);
    assert C.OpenCalls([], inner) == [[]];
    StackFrame(base, [], part);
    assert base + [] == base;
    StackIsOpenCalls(n, log[..k]);
    var rest := C.OpenCalls([], part)[0];
    assert StackAt(n, log, k) == base + rest;
    if rest != [] {
      OpenWereEntered([], part, Top(rest));
      assert HasEntered(part, Top(rest)) ==> HasEntered(inner, Top(rest));
    }
  }

  /** Where the parts of the log are. */
  lemma BodyParts(log: seq<Event>, b: nat, before: seq<Event>, inner: seq<Event>, after: seq<Event>)
    requires BodyCall(log, b, before, inner, after)
    ensures |log| == |before| + |inner| + |after| + 2 && !HasEntered(before, b) && !HasEntered(inner, b)
    ensures log[|before|] == Entered(b) && log[|before| + 1 + |inner|] == Left(b)
    ensures forall i :: 0 <= i < |before| ==> log[i] == before[i] && log[i] != Entered(b)
    ensures forall i :: |before| < i < |before| + 1 + |inner| ==> log[i] == inner[i - |before| - 1]
  {
    hide C.Bracketed;
  }

  /** The body is first entered by its call. */
  lemma FirstOfBody(log: seq<Event>, b: nat, before: seq<Event>, inner: seq<Event>, after: seq<Event>)
    requires BodyCall(log, b, before, inner, after)
    ensures HasEntered(log, b) && First(log, b) == |before|
  {
    hide BodyCall;
    BodyParts(log, b, before, inner, after);
    FirstIsLeast(log, b, |before|);
  }

  /** A function entered during the body's call, but not before it, was first entered during it. */
  lemma FirstDuringBody(log: seq<Event>, b: nat, before: seq<Event>, inner: seq<Event>, after: seq<Event>, f: nat)
    requires BodyCall(log, b, before, inner, after)
    ensures HasEntered(inner, f) ==> HasEntered(log, f) && f != b
    ensures HasEntered(inner, f) && !HasEntered(before, f) ==>
      |before| < First(log, f) < |before| + 1 + |inner|
    ensures HasEntered(log, f) && |before| < First(log, f) < |before| + 1 + |inner| ==> HasEntered(inner, f)
    ensures HasEntered(log, f) ==> First(log, f) != |before| + 1 + |inner|
  {
    hide BodyCall;
    var p := |before|;
    BodyParts(log, b, before, inner, after);
    if HasEntered(inner, f) {
      var i :| 0 <= i < |inner| && inner[i] == Entered(f);
      assert log[p + 1 + i] == Entered(f);
      FirstIsLeast(log, f, p + 1 + i);
      var k := First(log, f);
      assert k < p ==> before[k] == Entered(f);
    }
    if HasEntered(log, f) {
      var k := First(log, f);
      assert p < k < p + 1 + |inner| ==> inner[k - p - 1] == Entered(f);
    }
  }

  /** Nothing that the body's call enters was entered earlier, or ever on an empty stack. */
  ghost predicate FreshInBody(n: nat, log: seq<Event>, before: seq<Event>, inner: seq<Event>)
    requires Legal(n, log)
  {
    forall f :: HasEntered(inner, f) ==> !HasEntered(before, f) && !RootEntered(n, log, f)
  }

  /** Nothing that is first entered after the body's call, and never on an empty stack, is first called
      by the body or by something that its call entered. */
  ghost predicate NoneLater(n: nat, log: seq<Event>, b: nat, before: seq<Event>, inner: seq<Event>)
    requires Legal(n, log)
  {
    forall g :: HasEntered(log, g) && !RootEntered(n, log, g) && First(log, g) > |before| + 1 + |inner| ==>
      FirstCaller(n, log, g) != b && !HasEntered(inner, FirstCaller(n, log, g))
  }

  lemma {:induction false} CalledIsThrough(n: nat, log: seq<Event>, b: nat, before: seq<Event>, inner: seq<Event>,
                                           after: seq<Event>, f: nat)
    requires Legal(n, log) && Disciplined(n, log) && BodyCall(log, b, before, inner, after)
    requires FreshInBody(n, log, before, inner) && HasEntered(inner, f)
    ensures HasEntered(log, f) && Steps(n, log, b, f) != None
    decreases if HasEntered(log, f) then First(log, f) else 0
  {
    FirstOfBody(log, b, before, inner, after);
    FirstDuringBody(log, b, before, inner, after, f);
    TopDuringBody(n, log, b, before, inner, after, First(log, f));
    var caller := FirstCaller(n, log, f);
    if caller != b {
      CalledIsThrough(n, log, b, before, inner, after, caller);
    }
  }

  lemma {:induction false} ThroughIsCalled(n: nat, log: seq<Event>, b: nat, before: seq<Event>, inner: seq<Event>,
                                           after: seq<Event>, f: nat)
    requires Legal(n, log) && Disciplined(n, log) && BodyCall(log, b, before, inner, after)
    requires NoneLater(n, log, b, before, inner) && f != b && Steps(n, log, b, f) != None
    ensures HasEntered(inner, f)
    decreases if HasEntered(log, f) then First(log, f) else 0
  {
    ThroughLater(n, log, b, f);
    FirstOfBody(log, b, before, inner, after);
    FirstDuringBody(log, b, before, inner, after, f);
    var caller := FirstCaller(n, log, f);
    if caller != b {
      ThroughIsCalled(n, log, b, before, inner, after, caller);
    }
  }

  /** For a body that is entered once: the functions reported without a limit on the distance are the
      functions entered during its call, if and only if none of those was entered before or on an empty
      stack, and nothing is first called by the body or by one of them after the call. */
  lemma {:induction false} ReportedAreCalled(n: nat, log: seq<Event>, b: nat, before: seq<Event>, inner: seq<Event>,
                                             after: seq<Event>)
    requires Legal(n, log) && Disciplined(n, log) && BodyCall(log, b, before, inner, after)
    ensures (forall f :: f != b && Steps(n, log, b, f) != None <==> HasEntered(inner, f))
       <==> FreshInBody(n, log, before, inner) && NoneLater(n, log, b, before, inner)
  {
    if FreshInBody(n, log, before, inner) && NoneLater(n, log, b, before, inner) {
      forall f ensures f != b && Steps(n, log, b, f) != None <==> HasEntered(inner, f) {
        if HasEntered(inner, f) {
          CalledIsThrough(n, log, b, before, inner, after, f);
        }
        if f != b && Steps(n, log, b, f) != None {
          ThroughIsCalled(n, log, b, before, inner, after, f);
        }
      }
    }
    if forall f :: f != b && Steps(n, log, b, f) != None <==> HasEntered(inner, f) {
      ReportedAreFresh(n, log, b, before, inner, after);
      ReportedAreNotLater(n, log, b, before, inner, after);
    }
  }

  lemma EarlierEntry(log: seq<Event>, b: nat, before: seq<Event>, inner: seq<Event>, after: seq<Event>, f: nat)
    requires BodyCall(log, b, before, inner, after)
    ensures HasEntered(before, f) ==> HasEntered(log, f) && First(log, f) < |before|
  {
    BodyParts(log, b, before, inner, after);
    if HasEntered(before, f) {
      var i :| 0 <= i < |before| && before[i] == Entered(f);
      assert log[i] == Entered(f);
      FirstIsLeast(log, f, i);
    }
  }

  lemma {:induction false} ReportedAreFresh(n: nat, log: seq<Event>, b: nat, before: seq<Event>, inner: seq<Event>,
                                            after: seq<Event>)
    requires Legal(n, log) && BodyCall(log, b, before, inner, after)
    requires forall f :: HasEntered(inner, f) ==> f != b && Steps(n, log, b, f) != None
    ensures FreshInBody(n, log, before, inner)
  {
    forall f | HasEntered(inner, f) ensures !HasEntered(before, f) && !RootEntered(n, log, f) {
      ThroughLater(n, log, b, f);
      FirstOfBody(log, b, before, inner, after);
      EarlierEntry(log, b, before, inner, after, f);
    }
  }

  lemma CallerThrough(n: nat, log: seq<Event>, b: nat, g: nat)
    requires Legal(n, log) && HasEntered(log, g) && g != b && !RootEntered(n, log, g)
    ensures Steps(n, log, b, FirstCaller(n, log, g)) != None ==> Steps(n, log, b, g) != None
  {
  }

  lemma {:induction false} ReportedAreNotLater(n: nat, log: seq<Event>, b: nat, before: seq<Event>, inner: seq<Event>,
                                               after: seq<Event>)
    requires Legal(n, log) && BodyCall(log, b, before, inner, after) && FreshInBody(n, log, before, inner)
    requires forall f :: f != b && Steps(n, log, b, f) != None <==> HasEntered(inner, f)
    ensures NoneLater(n, log, b, before, inner)
  {
    forall g | HasEntered(log, g) && !RootEntered(n, log, g) && First(log, g) > |before| + 1 + |inner|
      ensures FirstCaller(n, log, g) != b && !HasEntered(inner, FirstCaller(n, log, g))
    {
      var caller := FirstCaller(n, log, g);
      FirstDuringBody(log, b, before, inner, after, g);
      FirstOfBody(log, b, before, inner, after);
      assert Steps(n, log, b, b) != None;
      CallerThrough(n, log, b, g);
    }
  }

  /** If the whole run is one call of the body, which may call itself, everything it enters is reported. */
  lemma {:induction false} WholeRunIsReported(n: nat, log: seq<Event>, b: nat, inner: seq<Event>, f: nat)
    requires Legal(n, log) && Disciplined(n, log) && CallOf(log, b, [], inner, []) && HasEntered(log, f)
    ensures Steps(n, log, b, f) != None
    decreases First(log, f)
  {
    if f != b {
      assert log[0] == Entered(b);
      forall k | 0 < k < |log| ensures StackAt(n, log, k) != [] {
        TopDuringBody(n, log, b, [], inner, [], k);
      }
      assert !RootEntered(n, log, f);
      WholeRunIsReported(n, log, b, inner, FirstCaller(n, log, f));
    }
  }

  // ---- Two runs on which the report differs from the calls ----------------------------------------------

  lemma OneEntry(f: nat)
    ensures C.Bracketed([Entered(f), Left(f)])
  {
    C.EmptyBracketed();
    C.CallBracketed(f, []);
    assert [Entered(f)] + ([] + [Left(f)]) == [Entered(f), Left(f)];
  }

  lemma TwoCalls(f: nat, inner: seq<Event>, g: nat, inner': seq<Event>) returns (log: seq<Event>)
    requires C.Bracketed(inner) && C.Bracketed(inner')
    ensures log == [Entered(f)] + (inner + [Left(f)]) + ([Entered(g)] + (inner' + [Left(g)])) && C.Bracketed(log)
  {
    C.CallBracketed(f, inner);
    C.CallBracketed(g, inner');
    var first, second := [Entered(f)] + (inner + [Left(f)]), [Entered(g)] + (inner' + [Left(g)]);
    C.BracketedAppend(first, second);
    log := first + second;
  }

  lemma ConstructorRun(log: seq<Event>)
    requires log == [Entered(1), Entered(2), Left(2), Left(1), Entered(3), Entered(2), Left(2), Left(3)]
    ensures C.Bracketed(log) && BodyCall(log, 3, log[..4], [Entered(2), Left(2)], []) && HasEntered(log, 2)
  {
    hide C.Bracketed, C.OpenCalls;
    var inner := [Entered(2), Left(2)];
    OneEntry(2);
    var calls := TwoCalls(1, inner, 3, inner);
    assert log == calls && log[1] == Entered(2);
    assert log == log[..4] + [Entered(3)] + inner + [Left(3)] + [];
  }

  /** A constructor 1 calls a helper 2; then the body 3 calls it too. The helper is not reported. */
  lemma HelperOfConstructor()
    ensures var log := [Entered(1), Entered(2), Left(2), Left(1), Entered(3), Entered(2), Left(2), Left(3)];
      && LeavesForest(4, log) && Disciplined(4, log)
      && BodyCall(log, 3, log[..4], [Entered(2), Left(2)], []) && Steps(4, log, 3, 2) == None
  {
    hide *;
    var log := [Entered(1), Entered(2), Left(2), Left(1), Entered(3), Entered(2), Left(2), Left(3)];
    ConstructorRun(log);
    BracketedLeavesForest(4, log);
    FirstIsLeast(log, 2, 1);
    FirstOfBody(log, 3, log[..4], [Entered(2), Left(2)], []);
    ForestIsLegal(4, log);
    ThroughLater(4, log, 3, 2);
  }

  lemma ForestIsLegal(n: nat, log: seq<Event>)
    requires LeavesForest(n, log)
    ensures Legal(n, log)
  {
  }

  lemma DestructorRun(log: seq<Event>)
    requires log == [Entered(3), Entered(2), Left(2), Left(3), Entered(1), Entered(2), Entered(4),
                     Left(4), Left(2), Left(1)]
    ensures C.Bracketed(log) && BodyCall(log, 3, [], [Entered(2), Left(2)], log[4..])
  {
    hide C.Bracketed, C.OpenCalls;
    var inner, deep := [Entered(2), Left(2)], [Entered(4), Left(4)];
    OneEntry(2);
    OneEntry(4);
    C.CallBracketed(2, deep);
    var calls := TwoCalls(3, inner, 1, [Entered(2)] + (deep + [Left(2)]));
    assert log == calls;
    assert log == [] + [Entered(3)] + inner + [Left(3)] + log[4..];
  }

  /** The body 3 calls a helper 2; afterwards a destructor 1 calls it again, and now it calls 4. The body
      never calls 4, and 4 is reported. */
  lemma HelperOfDestructor()
    ensures var log := [Entered(3), Entered(2), Left(2), Left(3), Entered(1), Entered(2), Entered(4),
                        Left(4), Left(2), Left(1)];
      && LeavesForest(5, log) && Disciplined(5, log)
      && BodyCall(log, 3, [], [Entered(2), Left(2)], log[4..]) && Steps(5, log, 3, 4) == Some(2)
  {
    hide *;
    var log := [Entered(3), Entered(2), Left(2), Left(3), Entered(1), Entered(2), Entered(4),
                Left(4), Left(2), Left(1)];
    DestructorRun(log);
    BracketedLeavesForest(5, log);
    ForestIsLegal(5, log);
    StacksOfDestructor(log);
    StepsOfDestructor(log);
  }

  lemma StackNext(n: nat, log: seq<Event>, k: nat)
    requires Legal(n, log) && k < |log|
    ensures StackAt(n, log, k + 1)
         == match log[k]
            case Entered(f) => StackAt(n, log, k) + [f]
            case Left(_) => (var stack := StackAt(n, log, k); if stack == [] then [] else stack[..|stack| - 1])
  {
    LegalPrefix(n, log, k + 1);
    assert log[..k + 1][..k] == log[..k];
  }

  lemma StacksOfDestructor(log: seq<Event>)
    requires log == [Entered(3), Entered(2), Left(2), Left(3), Entered(1), Entered(2), Entered(4),
                     Left(4), Left(2), Left(1)]
    requires Legal(5, log)
    ensures StackAt(5, log, 1) == [3] && StackAt(5, log, 5) == [1] && StackAt(5, log, 6) == [1, 2]
  {
    assert StackAt(5, log, 0) == [] by {
      assert log[..0] == [];
    }
    hide Legal, StackAt;
    StackNext(5, log, 0);
    StackNext(5, log, 1);
    StackNext(5, log, 2);
    StackNext(5, log, 3);
    StackNext(5, log, 4);
    StackNext(5, log, 5);
  }

  lemma StepsOfDestructor(log: seq<Event>)
    requires log == [Entered(3), Entered(2), Left(2), Left(3), Entered(1), Entered(2), Entered(4),
                     Left(4), Left(2), Left(1)]
    requires Legal(5, log)
    requires StackAt(5, log, 1) == [3] && StackAt(5, log, 5) == [1] && StackAt(5, log, 6) == [1, 2]
    ensures Steps(5, log, 3, 4) == Some(2)
  {
    assert log[0] == Entered(3) && log[1] == Entered(2) && log[6] == Entered(4);
    assert First(log, 2) == 1 && First(log, 4) == 6 by {
      FirstIsLeast(log, 2, 1);
      FirstIsLeast(log, 4, 6);
    }
    assert !RootEntered(5, log, 2) && !RootEntered(5, log, 4);
    assert Steps(5, log, 3, 3) == Some(0);
    assert Steps(5, log, 3, 2) == Some(1);
  }
}
