/** Trampolines and the loop that runs every mutant against its tests. */
module MutantExecution {
  import opened IR
  import opened MutationPoints
  import opened Wrappers
  import opened Schemata
  import P = MutantPreparation

  datatype ExecutionStatus =
    | Invalid | Failed | Passed | Timedout | Crashed | AbnormalExit | DryRun | FailFast

  datatype MutationResult = MutationResult(status: ExecutionStatus, mutationPoint: string, distance: int, test: Test)

  /** A test run, under given trampolines, in a sandbox that leaves the caller's memory alone. */
  type Runner = (Cells, Test) -> ExecutionStatus

  datatype Cell = Uninitialised | Address(symbol: string)

  class Trampolines {
    const trampolineNames: seq<string>
    var cells: map<string, Cell>

    constructor (trampolineNames: seq<string>)
      ensures this.trampolineNames == trampolineNames && cells == map[]
    {
      this.trampolineNames := trampolineNames;
      cells := map[];
    }

    /** One cell per name; a name that already has one keeps it. */
    method AllocateTrampolines()
      modifies this`cells
      ensures cells.Keys == old(cells.Keys) + set n | n in trampolineNames
      ensures forall n :: n in cells ==> cells[n] == if n in old(cells) then old(cells[n]) else Uninitialised
    {
      for k := 0 to |trampolineNames|
        invariant cells.Keys == old(cells.Keys) + set n | n in trampolineNames[..k]
        invariant forall n :: n in cells ==> cells[n] == if n in old(cells) then old(cells[n]) else Uninitialised
      {
        var name := trampolineNames[k];
        assert trampolineNames[..k + 1] == trampolineNames[..k] + [name];
        if name !in cells {
          cells := cells[name := Uninitialised];
        }
      }
      assert trampolineNames[..|trampolineNames|] == trampolineNames;
    }

    /** Every cell gets the address of the original its name stands for; the linked program must
        hold them all. */
    method FixupOriginalFunctions(symbols: set<string>)
      requires forall n :: n in cells ==> OriginalOfTrampoline(n) in symbols
      modifies this`cells
      ensures cells == map n | n in old(cells) :: Address(OriginalOfTrampoline(n))
    {
      var names := cells.Keys;
      while names != {}
        invariant cells.Keys == old(cells.Keys) && names <= cells.Keys
        invariant forall n :: n in cells && n !in names ==> cells[n] == Address(OriginalOfTrampoline(n))
      {
        var name :| name in names;
        cells := cells[name := Address(OriginalOfTrampoline(name))];
        names := names - {name};
      }
    }

    function Find(name: string): Option<Cell>
      reads this
    {
      if name in cells then Some(cells[name]) else None
    }
  }

  /** What running code reads from the cells. */
  function Contents(cells: map<string, Cell>): Cells {
    map n | n in cells && cells[n].Address? :: cells[n].symbol
  }

  // ---- Specification of the execution loop --------------------------------------------------

  /** The results of one mutant, test by test; once a test did not pass, fail-fast skips the rest. */
  function TestResults(runner: Runner, failFast: bool, id: string, cells: Cells,
                       tests: seq<(Test, int)>, failed: bool): (results: seq<MutationResult>)
  {
    if tests == [] then []
    else
      var (test, distance) := tests[0];
      var status := if failFast && failed then FailFast else runner(cells, test);
      [MutationResult(status, id, distance, test)]
      + TestResults(runner, failFast, id, cells, tests[1..], failed || status != Passed)
  }

  /** What the loop reads of a mutation point. */
  datatype Mutant = Mutant(trampoline: string, identifier: string, tests: seq<(Test, int)>)

  function View(point: MutationPoint): (mutant: Mutant)
    reads point
    ensures mutant.trampoline == point.originalFunction + "_" + point.bitcode + "_trampoline"
    ensures mutant.identifier == point.uniqueIdentifier && mutant.tests == point.reachableTests
  {
    Mutant(TrampolineName(point.originalFunction, point.bitcode), point.uniqueIdentifier, point.reachableTests)
  }

  function Views(points: seq<MutationPoint>): (mutants: seq<Mutant>)
    reads points
    ensures |mutants| == |points| && forall i :: 0 <= i < |points| ==> mutants[i] == View(points[i])
  {
    seq(|points|, i requires 0 <= i < |points| reads points => View(points[i]))
  }

  function MutantResults(runner: Runner, failFast: bool, cells: Cells, mutant: Mutant): seq<MutationResult> {
    TestResults(runner, failFast, mutant.identifier,
                cells[mutant.trampoline := mutant.identifier], mutant.tests, false)
  }

  /** Every mutant on its own, in order. */
  function AllResults(runner: Runner, failFast: bool, cells: Cells, mutants: seq<Mutant>): seq<MutationResult> {
    if mutants == [] then []
    else
      AllResults(runner, failFast, cells, mutants[..|mutants| - 1])
      + MutantResults(runner, failFast, cells, mutants[|mutants| - 1])
  }

  /** How many tests the mutants are to be run against. */
  function TestCount(mutants: seq<Mutant>): nat {
    if mutants == [] then 0 else TestCount(mutants[..|mutants| - 1]) + |mutants[|mutants| - 1].tests|
  }

  lemma AllResultsNext(runner: Runner, failFast: bool, cells: Cells, mutants: seq<Mutant>, i: nat)
    requires i < |mutants|
    ensures AllResults(runner, failFast, cells, mutants[..i + 1])
         == AllResults(runner, failFast, cells, mutants[..i])
            + MutantResults(runner, failFast, cells, mutants[i])
  {
    assert mutants[..i + 1][..i] == mutants[..i];
  }

  /** Whether some test has failed once `tests` are done. */
  predicate FailedAfter(runner: Runner, failFast: bool, cells: Cells, tests: seq<(Test, int)>, failed: bool) {
    if tests == [] then failed
    else
      var status := if failFast && failed then FailFast else runner(cells, tests[0].0);
      FailedAfter(runner, failFast, cells, tests[1..], failed || status != Passed)
  }

  /** One more test. */
  lemma {:induction false} FailedAfterSnoc(runner: Runner, failFast: bool, cells: Cells,
                                           tests: seq<(Test, int)>, next: (Test, int), failed: bool)
    ensures FailedAfter(runner, failFast, cells, tests + [next], failed)
         == FailedAfter(runner, failFast, cells, [next], FailedAfter(runner, failFast, cells, tests, failed))
  {
    if tests == [] {
      assert tests + [next] == [next];
    } else {
      var status := if failFast && failed then FailFast else runner(cells, tests[0].0);
      FailedAfterSnoc(runner, failFast, cells, tests[1..], next, failed || status != Passed);
      assert (tests + [next])[1..] == tests[1..] + [next];
    }
  }

  lemma TestResultsNil(runner: Runner, failFast: bool, id: string, cells: Cells, failed: bool)
    ensures TestResults(runner, failFast, id, cells, [], failed) == []
    ensures FailedAfter(runner, failFast, cells, [], failed) == failed
  {
  }

  lemma TestResultsCons(runner: Runner, failFast: bool, id: string, cells: Cells, tests: seq<(Test, int)>, failed: bool)
    requires tests != []
    ensures var status := if failFast && failed then FailFast else runner(cells, tests[0].0);
      && TestResults(runner, failFast, id, cells, tests, failed)
         == [MutationResult(status, id, tests[0].1, tests[0].0)]
            + TestResults(runner, failFast, id, cells, tests[1..], failed || status != Passed)
      && FailedAfter(runner, failFast, cells, tests, failed)
         == FailedAfter(runner, failFast, cells, tests[1..], failed || status != Passed)
  {
  }

  lemma {:induction false} TestResultsSnoc(runner: Runner, failFast: bool, id: string, cells: Cells,
                                           tests: seq<(Test, int)>, next: (Test, int), failed: bool)
    ensures TestResults(runner, failFast, id, cells, tests + [next], failed)
         == TestResults(runner, failFast, id, cells, tests, failed)
            + TestResults(runner, failFast, id, cells, [next], FailedAfter(runner, failFast, cells, tests, failed))
  {
    hide TestResults, FailedAfter;
    if tests == [] {
      TestResultsNil(runner, failFast, id, cells, failed);
      assert tests + [next] == [next];
    } else {
      TestResultsCons(runner, failFast, id, cells, tests, failed);
      TestResultsCons(runner, failFast, id, cells, tests + [next], failed);
      assert (tests + [next])[1..] == tests[1..] + [next];
      var status := if failFast && failed then FailFast else runner(cells, tests[0].0);
      TestResultsSnoc(runner, failFast, id, cells, tests[1..], next, failed || status != Passed);
    }
  }

  // ---- The execution loop -------------------------------------------------------------------

  /** The tests of one mutant, in order, under the trampolines as they are. */
  method RunTests(point: MutationPoint, cells: Cells, runner: Runner, failFast: bool, storage: seq<MutationResult>)
    returns (results: seq<MutationResult>)
    ensures results
         == storage + TestResults(runner, failFast, point.uniqueIdentifier, cells, point.reachableTests, false)
  {
    results := storage;
    var atLeastOneTestFailed := false;
    var tests := point.reachableTests;
    for k := 0 to |tests|
      invariant results == storage + TestResults(runner, failFast, point.uniqueIdentifier, cells, tests[..k], false)
      invariant atLeastOneTestFailed == FailedAfter(runner, failFast, cells, tests[..k], false)
    {
      var (test, distance) := tests[k];
      var status;
      TestResultsSnoc(runner, failFast, point.uniqueIdentifier, cells, tests[..k], tests[k], false);
      FailedAfterSnoc(runner, failFast, cells, tests[..k], tests[k], false);
      assert tests[..k + 1] == tests[..k] + [tests[k]];
      assert TestResults(runner, failFast, point.uniqueIdentifier, cells, [tests[k]], atLeastOneTestFailed)
          == [MutationResult(if failFast && atLeastOneTestFailed then FailFast else runner(cells, test),
                             point.uniqueIdentifier, distance, test)];
      if failFast && atLeastOneTestFailed {
        status := FailFast;
      } else {
        status := runner(cells, test);
        if status != Passed {
          atLeastOneTestFailed := true;
        }
      }
      results := results + [MutationResult(status, point.uniqueIdentifier, distance, test)];
    }
    assert tests[..|tests|] == tests;
  }

  /** Redirects, runs and restores, one mutant after the other. Every mutant runs with only its
      own trampoline moved, and the trampolines end up as they were. */
  method RunMutants(points: seq<MutationPoint>, trampolines: Trampolines, runner: Runner,
                    failFast: bool, storage: seq<MutationResult>) returns (results: seq<MutationResult>)
    requires forall i :: 0 <= i < |points| ==> View(points[i]).trampoline in trampolines.cells
    modifies trampolines`cells
    ensures trampolines.cells == old(trampolines.cells)
    ensures results == storage + AllResults(runner, failFast, Contents(trampolines.cells),
                                            Views(points))
  {
    hide TestResults, Contents;
    results := storage;
    ghost var start := trampolines.cells;
    ghost var mutants := Views(points);
    for i := 0 to |points|
      invariant trampolines.cells == start
      invariant results == storage + AllResults(runner, failFast, Contents(start), mutants[..i])
    {
      var point := points[i];
      var name := TrampolineName(point.originalFunction, point.bitcode);
      var originalAddress := trampolines.Find(name).value;
      trampolines.cells := trampolines.cells[name := Address(point.uniqueIdentifier)];
      ContentsUpdate(start, name, point.uniqueIdentifier);
      results := RunTests(point, Contents(trampolines.cells), runner, failFast, results);
      trampolines.cells := trampolines.cells[name := originalAddress];
      AllResultsNext(runner, failFast, Contents(start), mutants, i);
      assert View(point) == mutants[i];
    }
    assert mutants[..|points|] == mutants;
  }

  lemma ContentsUpdate(cells: map<string, Cell>, name: string, symbol: string)
    ensures Contents(cells[name := Address(symbol)]) == Contents(cells)[name := symbol]
  {
  }

  // ---- What the results mean ----------------------------------------------------------------

  /** One result per test, in order. */
  lemma {:induction false} TestResultAt(runner: Runner, failFast: bool, id: string, cells: Cells,
                                        tests: seq<(Test, int)>, failed: bool, k: nat)
    requires k < |tests|
    ensures var results := TestResults(runner, failFast, id, cells, tests, failed);
      && |results| == |tests|
      && results[k] == MutationResult(if failFast && FailedAfter(runner, failFast, cells, tests[..k], failed)
                                      then FailFast else runner(cells, tests[k].0), id, tests[k].1, tests[k].0)
  {
    var status := if failFast && failed then FailFast else runner(cells, tests[0].0);
    if k > 0 {
      TestResultAt(runner, failFast, id, cells, tests[1..], failed || status != Passed, k - 1);
      assert tests[..k][1..] == tests[1..][..k - 1];
    } else if |tests| > 1 {
      TestResultAt(runner, failFast, id, cells, tests[1..], failed || status != Passed, 0);
    }
  }

  /** The flag is up exactly when some earlier test of the mutant did not pass. */
  lemma {:induction false} FailedAfterMeans(runner: Runner, failFast: bool, id: string, cells: Cells,
                                            tests: seq<(Test, int)>, k: nat)
    requires k <= |tests| && |TestResults(runner, failFast, id, cells, tests, false)| == |tests|
    ensures FailedAfter(runner, failFast, cells, tests[..k], false)
       <==> exists j :: 0 <= j < k && TestResults(runner, failFast, id, cells, tests, false)[j].status != Passed
  {
    if k > 0 {
      FailedAfterMeans(runner, failFast, id, cells, tests, k - 1);
      TestResultAt(runner, failFast, id, cells, tests, false, k - 1);
      FailedAfterSnoc(runner, failFast, cells, tests[..k - 1], tests[k - 1], false);
      assert tests[..k] == tests[..k - 1] + [tests[k - 1]];
    }
  }

  /** A test is skipped exactly when fail-fast is on and an earlier test of the mutant did not pass. */
  lemma {:induction false} TestResultsAt(runner: Runner, failFast: bool, id: string, cells: Cells,
                                         tests: seq<(Test, int)>, k: nat)
    requires k < |tests|
    ensures var results := TestResults(runner, failFast, id, cells, tests, false);
      && |results| == |tests|
      && results[k].mutationPoint == id && results[k].test == tests[k].0 && results[k].distance == tests[k].1
      && results[k].status == (if failFast && exists j :: 0 <= j < k && results[j].status != Passed
                               then FailFast else runner(cells, tests[k].0))
  {
    TestResultAt(runner, failFast, id, cells, tests, false, k);
    FailedAfterMeans(runner, failFast, id, cells, tests, k);
  }

  /** One result per mutant and test: mutant by mutant in their order, and test by test. */
  lemma {:induction false} AllResultsAt(runner: Runner, failFast: bool, cells: Cells, mutants: seq<Mutant>, i: nat,
                                        k: nat)
    requires i < |mutants| && k < |mutants[i].tests|
    ensures |AllResults(runner, failFast, cells, mutants)| == TestCount(mutants)
    ensures TestCount(mutants[..i]) + k < TestCount(mutants)
    ensures var (id, cells') := (mutants[i].identifier, cells[mutants[i].trampoline := mutants[i].identifier]);
      && |TestResults(runner, failFast, id, cells', mutants[i].tests, false)| == |mutants[i].tests|
      && AllResults(runner, failFast, cells, mutants)[TestCount(mutants[..i]) + k]
         == TestResults(runner, failFast, id, cells', mutants[i].tests, false)[k]
  {
    var n := |mutants| - 1;
    var last := mutants[n];
    AllResultsLength(runner, failFast, cells, mutants);
    AllResultsLength(runner, failFast, cells, mutants[..n]);
    if i < n {
      assert mutants[..n][..i] == mutants[..i];
      AllResultsAt(runner, failFast, cells, mutants[..n], i, k);
    } else {
      TestResultsLength(runner, failFast, last.identifier, cells[last.trampoline := last.identifier], last.tests);
    }
  }

  lemma TestResultsLength(runner: Runner, failFast: bool, id: string, cells: Cells, tests: seq<(Test, int)>)
    ensures |TestResults(runner, failFast, id, cells, tests, false)| == |tests|
  {
    if tests != [] {
      TestResultAt(runner, failFast, id, cells, tests, false, 0);
    }
  }

  lemma {:induction false} AllResultsLength(runner: Runner, failFast: bool, cells: Cells, mutants: seq<Mutant>)
    ensures |AllResults(runner, failFast, cells, mutants)| == TestCount(mutants)
  {
    if mutants != [] {
      var last := mutants[|mutants| - 1];
      AllResultsLength(runner, failFast, cells, mutants[..|mutants| - 1]);
      TestResultsLength(runner, failFast, last.identifier, cells[last.trampoline := last.identifier], last.tests);
    }
  }

  predicate Killed(results: seq<MutationResult>) {
    exists k :: 0 <= k < |results| && results[k].status != Passed
  }

  /** Fail-fast changes which tests run, never whether the mutant is killed. */
  lemma {:induction false} FailFastKeepsVerdict(runner: Runner, id: string, cells: Cells, tests: seq<(Test, int)>)
    ensures Killed(TestResults(runner, true, id, cells, tests, false))
       <==> Killed(TestResults(runner, false, id, cells, tests, false))
    ensures Killed(TestResults(runner, true, id, cells, tests, false))
       <==> exists k :: 0 <= k < |tests| && runner(cells, tests[k].0) != Passed
  {
    if tests != [] {
      var (test, distance) := tests[0];
      var status := runner(cells, test);
      var result := MutationResult(status, id, distance, test);
      var fast := TestResults(runner, true, id, cells, tests[1..], status != Passed);
      var slow := TestResults(runner, false, id, cells, tests[1..], status != Passed);
      assert TestResults(runner, true, id, cells, tests, false) == [result] + fast;
      assert TestResults(runner, false, id, cells, tests, false) == [result] + slow;
      if status != Passed {
        assert ([result] + fast)[0].status != Passed && ([result] + slow)[0].status != Passed;
      } else {
        FailFastKeepsVerdict(runner, id, cells, tests[1..]);
        KilledTail(result, fast);
        KilledTail(result, slow);
        assert forall k :: 0 <= k < |tests[1..]| ==> tests[1..][k] == tests[k + 1];
      }
    }
  }

  lemma KilledTail(result: MutationResult, rest: seq<MutationResult>)
    requires result.status == Passed
    ensures Killed([result] + rest) <==> Killed(rest)
  {
    if Killed(rest) {
      var k :| 0 <= k < |rest| && rest[k].status != Passed;
      assert ([result] + rest)[k + 1].status != Passed;
    }
  }

  /** `status` reports what the machine does on the test: `verdict` of its outcome, or `hang` if
      it has none. */
  ghost predicate Reports(m: Machine, test: Test, memory: Memory, verdict: Outcome -> ExecutionStatus,
                          hang: ExecutionStatus, status: ExecutionStatus) {
    && (forall r :: Yields(m, test.driver, test.args, memory, r) ==> status == verdict(r))
    && ((forall r :: !Yields(m, test.driver, test.args, memory, r)) ==> status == hang)
  }

  /** The sandbox runs the given module and reports what happens. */
  ghost predicate Faithful(runner: Runner, module_: Module, operations: (nat, seq<Value>) -> int, memory: Memory,
                           verdict: Outcome -> ExecutionStatus, hang: ExecutionStatus) {
    forall cells, test ::
      Reports(Machine(module_, cells, operations, map[]), test, memory, verdict, hang, runner(cells, test))
  }

  /** Every status that the loop records for a mutant, unless skipped by fail-fast, is the status
      of the source program with that mutant's body on that test. */
  lemma {:induction false} ResultsReportMutants(
      before: Module, after: Module, points: set<MutationPoint>, home: Home, cells: Cells, point: MutationPoint,
      runner: Runner, failFast: bool, operations: (nat, seq<Value>) -> int, memory: Memory,
      verdict: Outcome -> ExecutionStatus, hang: ExecutionStatus, tests: seq<(Test, int)>, k: nat)
    requires WellNamed(before, points, home) && Prepared(before, after, points, home)
    requires WellBehaved(before, points, home) && OriginalCells(cells, points, home) && point in points
    requires Faithful(runner, after, operations, memory, verdict, hang)
    requires k < |tests| && CleanStart(points, home, tests[k].0.driver, tests[k].0.args, memory)
    ensures var mutant := Mutant(TrampolineOf(point.originalFunction, home), point.uniqueIdentifier, tests);
      var results := MutantResults(runner, failFast, cells, mutant);
      && |results| == |tests|
      && (|| (failFast && results[k].status == FailFast && exists j :: 0 <= j < k && results[j].status != Passed)
          || Reports(Machine(Mutated(before, point), map[], operations, map[]), tests[k].0, memory, verdict, hang,
                     results[k].status))
  {
    var cells' := Redirect(cells, point, home);
    TestResultsAt(runner, failFast, point.uniqueIdentifier, cells', tests, k);
    var test := tests[k].0;
    var prepared := Machine(after, cells', operations, map[]);
    var source := Machine(Mutated(before, point), map[], operations, map[]);
    assert Reports(prepared, test, memory, verdict, hang, runner(cells', test));
    forall r
      ensures Yields(prepared, test.driver, test.args, memory, r) <==> Yields(source, test.driver, test.args, memory, r)
    {
      MutantMeaning(before, after, points, home, cells, point, operations, map[], test.driver, test.args, memory, r);
    }
  }

  // ---- The start of a worker ------------------------------------------------------------------------

  /** Cells allocated for the mutated functions and fixed up point to the originals. */
  lemma FixedUpCells(cells: map<string, Cell>, points: set<MutationPoint>, home: Home)
    requires forall n :: n in cells ==> cells[n] == Address(OriginalOfTrampoline(n))
    requires forall f :: f in MutatedFunctions(points) ==> TrampolineOf(f, home) in cells
    ensures OriginalCells(Contents(cells), points, home)
  {
    forall f | f in MutatedFunctions(points)
      ensures Contents(cells)[TrampolineOf(f, home)] == OriginalOf(f, home)
    {
      OriginalOfTrampolineName(f, HomeOf(f, home));
    }
  }

  lemma OriginalsLinked(before: Module, after: Module, points: set<MutationPoint>, home: Home, names: set<string>)
    requires Prepared(before, after, points, home)
    requires names == P.Trampolines(MutatedFunctions(points), home)
    ensures forall n :: n in names ==> OriginalOfTrampoline(n) in after
  {
    forall n | n in names ensures OriginalOfTrampoline(n) in after {
      var f :| f in MutatedFunctions(points) && n == TrampolineOf(f, home);
      OriginalOfTrampolineName(f, HomeOf(f, home));
    }
  }

  /** A worker's trampolines, allocated and fixed up against the linked program, point to the originals,
      and every point has one. */
  method StartWorker(names: seq<string>, linked: Module, points: seq<MutationPoint>,
                     ghost whole: Module, ghost home: Home)
    returns (trampolines: Trampolines)
    requires Prepared(whole, linked, P.Set(points), home)
    requires P.Set(names) == P.Trampolines(MutatedFunctions(P.Set(points)), home)
    requires forall p :: p in P.Set(points) ==> HomeOf(p.originalFunction, home) == p.bitcode
    ensures fresh(trampolines) && OriginalCells(Contents(trampolines.cells), P.Set(points), home)
    ensures forall i :: 0 <= i < |points| ==> View(points[i]).trampoline in trampolines.cells
  {
    trampolines := new Trampolines(names);
    trampolines.AllocateTrampolines();
    assert trampolines.cells.Keys == P.Set(names);
    OriginalsLinked(whole, linked, P.Set(points), home, trampolines.cells.Keys);
    trampolines.FixupOriginalFunctions(linked.Keys);
    FixedUpCells(trampolines.cells, P.Set(points), home);
    forall i | 0 <= i < |points| ensures View(points[i]).trampoline in trampolines.cells {
      assert points[i] in P.Set(points) && points[i].originalFunction in MutatedFunctions(P.Set(points));
    }
  }
}
