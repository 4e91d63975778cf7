/**
 Running the mutants: the driver prepares all bitcodes and links them, and the parallel executor runs the
 mutants, every worker with trampolines of its own.
 */
module ParallelMutants {
  import opened IR
  import opened MutationPoints
  import opened Schemata
  import opened TaskExecutor
  import E = MutantExecution
  import P = MutantPreparation

  function MutantJob(runner: E.Runner, failFast: bool, cells: Cells, mutants: seq<E.Mutant>, batches: seq<nat>)
    : Job<E.Mutant, E.MutationResult>
  {
    Job(mutants, (m: E.Mutant) => E.MutantResults(runner, failFast, cells, m), batches, [])
  }

  lemma {:induction false} PerMutant(runner: E.Runner, failFast: bool, cells: Cells, mutants: seq<E.Mutant>,
                                     process: E.Mutant -> seq<E.MutationResult>)
    requires forall m :: process(m) == E.MutantResults(runner, failFast, cells, m)
    ensures PerItem(process, mutants) == E.AllResults(runner, failFast, cells, mutants)
  {
    if mutants != [] {
      PerMutant(runner, failFast, cells, mutants[..|mutants| - 1], process);
    }
  }

  /** Whatever the batches and the interleaving of the workers, the joined results are those of one
      sequential pass over the mutants. */
  lemma {:induction false} ParallelResults(runner: E.Runner, failFast: bool, cells: Cells, mutants: seq<E.Mutant>,
                                           batches: seq<nat>, run: seq<Step>)
    requires var job := MutantJob(runner, failFast, cells, mutants, batches);
      ValidJob(job) && Possible(job, run) && After(job, run).joined
    ensures After(MutantJob(runner, failFast, cells, mutants, batches), run).out
         == E.AllResults(runner, failFast, cells, mutants)
  {
    var job := MutantJob(runner, failFast, cells, mutants, batches);
    OutputIsSequential(job, run);
    PerMutant(runner, failFast, cells, mutants, job.process);
  }

  /** The results of some run of the executor on these mutants. */
  ghost predicate Joins(runner: E.Runner, failFast: bool, cells: Cells, mutants: seq<E.Mutant>, batches: seq<nat>,
                        run: seq<Step>, results: seq<E.MutationResult>)
  {
    var job := MutantJob(runner, failFast, cells, mutants, batches);
    ValidJob(job) && Possible(job, run) && After(job, run).joined && After(job, run).out == results
  }

  /** Prepares all bitcodes and links them. */
  method PrepareAndLink(program: P.Program, points: seq<MutationPoint>, ghost whole: Module, ghost home: Home)
    returns (names: seq<string>, linked: Module)
    requires P.Identified(program) && forall id :: id in program ==> program[id].mutationPoints == map[]
    requires Links(whole, P.Parts(program)) && P.Homed(P.Parts(program), P.Set(points), home)
    requires P.Loaded(P.Parts(program)) && FreshNames(whole, P.Set(points), home)
    requires forall i, j :: 0 <= i < j < |points| ==> points[i] != points[j]
    modifies program.Values, points`mutatedFunction
    ensures Links(linked, P.Parts(program)) && Prepared(whole, linked, P.Set(points), home)
    ensures WellNamed(whole, P.Set(points), home)
    ensures P.Set(names) == P.Trampolines(MutatedFunctions(P.Set(points)), home)
  {
    hide Links, P.Homed, P.Loaded, FreshNames, WellNamed, Prepared;
    ghost var parts := P.Parts(program);
    P.LoadedNames(whole, parts, P.Set(points), home);
    names := P.PrepareMutations(program, points, whole, home);
    P.PreparedApart(whole, parts, P.Parts(program), P.Set(points), home);
    linked := P.LinkProgram(program);
    P.LinkedPrepared(whole, linked, parts, P.Parts(program), P.Set(points), home);
  }

  /** All runs of the executor join to the results of one pass. */
  lemma {:induction false} AllJoin(runner: E.Runner, failFast: bool, cells: Cells, mutants: seq<E.Mutant>)
    ensures forall batches, run, joined :: Joins(runner, failFast, cells, mutants, batches, run, joined) ==>
      joined == E.AllResults(runner, failFast, cells, mutants)
  {
    forall batches, run, joined | Joins(runner, failFast, cells, mutants, batches, run, joined)
      ensures joined == E.AllResults(runner, failFast, cells, mutants)
    {
      ParallelResults(runner, failFast, cells, mutants, batches, run);
    }
  }

  /** From the source program to the results. All bitcodes are prepared and linked into the prepared form
      of the program; a worker's trampolines start at the originals; a worker that runs all mutants returns
      each mutant's own results, in order, and so does any parallel run. */
  method NormalRunMutations(program: P.Program, points: seq<MutationPoint>, runner: E.Runner, failFast: bool,
                            ghost whole: Module, ghost home: Home)
    returns (results: seq<E.MutationResult>, linked: Module, ghost cells: Cells)
    requires P.Identified(program) && forall id :: id in program ==> program[id].mutationPoints == map[]
    requires Links(whole, P.Parts(program)) && P.Homed(P.Parts(program), P.Set(points), home)
    requires P.Loaded(P.Parts(program)) && FreshNames(whole, P.Set(points), home)
    requires forall i, j :: 0 <= i < j < |points| ==> points[i] != points[j]
    modifies program.Values, points`mutatedFunction
    ensures Links(linked, P.Parts(program)) && Prepared(whole, linked, P.Set(points), home)
    ensures WellNamed(whole, P.Set(points), home) && OriginalCells(cells, P.Set(points), home)
    ensures results == E.AllResults(runner, failFast, cells, E.Views(points))
    ensures forall batches, run, joined ::
      Joins(runner, failFast, cells, E.Views(points), batches, run, joined) ==> joined == results
  {
    hide Links, P.Loaded, FreshNames, WellNamed, Prepared, OriginalCells, Joins;
    assert forall p :: p in P.Set(points) ==> HomeOf(p.originalFunction, home) == p.bitcode;
    var names;
    names, linked := PrepareAndLink(program, points, whole, home);
    var trampolines := E.StartWorker(names, linked, points, whole, home);
    cells := E.Contents(trampolines.cells);
    results := E.RunMutants(points, trampolines, runner, failFast, []);
    AllJoin(runner, failFast, cells, E.Views(points));
  }
}
