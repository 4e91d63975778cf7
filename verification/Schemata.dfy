/**
 Mutant schemata. The prepared module keeps every function under its own name but as a stub;
 originals and mutants live under generated names, and trampoline cells choose between them.
 */
module Schemata {
  import opened IR
  import opened Simulation
  import opened MutationPoints

  /** The bitcode that each function of the program is defined in, by its unique identifier. */
  type Home = map<string, string>

  function HomeOf(f: string, home: Home): string {
    if f in home then home[f] else ""
  }

  function TrampolineOf(f: string, home: Home): string {
    TrampolineName(f, HomeOf(f, home))
  }

  function OriginalOf(f: string, home: Home): string {
    OriginalName(f, HomeOf(f, home))
  }

  function MutatedFunctions(points: set<MutationPoint>): set<string> {
    set p | p in points :: p.originalFunction
  }

  function Identifiers(points: set<MutationPoint>): set<string> {
    set p | p in points :: p.uniqueIdentifier
  }

  function Originals(functions: set<string>, home: Home): set<string> {
    set f | f in functions :: OriginalOf(f, home)
  }

  function Generated(points: set<MutationPoint>, home: Home): set<string> {
    Identifiers(points) + Originals(MutatedFunctions(points), home)
  }

  ghost predicate DistinctTrampolines(functions: set<string>, home: Home) {
    forall f, g :: f in functions && g in functions && TrampolineOf(f, home) == TrampolineOf(g, home) ==> f == g
  }

  /** Where no two bitcodes have the same digest, no two functions share their trampoline. */
  lemma DistinctDigests(functions: set<string>, home: Home)
    requires forall f :: f in functions ==> IsBitcodeIdentifier(HomeOf(f, home))
    requires forall f, g :: f in functions && g in functions && Digest(HomeOf(f, home)) == Digest(HomeOf(g, home)) ==>
      HomeOf(f, home) == HomeOf(g, home)
    ensures DistinctTrampolines(functions, home)
  {
    forall f, g | f in functions && g in functions && TrampolineOf(f, home) == TrampolineOf(g, home) ensures f == g {
      var (bitcode, bitcode') := (HomeOf(f, home), HomeOf(g, home));
      StemAndDigest(bitcode);
      StemAndDigest(bitcode');
      SharedTrampoline(f, Stem(bitcode), Digest(bitcode), g, Stem(bitcode'), Digest(bitcode'));
      NamesInjective(f, g, bitcode);
    }
  }

  /** Every point belongs to a defined function, and generated names clash with nothing. */
  ghost predicate FreshNames(module_: Module, points: set<MutationPoint>, home: Home) {
    && (forall p :: p in points ==> p.originalFunction in module_ && module_[p.originalFunction].blocks != [])
    && (forall p, q :: p in points && q in points && p.uniqueIdentifier == q.uniqueIdentifier ==> p == q)
    && Identifiers(points) !! Originals(MutatedFunctions(points), home)
    && module_.Keys !! Generated(points, home)
  }

  /** Besides, every mutated function has a trampoline of its own. */
  ghost predicate WellNamed(module_: Module, points: set<MutationPoint>, home: Home) {
    FreshNames(module_, points, home) && DistinctTrampolines(MutatedFunctions(points), home)
  }

  /** The result of the four preparation phases. */
  ghost predicate Prepared(before: Module, after: Module, points: set<MutationPoint>, home: Home)
  {
    && (forall p :: p in points ==> p.originalFunction in before)
    && after.Keys == before.Keys + Generated(points, home)
    && (forall f :: f in before && f !in MutatedFunctions(points) ==> after[f] == before[f])
    && (forall f {:trigger IsStub(before, after, home, f)} :: f in MutatedFunctions(points) ==>
          IsStub(before, after, home, f))
    && (forall p {:trigger HasMutant(before, after, p)} :: p in points ==> HasMutant(before, after, p))
  }

  /** The function calls through its trampoline, and its body is found under its original's name. */
  ghost predicate IsStub(before: Module, after: Module, home: Home, f: string) {
    && f in before && f in after && OriginalOf(f, home) in after
    && after[f] == Stub(before[f].params, TrampolineOf(f, home)) && after[OriginalOf(f, home)] == before[f]
  }

  ghost predicate HasMutant(before: Module, after: Module, p: MutationPoint) {
    && p.originalFunction in before && p.uniqueIdentifier in after
    && after[p.uniqueIdentifier] == p.mutator(before[p.originalFunction])
  }

  /** Every trampoline points to the original of its function or to one of its mutants. */
  ghost predicate ValidCells(cells: Cells, points: set<MutationPoint>, home: Home) {
    forall f :: f in MutatedFunctions(points) ==>
      var cell := TrampolineOf(f, home);
      && cell in cells
      && (|| cells[cell] == OriginalOf(f, home)
          || exists p :: p in points && p.originalFunction == f && cells[cell] == p.uniqueIdentifier)
  }

  /** The source module with the body each trampoline selects in place of the one it had. */
  ghost function Selected(before: Module, after: Module, points: set<MutationPoint>, home: Home,
                          cells: Cells): Module
    requires ValidCells(cells, points, home)
    requires forall f :: f in MutatedFunctions(points) ==> cells[TrampolineOf(f, home)] in after
  {
    map f | f in before :: if f in MutatedFunctions(points) then after[cells[TrampolineOf(f, home)]] else before[f]
  }

  /** Neither the source nor a mutant mentions a generated name, and mutating keeps the signature. */
  ghost predicate WellBehaved(before: Module, points: set<MutationPoint>, home: Home)
  {
    var hidden := Generated(points, home);
    && (forall p :: p in points ==> p.originalFunction in before)
    && (forall f :: f in before ==> CleanBlocks(hidden, before[f].blocks))
    && (forall p :: p in points ==>
          var mutant := p.mutator(before[p.originalFunction]);
          && CleanBlocks(hidden, mutant.blocks) && mutant.blocks != []
          && mutant.params == before[p.originalFunction].params)
  }

  /** A run starts from arguments and memory that hold no generated name. */
  ghost predicate CleanStart(points: set<MutationPoint>, home: Home,
                             name: string, args: seq<Value>, memory: Memory) {
    var hidden := Generated(points, home);
    name !in hidden && CleanArgs(hidden, args) && CleanMemory(hidden, memory)
  }

  lemma CellTarget(before: Module, after: Module, points: set<MutationPoint>, home: Home, cells: Cells, f: string)
    requires WellNamed(before, points, home) && Prepared(before, after, points, home)
    requires ValidCells(cells, points, home) && f in MutatedFunctions(points)
    ensures var target := cells[TrampolineOf(f, home)];
            && target in Generated(points, home) && target in after
            && (|| (target == OriginalOf(f, home) && after[target] == before[f])
                || exists p :: p in points && p.originalFunction == f && target == p.uniqueIdentifier
                               && after[target] == p.mutator(before[f]))
  {
    assert OriginalOf(f, home) in Originals(MutatedFunctions(points), home) && IsStub(before, after, home, f);
    var target := cells[TrampolineOf(f, home)];
    if target != OriginalOf(f, home) {
      var p :| p in points && p.originalFunction == f && target == p.uniqueIdentifier;
      assert HasMutant(before, after, p);
    }
  }

  lemma CellTargets(before: Module, after: Module, points: set<MutationPoint>, home: Home, cells: Cells)
    requires WellNamed(before, points, home) && Prepared(before, after, points, home)
    requires ValidCells(cells, points, home)
    ensures forall f :: f in MutatedFunctions(points) ==> cells[TrampolineOf(f, home)] in after
  {
    forall f | f in MutatedFunctions(points) ensures cells[TrampolineOf(f, home)] in after {
      CellTarget(before, after, points, home, cells, f);
    }
  }

  lemma {:induction false} PreparedRedirects(
      before: Module, after: Module, points: set<MutationPoint>, home: Home, cells: Cells,
      operations: (nat, seq<Value>) -> int, traced: map<string, nat>)
    requires WellNamed(before, points, home) && Prepared(before, after, points, home)
    requires WellBehaved(before, points, home) && ValidCells(cells, points, home)
    requires traced.Keys !! Generated(points, home)
    requires forall f :: f in MutatedFunctions(points) ==> cells[TrampolineOf(f, home)] in after
    ensures Redirects(Machine(after, cells, operations, traced),
                      Machine(Selected(before, after, points, home, cells), map[], operations, traced),
                      Generated(points, home),
                      map f | f in MutatedFunctions(points) :: TrampolineOf(f, home))
  {
    var hidden := Generated(points, home);
    var s := Selected(before, after, points, home, cells);
    var t := Machine(after, cells, operations, traced);
    forall f | f in s
      ensures CleanBlocks(hidden, s[f].blocks)
      ensures f in MutatedFunctions(points) ==>
                Redirected(t, Machine(s, map[], operations, traced), hidden, f, TrampolineOf(f, home))
    {
      if f in MutatedFunctions(points) {
        assert IsStub(before, after, home, f);
        CellTarget(before, after, points, home, cells, f);
      }
    }
  }

  /** For every setting of the trampolines, the prepared program yields exactly what the source
      program with the selected bodies yields, recursion and self-calls included. */
  lemma {:induction false} PreparedYieldsSelected(
      before: Module, after: Module, points: set<MutationPoint>, home: Home, cells: Cells,
      operations: (nat, seq<Value>) -> int, traced: map<string, nat>,
      name: string, args: seq<Value>, memory: Memory, r: Outcome)
    requires WellNamed(before, points, home) && Prepared(before, after, points, home)
    requires WellBehaved(before, points, home) && ValidCells(cells, points, home)
    requires traced.Keys !! Generated(points, home) && CleanStart(points, home, name, args, memory)
    ensures forall f :: f in MutatedFunctions(points) ==> cells[TrampolineOf(f, home)] in after
    ensures Yields(Machine(after, cells, operations, traced), name, args, memory, r)
       <==> Yields(Machine(Selected(before, after, points, home, cells), map[], operations, traced),
                   name, args, memory, r)
  {
    CellTargets(before, after, points, home, cells);
    PreparedRedirects(before, after, points, home, cells, operations, traced);
    RedirectionPreservesMeaning(
      Machine(after, cells, operations, traced),
      Machine(Selected(before, after, points, home, cells), map[], operations, traced),
      Generated(points, home), map f | f in MutatedFunctions(points) :: TrampolineOf(f, home),
      name, args, memory, r);
  }

  /** The setting in which every trampoline points to the original of its function. */
  ghost predicate OriginalCells(cells: Cells, points: set<MutationPoint>, home: Home) {
    forall f :: f in MutatedFunctions(points) ==>
      TrampolineOf(f, home) in cells && cells[TrampolineOf(f, home)] == OriginalOf(f, home)
  }

  /** With all trampolines at the originals, the prepared program is the source program. */
  lemma {:induction false} UnmutatedMeaning(
      before: Module, after: Module, points: set<MutationPoint>, home: Home, cells: Cells,
      operations: (nat, seq<Value>) -> int, traced: map<string, nat>,
      name: string, args: seq<Value>, memory: Memory, r: Outcome)
    requires WellNamed(before, points, home) && Prepared(before, after, points, home)
    requires WellBehaved(before, points, home) && OriginalCells(cells, points, home)
    requires traced.Keys !! Generated(points, home) && CleanStart(points, home, name, args, memory)
    ensures Yields(Machine(after, cells, operations, traced), name, args, memory, r)
       <==> Yields(Machine(before, map[], operations, traced), name, args, memory, r)
  {
    PreparedYieldsSelected(before, after, points, home, cells, operations, traced, name, args, memory, r);
    assert forall f :: f in MutatedFunctions(points) ==> IsStub(before, after, home, f);
    assert Selected(before, after, points, home, cells) == before;
  }

  /** The trampolines with the one of `point`'s function moved to the point's mutant. */
  function Redirect(cells: Cells, point: MutationPoint, home: Home): Cells {
    cells[TrampolineOf(point.originalFunction, home) := point.uniqueIdentifier]
  }

  /** The source program with the mutated body in place of the original one. */
  function Mutated(source: Module, point: MutationPoint): Module
    requires point.originalFunction in source
  {
    source[point.originalFunction := point.mutator(source[point.originalFunction])]
  }

  /** Redirecting one trampoline leaves the others where they were. */
  lemma RedirectedCells(cells: Cells, points: set<MutationPoint>, home: Home, point: MutationPoint)
    requires OriginalCells(cells, points, home) && point in points
    requires DistinctTrampolines(MutatedFunctions(points), home)
    ensures ValidCells(Redirect(cells, point, home), points, home)
    ensures Redirect(cells, point, home)[TrampolineOf(point.originalFunction, home)] == point.uniqueIdentifier
    ensures forall g :: g in MutatedFunctions(points) && g != point.originalFunction ==>
      Redirect(cells, point, home)[TrampolineOf(g, home)] == OriginalOf(g, home)
  {
    assert point.originalFunction in MutatedFunctions(points);
  }

  lemma SelectedMutant(before: Module, after: Module, points: set<MutationPoint>, home: Home, cells: Cells,
                       point: MutationPoint)
    requires ValidCells(cells, points, home) && point in points && point.originalFunction in before
    requires forall f :: f in MutatedFunctions(points) ==> cells[TrampolineOf(f, home)] in after
    requires cells[TrampolineOf(point.originalFunction, home)] == point.uniqueIdentifier
    requires forall f :: f in MutatedFunctions(points) && f != point.originalFunction && f in before ==>
      after[cells[TrampolineOf(f, home)]] == before[f]
    requires point.originalFunction in MutatedFunctions(points)
    requires point.uniqueIdentifier in after
    requires after[point.uniqueIdentifier] == point.mutator(before[point.originalFunction])
    ensures Selected(before, after, points, home, cells) == Mutated(before, point)
  {
  }

  /** With only `point`'s trampoline moved to its mutant, the prepared program is the source
      program whose function holds the mutated body. */
  lemma {:induction false} MutantMeaning(
      before: Module, after: Module, points: set<MutationPoint>, home: Home, cells: Cells, point: MutationPoint,
      operations: (nat, seq<Value>) -> int, traced: map<string, nat>,
      name: string, args: seq<Value>, memory: Memory, r: Outcome)
    requires WellNamed(before, points, home) && Prepared(before, after, points, home)
    requires WellBehaved(before, points, home) && OriginalCells(cells, points, home) && point in points
    requires traced.Keys !! Generated(points, home) && CleanStart(points, home, name, args, memory)
    ensures Yields(Machine(after, Redirect(cells, point, home), operations, traced), name, args, memory, r)
       <==> Yields(Machine(Mutated(before, point), map[], operations, traced), name, args, memory, r)
  {
    assert HasMutant(before, after, point);
    RedirectedCells(cells, points, home, point);
    var cells' := Redirect(cells, point, home);
    PreparedYieldsSelected(before, after, points, home, cells', operations, traced, name, args, memory, r);
    forall f | f in MutatedFunctions(points) && f != point.originalFunction && f in before
      ensures after[cells'[TrampolineOf(f, home)]] == before[f]
    {
      assert cells'[TrampolineOf(f, home)] == OriginalOf(f, home) && IsStub(before, after, home, f);
    }
    SelectedMutant(before, after, points, home, cells', point);
  }
}
