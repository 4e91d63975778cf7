/** The phases that turn the bitcode modules of a program into their prepared form, in the driver's order. */
module MutantPreparation {
  import opened IR
  import opened Simulation
  import opened MutationPoints
  import opened Wrappers
  import opened Schemata

  /** Cloning adds one copy of its function per point. */
  ghost predicate Cloned(before: Module, after: Module, points: set<MutationPoint>) {
    && after.Keys == before.Keys + Identifiers(points)
    && (forall n :: n in before ==> after[n] == before[n])
    && (forall p :: p in points && p.originalFunction in before && p.uniqueIdentifier in after ==>
          after[p.uniqueIdentifier] == before[p.originalFunction])
  }

  /** Deleting moves the body of each function to its original's name. */
  ghost predicate Deleted(before: Module, after: Module, fs: set<string>, home: Home)
    requires fs <= before.Keys
  {
    && after.Keys == before.Keys + Originals(fs, home)
    && (forall n :: n in before && n !in fs ==> after[n] == before[n])
    && (forall f {:trigger IsMoved(before, after, home, f)} :: f in fs ==> IsMoved(before, after, home, f))
  }

  ghost predicate IsMoved(before: Module, after: Module, home: Home, f: string) {
    && f in before && f in after && OriginalOf(f, home) in after
    && after[f] == Function(before[f].params, []) && after[OriginalOf(f, home)] == before[f]
  }

  /** Inserting a trampoline appends the indirect call to each function. */
  ghost predicate Trampolined(before: Module, after: Module, fs: set<string>, home: Home)
    requires fs <= before.Keys
  {
    && after.Keys == before.Keys
    && (forall n :: n in before && n !in fs ==> after[n] == before[n])
    && (forall f :: f in fs ==> after[f] == WithIndirectCall(before[f], TrampolineOf(f, home)))
  }

  function WithIndirectCall(f: Function, cell: string): Function {
    f.(blocks := f.blocks + Stub(f.params, cell).blocks)
  }

  /** Applying a point rewrites its clone and nothing else. */
  ghost predicate Applied(before: Module, after: Module, points: set<MutationPoint>) {
    && after.Keys == before.Keys
    && (forall n :: n in before && n !in Identifiers(points) ==> after[n] == before[n])
    && (forall p :: p in points && p.uniqueIdentifier in before && p.uniqueIdentifier in after ==>
          after[p.uniqueIdentifier] == p.mutator(before[p.uniqueIdentifier]))
  }

  /** The points belong to functions of one bitcode. */
  ghost predicate BelongTo(points: set<MutationPoint>, home: Home, bitcode: string) {
    forall p :: p in points ==> p.bitcode == bitcode && HomeOf(p.originalFunction, home) == bitcode
  }

  predicate NoneTwice(group: seq<MutationPoint>) {
    forall j, k :: 0 <= j < k < |group| ==> group[j] != group[k]
  }

  class Bitcode {
    const uniqueIdentifier: string
    var functions: Module
    var mutationPoints: map<string, seq<MutationPoint>>

    constructor (stem: string, md5: string, functions: Module)
      ensures uniqueIdentifier == BitcodeIdentifier(stem, md5)
      ensures this.functions == functions && mutationPoints == map[]
    {
      uniqueIdentifier := BitcodeIdentifier(stem, md5);
      this.functions := functions;
      mutationPoints := map[];
    }

    /** The map groups exactly `points` by original function. */
    ghost predicate Groups(points: set<MutationPoint>)
      reads this`mutationPoints
    {
      && (forall f :: f in mutationPoints ==> mutationPoints[f] != [])
      && (forall f, k :: f in mutationPoints && 0 <= k < |mutationPoints[f]| ==>
            mutationPoints[f][k] in points && mutationPoints[f][k].originalFunction == f)
      && (forall p :: p in points ==> p.originalFunction in mutationPoints && p in mutationPoints[p.originalFunction])
    }

    /** No point is in a group twice. */
    ghost predicate Once()
      reads this`mutationPoints
    {
      forall f :: f in mutationPoints ==> NoneTwice(mutationPoints[f])
    }

    lemma GroupKeys(points: set<MutationPoint>)
      requires Groups(points)
      ensures mutationPoints.Keys == MutatedFunctions(points)
    {
      forall f | f in mutationPoints ensures f in MutatedFunctions(points) {
        assert mutationPoints[f][0].originalFunction == f;
      }
    }

    method AddMutation(point: MutationPoint)
      modifies this`mutationPoints
      ensures mutationPoints == old(mutationPoints)[point.originalFunction :=
        (if point.originalFunction in old(mutationPoints)
         then old(mutationPoints)[point.originalFunction]
         else []) + [point]]
    {
      var f := point.originalFunction;
      if f !in mutationPoints {
        mutationPoints := mutationPoints[f := []];
      }
      mutationPoints := mutationPoints[f := mutationPoints[f] + [point]];
    }

    /** Clones every mutated function once per point; the storage gains the trampoline names. */
    method CloneFunctions(ghost points: set<MutationPoint>, ghost home: Home, storage: seq<string>)
      returns (names: seq<string>)
      requires Groups(points) && BelongTo(points, home, uniqueIdentifier) && WellNamed(functions, points, home)
      modifies this`functions, points`mutatedFunction
      ensures Cloned(old(functions), functions, points)
      ensures forall p :: p in points ==> p.mutatedFunction == Some(p.uniqueIdentifier)
      ensures Set(names) == Set(storage) + Trampolines(mutationPoints.Keys, home)
    {
      hide Cloned, WellNamed;
      ghost var before := functions;
      ghost var cloned: set<MutationPoint> := {};
      NoneYet(before, points, home);
      GroupKeys(points);
      names := storage;
      var keys := mutationPoints.Keys;
      while keys != {}
        invariant keys <= mutationPoints.Keys
        invariant cloned == PointsOf(points, mutationPoints.Keys - keys)
        invariant Cloned(before, functions, cloned)
        invariant forall p :: p in cloned ==> p.mutatedFunction == Some(p.uniqueIdentifier)
        invariant Set(names) == Set(storage) + Trampolines(mutationPoints.Keys - keys, home)
      {
        var original :| original in keys;
        var group := mutationPoints[original];
        assert group[0].originalFunction == original && group[0] in points;
        SetAppend(names, TrampolineOf(original, home));
        TrampolinesAdd(mutationPoints.Keys - keys, original, home);
        assert mutationPoints.Keys - (keys - {original}) == (mutationPoints.Keys - keys) + {original};
        names := names + [TrampolineName(group[0].originalFunction, uniqueIdentifier)];
        CloneGroup(original, group, before, cloned, points, home);
        ghost var more := set k | 0 <= k < |group| :: group[k];
        assert more == PointsOf(points, {original});
        cloned := cloned + more;
        keys := keys - {original};
      }
      assert mutationPoints.Keys - keys == mutationPoints.Keys && PointsOf(points, mutationPoints.Keys) == points;
    }

    /** The inner loop: one clone per point of one function. */
    method CloneGroup(original: string, group: seq<MutationPoint>,
                      ghost before: Module, ghost cloned: set<MutationPoint>, ghost points: set<MutationPoint>,
                      ghost home: Home)
      requires WellNamed(before, points, home) && Cloned(before, functions, cloned) && cloned <= points
      requires forall k :: 0 <= k < |group| ==> group[k] in points && group[k].originalFunction == original
      requires original in before
      requires forall p :: p in cloned ==> p.mutatedFunction == Some(p.uniqueIdentifier)
      modifies this`functions, group`mutatedFunction
      ensures Cloned(before, functions, cloned + set k | 0 <= k < |group| :: group[k])
      ensures forall p :: p in cloned ==> p.mutatedFunction == Some(p.uniqueIdentifier)
      ensures forall k :: 0 <= k < |group| ==> group[k].mutatedFunction == Some(group[k].uniqueIdentifier)
    {
      hide Cloned, WellNamed;
      ghost var now := cloned;
      for k := 0 to |group|
        invariant now == cloned + set j | 0 <= j < k :: group[j]
        invariant now <= points
        invariant Cloned(before, functions, now)
        invariant forall p :: p in now ==> p.mutatedFunction == Some(p.uniqueIdentifier)
      {
        var point := group[k];
        CloneOne(before, functions, now, points, point, home);
        functions := functions[point.uniqueIdentifier := functions[original]];
        point.SetMutatedFunction(point.uniqueIdentifier);
        now := now + {point};
      }
    }

    /** Moves every mutated function's body to a function named as its original. */
    method DeleteFunctions(ghost points: set<MutationPoint>, ghost home: Home)
      requires Groups(points) && BelongTo(points, home, uniqueIdentifier) && MutatedFunctions(points) <= functions.Keys
      requires functions.Keys !! Originals(MutatedFunctions(points), home)
      modifies this`functions
      ensures Deleted(old(functions), functions, MutatedFunctions(points), home)
    {
      hide Deleted;
      ghost var before := functions;
      ghost var fs := MutatedFunctions(points);
      GroupKeys(points);
      NoneDeleted(before, home);
      assert fs - fs == {};
      var keys := mutationPoints.Keys;
      while keys != {}
        invariant keys <= fs
        invariant Deleted(before, functions, fs - keys, home)
      {
        var original :| original in keys;
        var anyPoint := mutationPoints[original][0];
        assert anyPoint in points && anyPoint.originalFunction == original;
        DeleteOne(before, functions, fs, fs - keys, original, home, uniqueIdentifier);
        functions := functions[OriginalName(anyPoint.originalFunction, uniqueIdentifier) := functions[original]];
        functions := functions[original := Function(functions[original].params, [])];
        assert fs - (keys - {original}) == (fs - keys) + {original};
        keys := keys - {original};
      }
      assert fs - {} == fs;
    }

    /** Appends to every mutated function a block that calls through its trampoline. */
    method InsertTrampolines(ghost points: set<MutationPoint>, ghost home: Home)
      requires Groups(points) && BelongTo(points, home, uniqueIdentifier) && MutatedFunctions(points) <= functions.Keys
      modifies this`functions
      ensures Trampolined(old(functions), functions, MutatedFunctions(points), home)
    {
      ghost var before := functions;
      ghost var visited: set<string> := {};
      GroupKeys(points);
      var keys := mutationPoints.Keys;
      while keys != {}
        invariant keys <= MutatedFunctions(points) && visited == MutatedFunctions(points) - keys
        invariant Trampolined(before, functions, visited, home)
      {
        var original :| original in keys;
        var anyPoint := mutationPoints[original][0];
        assert anyPoint in points && anyPoint.originalFunction == original;
        var trampoline := TrampolineName(anyPoint.originalFunction, uniqueIdentifier);
        functions := functions[original := WithIndirectCall(functions[original], trampoline)];
        keys := keys - {original};
        visited := visited + {original};
      }
      assert visited == MutatedFunctions(points);
    }
  }

  // ---- One iteration of each phase ----------------------------------------------------------

  function Set<T>(s: seq<T>): set<T> {
    set x | x in s
  }

  lemma SetAppend<T>(s: seq<T>, x: T)
    ensures Set(s + [x]) == Set(s) + {x}
  {
  }

  function PointsOf(points: set<MutationPoint>, fs: set<string>): set<MutationPoint> {
    set p | p in points && p.originalFunction in fs
  }

  function Trampolines(fs: set<string>, home: Home): set<string> {
    set f | f in fs :: TrampolineOf(f, home)
  }

  lemma TrampolinesAdd(fs: set<string>, f: string, home: Home)
    ensures Trampolines(fs + {f}, home) == Trampolines(fs, home) + {TrampolineOf(f, home)}
  {
  }

  lemma NoneYet(before: Module, points: set<MutationPoint>, home: Home)
    requires WellNamed(before, points, home)
    ensures MutatedFunctions(points) <= before.Keys
    ensures Cloned(before, before, {})
  {
  }

  lemma CloneOne(before: Module, now: Module, cloned: set<MutationPoint>, points: set<MutationPoint>,
                 point: MutationPoint, home: Home)
    requires Cloned(before, now, cloned) && cloned <= points && point in points
    requires WellNamed(before, points, home)
    ensures point.originalFunction in now
    ensures Cloned(before, now[point.uniqueIdentifier := now[point.originalFunction]], cloned + {point})
  {
    assert point.uniqueIdentifier in Identifiers(points);
    assert Identifiers(cloned + {point}) == Identifiers(cloned) + {point.uniqueIdentifier};
  }

  lemma NoneDeleted(before: Module, home: Home)
    ensures Deleted(before, before, {}, home)
  {
  }

  lemma OriginalsApart(before: Module, fs: set<string>, f: string, home: Home, bitcode: string)
    requires f in fs && before.Keys !! Originals(fs, home)
    requires forall g :: g in fs ==> HomeOf(g, home) == bitcode
    ensures forall g :: g in fs ==> OriginalOf(g, home) !in before
    ensures forall g :: g in fs && g != f ==> OriginalOf(g, home) != OriginalOf(f, home)
  {
    forall g | g in fs ensures OriginalOf(g, home) !in before {
      assert OriginalOf(g, home) in Originals(fs, home);
    }
    forall g | g in fs && g != f ensures OriginalOf(g, home) != OriginalOf(f, home) {
      NamesInjective(f, g, bitcode);
    }
  }

  lemma DeleteOne(before: Module, now: Module, fs: set<string>, deleted: set<string>, f: string, home: Home,
                  bitcode: string)
    requires deleted <= fs <= before.Keys && f in fs - deleted
    requires forall g :: g in fs ==> HomeOf(g, home) == bitcode
    requires before.Keys !! Originals(fs, home) && Deleted(before, now, deleted, home)
    ensures f in now && OriginalOf(f, home) != f
    ensures Deleted(before, now[OriginalOf(f, home) := now[f]][f := Function(now[f].params, [])],
                    deleted + {f}, home)
  {
    hide OriginalOf, HomeOf;
    assert forall g :: g in deleted ==> IsMoved(before, now, home, g);
    OriginalsApart(before, fs, f, home, bitcode);
    assert Originals(deleted + {f}, home) == Originals(deleted, home) + {OriginalOf(f, home)};
    var now' := now[OriginalOf(f, home) := now[f]][f := Function(now[f].params, [])];
    forall g | g in deleted ensures IsMoved(before, now', home, g) {
      StillMoved(before, now, home, g, f, now[f], Function(now[f].params, []));
    }
    assert IsMoved(before, now', home, f);
  }

  lemma StillMoved(before: Module, now: Module, home: Home, g: string, f: string, original: Function, stub: Function)
    requires IsMoved(before, now, home, g) && f in before && g != f
    requires OriginalOf(f, home) !in before && OriginalOf(g, home) !in before
    requires OriginalOf(g, home) != OriginalOf(f, home)
    ensures IsMoved(before, now[OriginalOf(f, home) := original][f := stub], home, g)
  {
  }

  lemma ApplyOne(before: Module, now: Module, applied: set<MutationPoint>, point: MutationPoint)
    requires Applied(before, now, applied) && point.uniqueIdentifier in before
    requires forall p :: p in applied ==> p.uniqueIdentifier != point.uniqueIdentifier
    ensures point.uniqueIdentifier in now
    ensures Applied(before, now[point.uniqueIdentifier := point.mutator(now[point.uniqueIdentifier])],
                    applied + {point})
  {
    assert Identifiers(applied + {point}) == Identifiers(applied) + {point.uniqueIdentifier};
  }

  // ---- The phases together ------------------------------------------------------------------

  lemma ClonedAt(f0: Module, f1: Module, points: set<MutationPoint>, n: string)
    requires Cloned(f0, f1, points) && n in f0
    ensures n in f1 && f1[n] == f0[n]
  {
  }

  lemma DeletedAt(f1: Module, f2: Module, fs: set<string>, home: Home, n: string)
    requires fs <= f1.Keys && Deleted(f1, f2, fs, home) && n in f1
    ensures n in f2 && f2[n] == if n in fs then Function(f1[n].params, []) else f1[n]
    ensures n in fs ==> OriginalOf(n, home) in f2 && f2[OriginalOf(n, home)] == f1[n]
  {
    assert n in fs ==> IsMoved(f1, f2, home, n);
  }

  lemma TrampolinedAt(f2: Module, f3: Module, fs: set<string>, home: Home, n: string)
    requires fs <= f2.Keys && Trampolined(f2, f3, fs, home) && n in f2
    ensures n in f3 && f3[n] == if n in fs then WithIndirectCall(f2[n], TrampolineOf(n, home)) else f2[n]
  {
  }

  lemma AppliedAt(f3: Module, f4: Module, points: set<MutationPoint>, n: string)
    requires Applied(f3, f4, points) && n in f3 && n !in Identifiers(points)
    ensures n in f4 && f4[n] == f3[n]
  {
  }

  lemma PhasesAtFunction(f0: Module, f1: Module, f2: Module, f3: Module, f4: Module,
                         points: set<MutationPoint>, fs: set<string>, home: Home, f: string)
    requires f in fs && f in f0 && fs <= f1.Keys && Cloned(f0, f1, points)
    requires Deleted(f1, f2, fs, home) && fs <= f2.Keys && Trampolined(f2, f3, fs, home) && Applied(f3, f4, points)
    requires f !in Identifiers(points)
    requires OriginalOf(f, home) !in Identifiers(points) && OriginalOf(f, home) !in fs
    ensures OriginalOf(f, home) in f4 && f4[OriginalOf(f, home)] == f0[f]
    ensures f in f4 && f4[f] == Stub(f0[f].params, TrampolineOf(f, home))
  {
    hide Cloned, Deleted, Trampolined, Applied;
    var original := OriginalOf(f, home);
    ClonedAt(f0, f1, points, f);
    DeletedAt(f1, f2, fs, home, f);
    TrampolinedAt(f2, f3, fs, home, f);
    TrampolinedAt(f2, f3, fs, home, original);
    AppliedAt(f3, f4, points, f);
    AppliedAt(f3, f4, points, original);
    assert f3[f].blocks == Stub(f0[f].params, TrampolineOf(f, home)).blocks;
  }

  lemma PhasesAtPoint(f0: Module, f1: Module, f2: Module, f3: Module, f4: Module,
                      points: set<MutationPoint>, fs: set<string>, home: Home, p: MutationPoint)
    requires p in points && p.originalFunction in f0 && fs <= f1.Keys && Cloned(f0, f1, points)
    requires Deleted(f1, f2, fs, home) && fs <= f2.Keys && Trampolined(f2, f3, fs, home) && Applied(f3, f4, points)
    requires p.uniqueIdentifier !in fs && p.uniqueIdentifier in Identifiers(points)
    ensures p.uniqueIdentifier in f4 && f4[p.uniqueIdentifier] == p.mutator(f0[p.originalFunction])
  {
    hide Deleted, Trampolined;
    assert f1[p.uniqueIdentifier] == f0[p.originalFunction];
    DeletedAt(f1, f2, fs, home, p.uniqueIdentifier);
    TrampolinedAt(f2, f3, fs, home, p.uniqueIdentifier);
  }

  lemma PhasesKeys(f0: Module, f1: Module, f2: Module, f3: Module, f4: Module,
                   points: set<MutationPoint>, fs: set<string>, home: Home)
    requires fs <= f1.Keys && Cloned(f0, f1, points)
    requires Deleted(f1, f2, fs, home) && fs <= f2.Keys && Trampolined(f2, f3, fs, home) && Applied(f3, f4, points)
    ensures f4.Keys == f0.Keys + (Identifiers(points) + Originals(fs, home))
  {
  }

  lemma PhasesElsewhere(f0: Module, f1: Module, f2: Module, f3: Module, f4: Module,
                        points: set<MutationPoint>, fs: set<string>, home: Home, f: string)
    requires f in f0 && f !in fs && f !in Identifiers(points) && fs <= f1.Keys && Cloned(f0, f1, points)
    requires Deleted(f1, f2, fs, home) && fs <= f2.Keys && Trampolined(f2, f3, fs, home) && Applied(f3, f4, points)
    ensures f in f4 && f4[f] == f0[f]
  {
    hide Cloned, Deleted, Trampolined, Applied;
    ClonedAt(f0, f1, points, f);
    DeletedAt(f1, f2, fs, home, f);
    TrampolinedAt(f2, f3, fs, home, f);
    AppliedAt(f3, f4, points, f);
  }

  /** What distinct names give the phases. */
  lemma NamesApart(f0: Module, points: set<MutationPoint>, home: Home)
    requires WellNamed(f0, points, home)
    ensures var fs := MutatedFunctions(points);
      && fs <= f0.Keys && fs !! Identifiers(points) && f0.Keys !! Identifiers(points) && f0.Keys !! Originals(fs, home)
      && (forall f :: f in fs ==> OriginalOf(f, home) !in Identifiers(points) && OriginalOf(f, home) !in fs)
  {
    forall f | f in MutatedFunctions(points)
      ensures OriginalOf(f, home) !in Identifiers(points) && OriginalOf(f, home) !in MutatedFunctions(points)
    {
      assert OriginalOf(f, home) in Originals(MutatedFunctions(points), home);
    }
  }

  /** The four phases compose to the prepared module. */
  lemma {:induction false} PhasesPrepare(f0: Module, f1: Module, f2: Module, f3: Module, f4: Module,
                                         points: set<MutationPoint>, home: Home)
    requires WellNamed(f0, points, home)
    requires var fs := MutatedFunctions(points);
      && fs <= f1.Keys && Cloned(f0, f1, points) && Deleted(f1, f2, fs, home)
      && fs <= f2.Keys && Trampolined(f2, f3, fs, home) && Applied(f3, f4, points)
    ensures Prepared(f0, f4, points, home)
  {
    hide WellNamed, Cloned, Deleted, Trampolined, Applied;
    var fs := MutatedFunctions(points);
    NamesApart(f0, points, home);
    PhasesKeys(f0, f1, f2, f3, f4, points, fs, home);
    forall f | f in f0 && f !in fs ensures f in f4 && f4[f] == f0[f] {
      PhasesElsewhere(f0, f1, f2, f3, f4, points, fs, home, f);
    }
    forall f | f in fs
      ensures OriginalOf(f, home) in f4 && f4[OriginalOf(f, home)] == f0[f]
      ensures f in f4 && f4[f] == Stub(f0[f].params, TrampolineOf(f, home))
    {
      PhasesAtFunction(f0, f1, f2, f3, f4, points, fs, home, f);
    }
    forall p | p in points
      ensures p.uniqueIdentifier in f4 && f4[p.uniqueIdentifier] == p.mutator(f0[p.originalFunction])
    {
      assert p.uniqueIdentifier in Identifiers(points);
      PhasesAtPoint(f0, f1, f2, f3, f4, points, fs, home, p);
    }
  }

  /** After cloning, the originals' names are still free. */
  lemma ReadyToDelete(f0: Module, f1: Module, points: set<MutationPoint>, home: Home)
    requires WellNamed(f0, points, home) && Cloned(f0, f1, points)
    ensures MutatedFunctions(points) <= f1.Keys && f1.Keys !! Originals(MutatedFunctions(points), home)
    ensures MutatedFunctions(points) <= f0.Keys && Identifiers(points) <= f1.Keys
  {
    NamesApart(f0, points, home);
  }

  // ---- A program of several bitcodes --------------------------------------------------------------

  type Program = map<string, Bitcode>

  /** The points of one bitcode. */
  function PointsIn(points: set<MutationPoint>, bitcode: string): set<MutationPoint> {
    set p | p in points && p.bitcode == bitcode
  }

  ghost predicate Identified(program: Program) {
    forall id :: id in program ==> program[id].uniqueIdentifier == id
  }

  /** The functions of every bitcode. */
  function Parts(program: Program): (parts: map<string, Module>)
    reads program.Values
    ensures parts.Keys == program.Keys && forall id :: id in program ==> parts[id] == program[id].functions
  {
    map id | id in program :: program[id].functions
  }

  /** Every function has its home, every point belongs to the bitcode of its function. */
  ghost predicate Homed(parts: map<string, Module>, points: set<MutationPoint>, home: Home) {
    && (forall id, f :: id in parts && f in parts[id] ==> HomeOf(f, home) == id)
    && (forall p :: p in points ==> p.bitcode in parts && p.originalFunction in parts[p.bitcode])
  }

  /** Every identifier ends in the digest of a file, and files with one digest are one file. */
  ghost predicate Loaded(parts: map<string, Module>) {
    && (forall id :: id in parts ==> IsBitcodeIdentifier(id))
    && (forall id, id' :: id in parts && id' in parts && Digest(id) == Digest(id') ==> parts[id] == parts[id'])
  }

  /** Then mutated functions never share a trampoline: one file cannot be linked twice, as both bitcodes
      would define its functions. */
  lemma LoadedNames(whole: Module, parts: map<string, Module>, points: set<MutationPoint>, home: Home)
    requires Loaded(parts) && Homed(parts, points, home) && FreshNames(whole, points, home)
    ensures WellNamed(whole, points, home)
  {
    var fs := MutatedFunctions(points);
    forall f | f in fs ensures HomeOf(f, home) in parts && f in parts[HomeOf(f, home)] {
      var p :| p in points && p.originalFunction == f;
    }
    forall f, g | f in fs && g in fs && Digest(HomeOf(f, home)) == Digest(HomeOf(g, home))
      ensures HomeOf(f, home) == HomeOf(g, home)
    {
      assert parts[HomeOf(f, home)] == parts[HomeOf(g, home)];
    }
    DistinctDigests(fs, home);
  }

  /** What is well named in the whole program is well named in each part. */
  lemma PartWellNamed(whole: Module, parts: map<string, Module>, points: set<MutationPoint>, home: Home, id: string)
    requires Links(whole, parts) && Homed(parts, points, home) && WellNamed(whole, points, home) && id in parts
    ensures WellNamed(parts[id], PointsIn(points, id), home) && BelongTo(PointsIn(points, id), home, id)
  {
    var mine := PointsIn(points, id);
    assert MutatedFunctions(mine) <= MutatedFunctions(points) && Identifiers(mine) <= Identifiers(points);
    assert Originals(MutatedFunctions(mine), home) <= Originals(MutatedFunctions(points), home);
    assert parts[id].Keys <= whole.Keys;
  }

  lemma LinkedFrom(whole: Module, parts: map<string, Module>, f: string) returns (id: string)
    requires Links(whole, parts) && f in whole
    ensures id in parts && f in parts[id] && whole[f] == parts[id][f]
  {
    id :| id in parts && f in parts[id];
  }

  lemma LinkedAs(whole: Module, parts: map<string, Module>, id: string, f: string)
    requires Links(whole, parts) && id in parts && f in parts[id]
    ensures f in whole && whole[f] == parts[id][f]
  {
  }

  /** What a prepared part holds for a function of it. */
  lemma PreparedAt(before: Module, after: Module, points: set<MutationPoint>, home: Home, f: string)
    requires Prepared(before, after, points, home) && f in before
    ensures f in after
    ensures f !in MutatedFunctions(points) ==> after[f] == before[f]
    ensures f in MutatedFunctions(points) ==>
      && after[f] == Stub(before[f].params, TrampolineOf(f, home))
      && OriginalOf(f, home) in after && after[OriginalOf(f, home)] == before[f]
  {
    assert f in MutatedFunctions(points) ==> IsStub(before, after, home, f);
  }

  lemma PreparedMutant(before: Module, after: Module, points: set<MutationPoint>, home: Home, p: MutationPoint)
    requires Prepared(before, after, points, home) && p in points
    ensures p.originalFunction in before && p.uniqueIdentifier in after
    ensures after[p.uniqueIdentifier] == p.mutator(before[p.originalFunction])
  {
    assert HasMutant(before, after, p);
  }

  lemma PreparedName(before: Module, after: Module, points: set<MutationPoint>, home: Home, f: string)
    requires Prepared(before, after, points, home) && f in after
    ensures f in before || f in Generated(points, home)
  {
  }

  lemma MutatedInPart(parts: map<string, Module>, points: set<MutationPoint>, home: Home, id: string, f: string)
    requires Homed(parts, points, home) && id in parts && f in parts[id]
    ensures f in MutatedFunctions(points) <==> f in MutatedFunctions(PointsIn(points, id))
  {
    if f in MutatedFunctions(points) {
      var p :| p in points && p.originalFunction == f;
      assert f in parts[p.bitcode] && HomeOf(f, home) == p.bitcode == id;
      assert p in PointsIn(points, id);
    }
  }

  lemma GeneratedInPart(points: set<MutationPoint>, home: Home, id: string)
    ensures Generated(PointsIn(points, id), home) <= Generated(points, home)
  {
    var mine := PointsIn(points, id);
    assert MutatedFunctions(mine) <= MutatedFunctions(points) && Identifiers(mine) <= Identifiers(points);
    assert Originals(MutatedFunctions(mine), home) <= Originals(MutatedFunctions(points), home);
  }

  lemma LinkedAtFunction(whole: Module, whole': Module, parts: map<string, Module>, parts': map<string, Module>,
                         points: set<MutationPoint>, home: Home, f: string)
    requires Links(whole, parts) && Links(whole', parts') && parts'.Keys == parts.Keys && Homed(parts, points, home)
    requires forall id :: id in parts ==> Prepared(parts[id], parts'[id], PointsIn(points, id), home)
    requires f in whole
    ensures f in whole'
    ensures f !in MutatedFunctions(points) ==> whole'[f] == whole[f]
    ensures f in MutatedFunctions(points) ==>
      && whole'[f] == Stub(whole[f].params, TrampolineOf(f, home))
      && OriginalOf(f, home) in whole' && whole'[OriginalOf(f, home)] == whole[f]
  {
    hide *;
    var id := LinkedFrom(whole, parts, f);
    PreparedAt(parts[id], parts'[id], PointsIn(points, id), home, f);
    MutatedInPart(parts, points, home, id, f);
    LinkedAs(whole', parts', id, f);
    if f in MutatedFunctions(points) {
      LinkedAs(whole', parts', id, OriginalOf(f, home));
    }
  }

  lemma LinkedMutant(whole: Module, whole': Module, parts: map<string, Module>, parts': map<string, Module>,
                     points: set<MutationPoint>, home: Home, p: MutationPoint)
    requires Links(whole, parts) && Links(whole', parts') && parts'.Keys == parts.Keys && p.bitcode in parts
    requires forall id :: id in parts ==> Prepared(parts[id], parts'[id], PointsIn(points, id), home)
    requires p in PointsIn(points, p.bitcode)
    ensures p.originalFunction in whole && p.uniqueIdentifier in whole'
    ensures whole'[p.uniqueIdentifier] == p.mutator(whole[p.originalFunction])
  {
    hide *;
    var id := p.bitcode;
    PreparedMutant(parts[id], parts'[id], PointsIn(points, id), home, p);
    LinkedAs(whole, parts, id, p.originalFunction);
    LinkedAs(whole', parts', id, p.uniqueIdentifier);
  }

  lemma LinkedName(whole: Module, whole': Module, parts: map<string, Module>, parts': map<string, Module>,
                   points: set<MutationPoint>, home: Home, f: string)
    requires Links(whole, parts) && Links(whole', parts') && parts'.Keys == parts.Keys
    requires forall id :: id in parts ==> Prepared(parts[id], parts'[id], PointsIn(points, id), home)
    requires f in whole'
    ensures f in whole || f in Generated(points, home)
  {
    hide *;
    var id := LinkedFrom(whole', parts', f);
    PreparedName(parts[id], parts'[id], PointsIn(points, id), home, f);
    GeneratedInPart(points, home, id);
    if f in parts[id] {
      LinkedAs(whole, parts, id, f);
    }
  }

  /** If every part is prepared, so is the program. */
  lemma {:induction false} LinkedPrepared(whole: Module, whole': Module, parts: map<string, Module>,
                                          parts': map<string, Module>, points: set<MutationPoint>, home: Home)
    requires Links(whole, parts) && Links(whole', parts') && parts'.Keys == parts.Keys && Homed(parts, points, home)
    requires forall id :: id in parts ==> Prepared(parts[id], parts'[id], PointsIn(points, id), home)
    ensures Prepared(whole, whole', points, home)
  {
    hide Links;
    forall f | f in whole
      ensures f in whole'
      ensures f !in MutatedFunctions(points) ==> whole'[f] == whole[f]
      ensures f in MutatedFunctions(points) ==>
        && whole'[f] == Stub(whole[f].params, TrampolineOf(f, home))
        && OriginalOf(f, home) in whole' && whole'[OriginalOf(f, home)] == whole[f]
    {
      LinkedAtFunction(whole, whole', parts, parts', points, home, f);
    }
    forall p | p in points
      ensures p.originalFunction in whole && p.uniqueIdentifier in whole'
      ensures whole'[p.uniqueIdentifier] == p.mutator(whole[p.originalFunction])
    {
      LinkedMutant(whole, whole', parts, parts', points, home, p);
    }
    forall f | f in whole' ensures f in whole || f in Generated(points, home) {
      LinkedName(whole, whole', parts, parts', points, home, f);
    }
    AssemblePrepared(whole, whole', points, home);
  }

  lemma AssemblePrepared(whole: Module, whole': Module, points: set<MutationPoint>, home: Home)
    requires forall p :: p in points ==> p.originalFunction in whole
    requires forall f :: f in whole ==> f in whole' && (f !in MutatedFunctions(points) ==> whole'[f] == whole[f])
    requires forall f :: f in whole && f in MutatedFunctions(points) ==>
      && whole'[f] == Stub(whole[f].params, TrampolineOf(f, home))
      && OriginalOf(f, home) in whole' && whole'[OriginalOf(f, home)] == whole[f]
    requires forall p :: p in points ==>
      p.uniqueIdentifier in whole' && whole'[p.uniqueIdentifier] == p.mutator(whole[p.originalFunction])
    requires forall f :: f in whole' ==> f in whole || f in Generated(points, home)
    ensures Prepared(whole, whole', points, home)
  {
    forall f | f in Generated(points, home) ensures f in whole' {
      if f in Originals(MutatedFunctions(points), home) {
        var g :| g in MutatedFunctions(points) && f == OriginalOf(g, home);
      }
    }
    assert whole'.Keys == whole.Keys + Generated(points, home);
  }

  // ---- The phases over a program --------------------------------------------------------------------

  ghost predicate GroupedAll(program: Program, points: set<MutationPoint>)
    reads program.Values
  {
    forall id :: id in program ==> program[id].Groups(PointsIn(points, id))
  }

  ghost predicate OnceAll(program: Program)
    reads program.Values
  {
    forall id :: id in program ==> program[id].Once()
  }

  method AddPoint(program: Program, point: MutationPoint, ghost points: set<MutationPoint>)
    requires Identified(program) && point.bitcode in program && GroupedAll(program, points) && point !in points
    modifies program.Values`mutationPoints
    ensures GroupedAll(program, points + {point})
    ensures old(OnceAll(program)) ==> OnceAll(program)
  {
    program[point.bitcode].AddMutation(point);
    forall id | id in program ensures program[id].Groups(PointsIn(points + {point}, id)) {
      assert PointsIn(points + {point}, id)
          == PointsIn(points, id) + if id == point.bitcode then {point} else {};
    }
  }

  /** The driver's first phase: every point joins the group of its function in its bitcode. */
  method GroupMutations(program: Program, points: seq<MutationPoint>)
    requires Identified(program) && forall k :: 0 <= k < |points| ==> points[k].bitcode in program
    requires forall id :: id in program ==> program[id].mutationPoints == map[]
    requires NoneTwice(points)
    modifies program.Values`mutationPoints
    ensures GroupedAll(program, Set(points)) && OnceAll(program)
  {
    for k := 0 to |points|
      invariant GroupedAll(program, Set(points[..k])) && OnceAll(program)
    {
      SetAppend(points[..k], points[k]);
      assert points[..k + 1] == points[..k] + [points[k]];
      AddPoint(program, points[k], Set(points[..k]));
    }
    assert points[..|points|] == points;
  }

  /** Clones the mutated functions of every bitcode. */
  method CloneFunctions(program: Program, ghost points: set<MutationPoint>, ghost home: Home)
    returns (names: seq<string>)
    requires Identified(program) && GroupedAll(program, points) && forall p :: p in points ==> p.bitcode in program
    requires forall id :: id in program ==>
      BelongTo(PointsIn(points, id), home, id) && WellNamed(program[id].functions, PointsIn(points, id), home)
    modifies program.Values`functions, points`mutatedFunction
    ensures forall id :: id in program ==>
      Cloned(old(program[id].functions), program[id].functions, PointsIn(points, id))
    ensures forall p :: p in points ==> p.mutatedFunction == Some(p.uniqueIdentifier)
    ensures Set(names) == Trampolines(MutatedFunctions(points), home)
  {
    hide Cloned, WellNamed, BelongTo, Trampolines;
    names := [];
    var ids := program.Keys;
    NoneDone(points, home);
    while ids != {}
      invariant ids <= program.Keys
      invariant forall id :: id in ids ==> program[id].functions == old(program[id].functions)
      invariant forall id :: id in program.Keys - ids ==>
        Cloned(old(program[id].functions), program[id].functions, PointsIn(points, id))
      invariant forall p :: p in points && p.bitcode !in ids ==> p.mutatedFunction == Some(p.uniqueIdentifier)
      invariant Set(names) == Trampolines(MutatedFunctions(PointsOutside(points, ids)), home)
    {
      var id :| id in ids;
      ghost var mine := PointsIn(points, id);
      program[id].GroupKeys(mine);
      names := program[id].CloneFunctions(mine, home, names);
      DoneNext(points, ids, id, home);
      ids := ids - {id};
    }
    assert PointsOutside(points, {}) == points;
  }

  function PointsOutside(points: set<MutationPoint>, ids: set<string>): set<MutationPoint> {
    set p | p in points && p.bitcode !in ids
  }

  lemma NoneDone(points: set<MutationPoint>, home: Home)
    ensures forall ids: set<string> :: (forall p :: p in points ==> p.bitcode in ids) ==>
      Trampolines(MutatedFunctions(PointsOutside(points, ids)), home) == {}
  {
    forall ids: set<string> | forall p :: p in points ==> p.bitcode in ids
      ensures PointsOutside(points, ids) == {}
    {
    }
  }

  lemma DoneNext(points: set<MutationPoint>, ids: set<string>, id: string, home: Home)
    requires id in ids
    ensures Trampolines(MutatedFunctions(PointsOutside(points, ids - {id})), home)
         == Trampolines(MutatedFunctions(PointsOutside(points, ids)), home)
            + Trampolines(MutatedFunctions(PointsIn(points, id)), home)
  {
    assert PointsOutside(points, ids - {id}) == PointsOutside(points, ids) + PointsIn(points, id);
    assert MutatedFunctions(PointsOutside(points, ids - {id}))
        == MutatedFunctions(PointsOutside(points, ids)) + MutatedFunctions(PointsIn(points, id));
  }

  /** Deletes the bodies of the mutated functions of every bitcode. */
  method DeleteFunctions(program: Program, ghost points: set<MutationPoint>, ghost home: Home)
    requires Identified(program) && GroupedAll(program, points)
    requires forall id :: id in program ==>
      && BelongTo(PointsIn(points, id), home, id)
      && MutatedFunctions(PointsIn(points, id)) <= program[id].functions.Keys
      && program[id].functions.Keys !! Originals(MutatedFunctions(PointsIn(points, id)), home)
    modifies program.Values`functions
    ensures forall id :: id in program ==>
      Deleted(old(program[id].functions), program[id].functions, MutatedFunctions(PointsIn(points, id)), home)
  {
    var ids := program.Keys;
    while ids != {}
      invariant ids <= program.Keys
      invariant forall id :: id in ids ==> program[id].functions == old(program[id].functions)
      invariant forall id :: id in program.Keys - ids ==>
        Deleted(old(program[id].functions), program[id].functions, MutatedFunctions(PointsIn(points, id)), home)
    {
      var id :| id in ids;
      program[id].DeleteFunctions(PointsIn(points, id), home);
      ids := ids - {id};
    }
  }

  /** Inserts the trampolines of every bitcode. */
  method InsertTrampolines(program: Program, ghost points: set<MutationPoint>, ghost home: Home)
    requires Identified(program) && GroupedAll(program, points)
    requires forall id :: id in program ==>
      && BelongTo(PointsIn(points, id), home, id)
      && MutatedFunctions(PointsIn(points, id)) <= program[id].functions.Keys
    modifies program.Values`functions
    ensures forall id :: id in program ==>
      Trampolined(old(program[id].functions), program[id].functions, MutatedFunctions(PointsIn(points, id)), home)
  {
    var ids := program.Keys;
    while ids != {}
      invariant ids <= program.Keys
      invariant forall id :: id in ids ==> program[id].functions == old(program[id].functions)
      invariant forall id :: id in program.Keys - ids ==>
        Trampolined(old(program[id].functions), program[id].functions, MutatedFunctions(PointsIn(points, id)), home)
    {
      var id :| id in ids;
      program[id].InsertTrampolines(PointsIn(points, id), home);
      ids := ids - {id};
    }
  }

  /** Applies every point to its own clone, one after the other. */
  method ApplyMutations(program: Program, points: seq<MutationPoint>)
    requires Identified(program)
    requires forall i, j :: 0 <= i < j < |points| ==> points[i].uniqueIdentifier != points[j].uniqueIdentifier
    requires forall k :: 0 <= k < |points| ==> Clonable(program, points[k])
    modifies program.Values`functions
    ensures forall id :: id in program ==>
      Applied(old(program[id].functions), program[id].functions, PointsIn(Set(points), id))
  {
    ghost var parts := Parts(program);
    assert forall id :: id in program ==> PointsIn(Set(points[..0]), id) == {};
    for k := 0 to |points|
      invariant forall id :: id in program ==>
        Applied(parts[id], program[id].functions, PointsIn(Set(points[..k]), id))
    {
      var point := points[k];
      var bitcode, name := program[point.bitcode], point.mutatedFunction.value;
      ghost var now := Parts(program);
      AppliedKeys(parts[point.bitcode], bitcode.functions, PointsIn(Set(points[..k]), point.bitcode));
      bitcode.functions := bitcode.functions[name := point.mutator(bitcode.functions[name])];
      forall id | id in program ensures Applied(parts[id], program[id].functions, PointsIn(Set(points[..k + 1]), id)) {
        ApplyNext(parts[id], now[id], points, k, id);
      }
    }
    assert points[..|points|] == points;
  }

  ghost predicate Clonable(program: Program, point: MutationPoint)
    reads program.Values, point
  {
    && point.bitcode in program && point.mutatedFunction == Some(point.uniqueIdentifier)
    && point.uniqueIdentifier in program[point.bitcode].functions
  }

  lemma AppliedKeys(before: Module, now: Module, points: set<MutationPoint>)
    requires Applied(before, now, points)
    ensures now.Keys == before.Keys
  {
  }

  lemma ApplyNext(before: Module, now: Module, points: seq<MutationPoint>, k: nat, id: string)
    requires forall i, j :: 0 <= i < j < |points| ==> points[i].uniqueIdentifier != points[j].uniqueIdentifier
    requires k < |points| && Applied(before, now, PointsIn(Set(points[..k]), id))
    requires id == points[k].bitcode ==> points[k].uniqueIdentifier in before
    ensures id != points[k].bitcode ==> Applied(before, now, PointsIn(Set(points[..k + 1]), id))
    ensures id == points[k].bitcode ==>
      && points[k].uniqueIdentifier in now
      && Applied(before, now[points[k].uniqueIdentifier := points[k].mutator(now[points[k].uniqueIdentifier])],
                 PointsIn(Set(points[..k + 1]), id))
  {
    hide Applied;
    var applied := Set(points[..k]);
    SetAppend(points[..k], points[k]);
    assert points[..k + 1] == points[..k] + [points[k]];
    if id == points[k].bitcode {
      ApplyOne(before, now, PointsIn(applied, id), points[k]);
      assert PointsIn(applied + {points[k]}, id) == PointsIn(applied, id) + {points[k]};
    } else {
      assert PointsIn(applied + {points[k]}, id) == PointsIn(applied, id);
    }
  }

  // ---- The driver's preparation -----------------------------------------------------------------------

  /** What one phase left of every part. */
  ghost predicate AllCloned(p0: map<string, Module>, p1: map<string, Module>, points: set<MutationPoint>)
    requires p0.Keys == p1.Keys
  {
    forall id :: id in p0 ==> Cloned(p0[id], p1[id], PointsIn(points, id))
  }

  ghost predicate AllReady(p1: map<string, Module>, points: set<MutationPoint>, home: Home) {
    forall id :: id in p1 ==>
      && BelongTo(PointsIn(points, id), home, id)
      && MutatedFunctions(PointsIn(points, id)) <= p1[id].Keys && Identifiers(PointsIn(points, id)) <= p1[id].Keys
      && p1[id].Keys !! Originals(MutatedFunctions(PointsIn(points, id)), home)
  }

  lemma PartsReady(whole: Module, p0: map<string, Module>, p1: map<string, Module>, points: set<MutationPoint>,
                   home: Home)
    requires Links(whole, p0) && Homed(p0, points, home) && WellNamed(whole, points, home)
    requires p0.Keys == p1.Keys && AllCloned(p0, p1, points)
    ensures AllReady(p1, points, home)
    ensures forall id :: id in p1 ==> Identifiers(PointsIn(points, id)) <= p1[id].Keys
  {
    forall id | id in p1
      ensures BelongTo(PointsIn(points, id), home, id)
      ensures MutatedFunctions(PointsIn(points, id)) <= p1[id].Keys && Identifiers(PointsIn(points, id)) <= p1[id].Keys
      ensures p1[id].Keys !! Originals(MutatedFunctions(PointsIn(points, id)), home)
    {
      hide Links, Homed, WellNamed, Cloned;
      PartWellNamed(whole, p0, points, home, id);
      ReadyToDelete(p0[id], p1[id], PointsIn(points, id), home);
    }
  }

  lemma PartsWellNamed(whole: Module, parts: map<string, Module>, points: set<MutationPoint>, home: Home)
    requires Links(whole, parts) && Homed(parts, points, home) && WellNamed(whole, points, home)
    ensures forall id :: id in parts ==>
      BelongTo(PointsIn(points, id), home, id) && WellNamed(parts[id], PointsIn(points, id), home)
  {
    hide Links, Homed, WellNamed, BelongTo;
    forall id | id in parts
      ensures BelongTo(PointsIn(points, id), home, id) && WellNamed(parts[id], PointsIn(points, id), home)
    {
      PartWellNamed(whole, parts, points, home, id);
    }
  }

  /** What comes between cloning and applying. */
  ghost predicate AllStubbed(p1: map<string, Module>, p2: map<string, Module>, p3: map<string, Module>,
                             points: set<MutationPoint>, home: Home)
    requires p1.Keys == p2.Keys == p3.Keys
  {
    forall id :: id in p1 ==>
      var fs := MutatedFunctions(PointsIn(points, id));
      && fs <= p1[id].Keys && fs <= p2[id].Keys
      && Deleted(p1[id], p2[id], fs, home) && Trampolined(p2[id], p3[id], fs, home)
  }

  lemma PartsPrepared(whole: Module, p0: map<string, Module>, p1: map<string, Module>, p2: map<string, Module>,
                      p3: map<string, Module>, p4: map<string, Module>, points: set<MutationPoint>, home: Home)
    requires Links(whole, p0) && Homed(p0, points, home) && WellNamed(whole, points, home)
    requires p0.Keys == p1.Keys == p2.Keys == p3.Keys == p4.Keys
    requires AllCloned(p0, p1, points) && AllStubbed(p1, p2, p3, points, home)
    requires forall id :: id in p4 ==> Applied(p3[id], p4[id], PointsIn(points, id))
    ensures forall id :: id in p4 ==> Prepared(p0[id], p4[id], PointsIn(points, id), home)
  {
    forall id | id in p4 ensures Prepared(p0[id], p4[id], PointsIn(points, id), home) {
      hide Links, Homed, WellNamed, Cloned, Deleted, Trampolined, Applied, Prepared;
      PartWellNamed(whole, p0, points, home, id);
      PhasesPrepare(p0[id], p1[id], p2[id], p3[id], p4[id], PointsIn(points, id), home);
    }
  }

  lemma PointsDistinct(whole: Module, points: seq<MutationPoint>, home: Home)
    requires WellNamed(whole, Set(points), home)
    requires forall i, j :: 0 <= i < j < |points| ==> points[i] != points[j]
    ensures forall i, j :: 0 <= i < j < |points| ==> points[i].uniqueIdentifier != points[j].uniqueIdentifier
  {
    forall i, j | 0 <= i < j < |points| ensures points[i].uniqueIdentifier != points[j].uniqueIdentifier {
      assert points[i] in Set(points) && points[j] in Set(points);
    }
  }

  /** Deletes and inserts, for every bitcode. */
  method StubFunctions(program: Program, ghost points: set<MutationPoint>, ghost home: Home)
    returns (ghost p2: map<string, Module>)
    requires Identified(program) && GroupedAll(program, points) && AllReady(Parts(program), points, home)
    modifies program.Values`functions
    ensures p2.Keys == program.Keys && AllStubbed(old(Parts(program)), p2, Parts(program), points, home)
    ensures forall id :: id in program ==> old(program[id].functions).Keys <= program[id].functions.Keys
  {
    ghost var p1 := Parts(program);
    DeleteFunctions(program, points, home);
    p2 := Parts(program);
    assert forall id :: id in program ==> program[id].functions == p2[id];
    assert forall id :: id in program ==> MutatedFunctions(PointsIn(points, id)) <= p1[id].Keys <= p2[id].Keys;
    InsertTrampolines(program, points, home);
    ghost var p3 := Parts(program);
    assert AllStubbed(p1, p2, p3, points, home);
  }

  lemma PointsClonable(program: Program, points: seq<MutationPoint>)
    requires forall k :: 0 <= k < |points| ==>
      points[k].bitcode in program && points[k].mutatedFunction == Some(points[k].uniqueIdentifier)
    requires forall id :: id in program ==>
      Identifiers(PointsIn(Set(points), id)) <= program[id].functions.Keys
    ensures forall k :: 0 <= k < |points| ==> Clonable(program, points[k])
  {
    forall k | 0 <= k < |points| ensures Clonable(program, points[k]) {
      var id := points[k].bitcode;
      assert points[k] in PointsIn(Set(points), id);
      assert points[k].uniqueIdentifier in Identifiers(PointsIn(Set(points), id));
    }
  }

  /** What comes after cloning: delete, insert, apply. */
  method FinishPreparation(program: Program, points: seq<MutationPoint>,
                           ghost p0: map<string, Module>, ghost whole: Module, ghost home: Home)
    requires Identified(program) && GroupedAll(program, Set(points))
    requires Links(whole, p0) && Homed(p0, Set(points), home) && WellNamed(whole, Set(points), home)
    requires p0.Keys == program.Keys && AllCloned(p0, Parts(program), Set(points))
    requires forall k :: 0 <= k < |points| ==>
      points[k].bitcode in program && points[k].mutatedFunction == Some(points[k].uniqueIdentifier)
    requires forall i, j :: 0 <= i < j < |points| ==> points[i] != points[j]
    modifies program.Values`functions
    ensures forall id :: id in program ==> Prepared(p0[id], program[id].functions, PointsIn(Set(points), id), home)
  {
    hide Links, Homed, WellNamed, AllCloned, AllReady, AllStubbed, Applied, Prepared, Clonable, PointsIn, Identifiers;
    ghost var all, p1 := Set(points), Parts(program);
    PartsReady(whole, p0, p1, all, home);
    ghost var p2 := StubFunctions(program, all, home);
    ghost var p3 := Parts(program);
    PointsDistinct(whole, points, home);
    PointsClonable(program, points);
    ApplyMutations(program, points);
    PartsPrepared(whole, p0, p1, p2, p3, Parts(program), all, home);
  }

  /** The driver's preparation of a program of any number of bitcodes: group the points, clone, delete,
      insert, apply. Every bitcode ends up prepared, and the returned names are the trampolines of the
      mutated functions. */
  method PrepareMutations(program: Program, points: seq<MutationPoint>, ghost whole: Module, ghost home: Home)
    returns (mutatedFunctions: seq<string>)
    requires Identified(program) && forall id :: id in program ==> program[id].mutationPoints == map[]
    requires Links(whole, Parts(program)) && Homed(Parts(program), Set(points), home)
    requires Loaded(Parts(program)) && FreshNames(whole, Set(points), home)
    requires forall i, j :: 0 <= i < j < |points| ==> points[i] != points[j]
    modifies program.Values, points`mutatedFunction
    ensures forall id :: id in program ==>
      Prepared(old(program[id].functions), program[id].functions, PointsIn(Set(points), id), home)
    ensures Set(mutatedFunctions) == Trampolines(MutatedFunctions(Set(points)), home)
  {
    hide Links, FreshNames, WellNamed, Loaded, Cloned, Prepared, BelongTo;
    ghost var all, p0 := Set(points), Parts(program);
    LoadedNames(whole, p0, all, home);
    assert forall k :: 0 <= k < |points| ==> points[k] in all;
    GroupMutations(program, points);
    PartsWellNamed(whole, p0, all, home);
    mutatedFunctions := CloneFunctions(program, all, home);
    FinishPreparation(program, points, p0, whole, home);
  }

  // ---- Linking ------------------------------------------------------------------------------------------

  ghost predicate Apart(parts: map<string, Module>) {
    forall id, id', f :: id in parts && id' in parts && f in parts[id] && f in parts[id'] ==> id == id'
  }

  /** Well-named points keep the prepared parts apart. */
  lemma PreparedApart(whole: Module, parts: map<string, Module>, parts': map<string, Module>,
                      points: set<MutationPoint>, home: Home)
    requires Links(whole, parts) && Homed(parts, points, home) && WellNamed(whole, points, home)
    requires parts.Keys == parts'.Keys
    requires forall id :: id in parts ==> Prepared(parts[id], parts'[id], PointsIn(points, id), home)
    ensures Apart(parts')
  {
    hide Links, WellNamed, Prepared;
    forall id, id', f | id in parts' && id' in parts' && f in parts'[id] && f in parts'[id'] ensures id == id' {
      PreparedName(parts[id], parts'[id], PointsIn(points, id), home, f);
      PreparedName(parts[id'], parts'[id'], PointsIn(points, id'), home, f);
      PartName(whole, parts, points, home, id, f);
      PartName(whole, parts, points, home, id', f);
      GeneratedInPart(points, home, id);
      GeneratedInPart(points, home, id');
      SourceNotGenerated(whole, points, home, f);
      if f in Generated(PointsIn(points, id), home) && f in Generated(PointsIn(points, id'), home) {
        GeneratedOnce(whole, parts, points, home, id, id', f);
      }
    }
  }

  lemma PartName(whole: Module, parts: map<string, Module>, points: set<MutationPoint>, home: Home, id: string,
                 f: string)
    requires Links(whole, parts) && Homed(parts, points, home) && id in parts
    ensures f in parts[id] ==> f in whole && HomeOf(f, home) == id
  {
  }

  lemma SourceNotGenerated(whole: Module, points: set<MutationPoint>, home: Home, f: string)
    requires WellNamed(whole, points, home)
    ensures f in whole ==> f !in Generated(points, home)
  {
  }

  /** A generated name belongs to one bitcode. */
  lemma GeneratedOnce(whole: Module, parts: map<string, Module>, points: set<MutationPoint>, home: Home,
                      id: string, id': string, f: string)
    requires Homed(parts, points, home) && WellNamed(whole, points, home)
    requires f in Generated(PointsIn(points, id), home) && f in Generated(PointsIn(points, id'), home)
    ensures id == id'
  {
    var mine, theirs := PointsIn(points, id), PointsIn(points, id');
    assert Identifiers(mine) <= Identifiers(points) && Identifiers(theirs) <= Identifiers(points);
    assert Originals(MutatedFunctions(mine), home) <= Originals(MutatedFunctions(points), home);
    assert Originals(MutatedFunctions(theirs), home) <= Originals(MutatedFunctions(points), home);
    if f in Identifiers(mine) {
      var p :| p in mine && p.uniqueIdentifier == f;
      var q :| q in theirs && q.uniqueIdentifier == f;
      assert p == q;
    } else {
      var p :| p in mine && OriginalOf(p.originalFunction, home) == f;
      var q :| q in theirs && OriginalOf(q.originalFunction, home) == f;
      SameStem(p.originalFunction, q.originalFunction, home);
      assert p.originalFunction in parts[p.bitcode] && q.originalFunction in parts[q.bitcode];
    }
  }

  lemma SameStem(f: string, g: string, home: Home)
    requires OriginalOf(f, home) == OriginalOf(g, home)
    ensures TrampolineOf(f, home) == TrampolineOf(g, home)
  {
    var stem, stem' := f + "_" + HomeOf(f, home), g + "_" + HomeOf(g, home);
    assert stem == OriginalOf(f, home)[..|stem|] && stem' == OriginalOf(g, home)[..|stem'|];
  }

  /** The functions of the parts that are linked so far. */
  ghost predicate LinksSome(linked: Module, parts: map<string, Module>, done: set<string>) {
    && (forall f :: f in linked ==> exists id :: id in done && id in parts && f in parts[id])
    && (forall id, f :: id in done && id in parts && f in parts[id] ==> f in linked && linked[f] == parts[id][f])
  }

  lemma LinkNext(linked: Module, parts: map<string, Module>, done: set<string>, id: string)
    requires Apart(parts) && LinksSome(linked, parts, done) && id in parts && id !in done
    ensures LinksSome(linked + parts[id], parts, done + {id})
  {
    forall f | f in linked + parts[id]
      ensures exists id' :: id' in done + {id} && id' in parts && f in parts[id']
    {
      if f !in parts[id] {
        var id' :| id' in done && id' in parts && f in parts[id'];
      }
    }
  }

  /** The linker joins the functions of all bitcodes. */
  method LinkProgram(program: Program) returns (linked: Module)
    requires Apart(Parts(program))
    ensures Links(linked, Parts(program))
  {
    linked := map[];
    var ids := program.Keys;
    while ids != {}
      invariant ids <= program.Keys && LinksSome(linked, Parts(program), program.Keys - ids)
    {
      var id :| id in ids;
      LinkNext(linked, Parts(program), program.Keys - ids, id);
      assert program.Keys - (ids - {id}) == program.Keys - ids + {id};
      ids := ids - {id};
      linked := linked + program[id].functions;
    }
  }
}
