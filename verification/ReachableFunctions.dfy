/** What is under test: the functions that the tests reach, each with all its tests. */
module ReachableFunctions {
  import opened Wrappers
  import opened TestSubtrees

  /** A function that a test reaches, at a distance. */
  datatype Reach = Reach(test: string, reachable: ReachableFunction)

  type Name = Option<string>

  datatype FunctionUnderTest = FunctionUnderTest(function_: Name, reachableTests: seq<(string, int)>)

  /** The tests that reach `f`, in order. */
  function TestsOf(reaches: seq<Reach>, f: Name): seq<(string, int)> {
    if reaches == [] then []
    else
      var (before, last) := (reaches[..|reaches| - 1], reaches[|reaches| - 1]);
      TestsOf(before, f) + (if last.reachable.function_ == f then [(last.test, last.reachable.distance)] else [])
  }

  /** The positions at which `f` is reached, in order. */
  function PositionsOf(reaches: seq<Reach>, f: Name): (positions: seq<nat>) {
    if reaches == [] then []
    else
      var (before, last) := (reaches[..|reaches| - 1], reaches[|reaches| - 1]);
      PositionsOf(before, f) + (if last.reachable.function_ == f then [|reaches| - 1] else [])
  }

  ghost predicate Increasing(positions: seq<nat>) {
    forall j, k :: 0 <= j < k < |positions| ==> positions[j] < positions[k]
  }

  /** Exactly the positions that reach `f`. */
  ghost predicate AllReaching(positions: seq<nat>, reaches: seq<Reach>, f: Name) {
    forall i :: i in positions <==> 0 <= i < |reaches| && reaches[i].reachable.function_ == f
  }

  lemma {:induction false} PositionsFacts(reaches: seq<Reach>, f: Name)
    ensures Increasing(PositionsOf(reaches, f)) && AllReaching(PositionsOf(reaches, f), reaches, f)
  {
    if reaches != [] {
      var n := |reaches| - 1;
      var before := PositionsOf(reaches[..n], f);
      PositionsFacts(reaches[..n], f);
      forall j | 0 <= j < |before| ensures before[j] < n {
        assert before[j] in before;
      }
      forall i ensures i in PositionsOf(reaches, f) <==> 0 <= i < |reaches| && reaches[i].reachable.function_ == f {
        assert i in before <==> 0 <= i < n && reaches[..n][i].reachable.function_ == f;
      }
    }
  }

  /** The tests are those at these positions, one after the other. */
  ghost predicate TestsAt(tests: seq<(string, int)>, reaches: seq<Reach>, positions: seq<nat>) {
    && |tests| == |positions|
    && forall j :: 0 <= j < |positions| ==>
         && positions[j] < |reaches|
         && tests[j] == (reaches[positions[j]].test, reaches[positions[j]].reachable.distance)
  }

  lemma TestsAtMore(tests: seq<(string, int)>, reaches: seq<Reach>, positions: seq<nat>, last: Reach)
    requires TestsAt(tests, reaches, positions)
    ensures TestsAt(tests, reaches + [last], positions)
    ensures TestsAt(tests + [(last.test, last.reachable.distance)], reaches + [last], positions + [|reaches|])
  {
  }

  lemma {:induction false} TestsAtPositions(reaches: seq<Reach>, f: Name)
    ensures TestsAt(TestsOf(reaches, f), reaches, PositionsOf(reaches, f))
  {
    hide TestsAt;
    if reaches != [] {
      var (before, last) := (reaches[..|reaches| - 1], reaches[|reaches| - 1]);
      TestsAtPositions(before, f);
      TestsAtMore(TestsOf(before, f), before, PositionsOf(before, f), last);
      assert reaches == before + [last];
      assert TestsOf(before, f) + [] == TestsOf(before, f) && PositionsOf(before, f) + [] == PositionsOf(before, f);
    } else {
      NoTests();
    }
  }

  lemma NoTests()
    ensures TestsAt([], [], [])
  {
  }

  /** The entry's tests are those of exactly the positions that reach its function, in order. */
  ghost predicate InOrderOfReach(entry: FunctionUnderTest, reaches: seq<Reach>, positions: seq<nat>) {
    && Increasing(positions) && AllReaching(positions, reaches, entry.function_)
    && TestsAt(entry.reachableTests, reaches, positions)
  }

  /** One entry for every function that is reached, by the order of the first positions. */
  ghost predicate MergesInOrder(merged: seq<FunctionUnderTest>, reaches: seq<Reach>, positions: seq<seq<nat>>) {
    && |positions| == |merged|
    && (forall k :: 0 <= k < |merged| ==> InOrderOfReach(merged[k], reaches, positions[k]) && positions[k] != [])
    && (forall j, k :: 0 <= j < k < |merged| ==> positions[j][0] < positions[k][0])
    && AllMerged(merged, reaches)
  }

  /** Every function that is reached has an entry. */
  ghost predicate AllMerged(merged: seq<FunctionUnderTest>, reaches: seq<Reach>) {
    forall i :: 0 <= i < |reaches| ==> reaches[i].reachable.function_ in Names(merged)
  }

  /** Where `f` is reached first, or the length if it is not. */
  function FirstAt(reaches: seq<Reach>, f: Name): (k: nat)
    ensures k <= |reaches| && (k < |reaches| ==> reaches[k].reachable.function_ == f)
    ensures forall j :: 0 <= j < k ==> reaches[j].reachable.function_ != f
    decreases |reaches|
  {
    if reaches == [] then 0
    else if reaches[0].reachable.function_ == f then 0
    else 1 + FirstAt(reaches[1..], f)
  }

  function Names(merged: seq<FunctionUnderTest>): (names: seq<Name>)
    ensures |names| == |merged| && forall k :: 0 <= k < |merged| ==> names[k] == merged[k].function_
  {
    seq(|merged|, k requires 0 <= k < |merged| => merged[k].function_)
  }

  lemma {:induction false} FirstAtSnoc(reaches: seq<Reach>, last: Reach, f: Name)
    ensures FirstAt(reaches, f) < |reaches| ==> FirstAt(reaches + [last], f) == FirstAt(reaches, f)
    ensures FirstAt(reaches, f) == |reaches| ==>
      (FirstAt(reaches + [last], f) < |reaches| + 1 <==> last.reachable.function_ == f)
  {
    var k := FirstAt(reaches + [last], f);
    assert k < |reaches| ==> (reaches + [last])[k] == reaches[k];
    assert (reaches + [last])[|reaches|] == last;
    assert FirstAt(reaches, f) < |reaches| ==> (reaches + [last])[FirstAt(reaches, f)].reachable.function_ == f;
  }

  lemma {:induction false} ReachedHasTests(reaches: seq<Reach>, f: Name)
    ensures TestsOf(reaches, f) != [] <==> FirstAt(reaches, f) < |reaches|
  {
    hide FirstAt;
    if reaches != [] {
      var before, last := reaches[..|reaches| - 1], reaches[|reaches| - 1];
      ReachedHasTests(before, f);
      assert reaches == before + [last];
      FirstAtSnoc(before, last, f);
    }
  }

  // ---- The two loops --------------------------------------------------------------------------

  /** The map holds the reached functions, each with its tests. */
  ghost predicate Grouped(functionsMap: map<Name, FunctionUnderTest>, reaches: seq<Reach>) {
    forall f ::
      && (f in functionsMap <==> TestsOf(reaches, f) != [])
      && (f in functionsMap ==> functionsMap[f] == FunctionUnderTest(f, TestsOf(reaches, f)))
  }

  /** The functions first reached from position `i` on are still in the map. */
  ghost predicate Pending(functionsMap: map<Name, FunctionUnderTest>, reaches: seq<Reach>, i: nat) {
    forall f ::
      && (f in functionsMap <==> i <= FirstAt(reaches, f) < |reaches|)
      && (f in functionsMap ==> functionsMap[f] == FunctionUnderTest(f, TestsOf(reaches, f)))
  }

  /** The functions first reached before position `i` are listed in that order, with their tests. */
  ghost predicate Listed(merged: seq<FunctionUnderTest>, reaches: seq<Reach>, i: nat) {
    && (forall f :: f in Names(merged) <==> FirstAt(reaches, f) < i)
    && (forall k :: 0 <= k < |merged| ==> merged[k].reachableTests == TestsOf(reaches, merged[k].function_))
    && forall j, k :: 0 <= j < k < |merged| ==>
         FirstAt(reaches, merged[j].function_) < FirstAt(reaches, merged[k].function_)
  }

  lemma GroupedPending(functionsMap: map<Name, FunctionUnderTest>, reaches: seq<Reach>)
    requires Grouped(functionsMap, reaches)
    ensures Pending(functionsMap, reaches, 0)
  {
    forall f ensures f in functionsMap <==> FirstAt(reaches, f) < |reaches| {
      ReachedHasTests(reaches, f);
    }
  }

  lemma ReachedHere(reaches: seq<Reach>, i: nat)
    requires i < |reaches|
    ensures FirstAt(reaches, reaches[i].reachable.function_) <= i
    ensures forall f :: FirstAt(reaches, f) == i ==> f == reaches[i].reachable.function_
  {
  }

  lemma ListedNext(merged: seq<FunctionUnderTest>, reaches: seq<Reach>, i: nat, next: FunctionUnderTest)
    requires i < |reaches| && Listed(merged, reaches, i)
    requires next == FunctionUnderTest(reaches[i].reachable.function_, TestsOf(reaches, reaches[i].reachable.function_))
    requires FirstAt(reaches, next.function_) == i
    ensures Listed(merged + [next], reaches, i + 1)
  {
    assert Names(merged + [next]) == Names(merged) + [next.function_];
    ReachedHere(reaches, i);
    forall k | 0 <= k < |merged| ensures FirstAt(reaches, merged[k].function_) < i {
      assert Names(merged)[k] in Names(merged);
    }
  }

  lemma ListedSame(merged: seq<FunctionUnderTest>, reaches: seq<Reach>, i: nat)
    requires i < |reaches| && Listed(merged, reaches, i)
    requires FirstAt(reaches, reaches[i].reachable.function_) < i
    ensures Listed(merged, reaches, i + 1)
  {
    ReachedHere(reaches, i);
  }

  lemma PendingNext(functionsMap: map<Name, FunctionUnderTest>, reaches: seq<Reach>, i: nat)
    requires i < |reaches| && Pending(functionsMap, reaches, i)
    ensures Pending(functionsMap - {reaches[i].reachable.function_}, reaches, i + 1)
    ensures reaches[i].reachable.function_ !in functionsMap ==> FirstAt(reaches, reaches[i].reachable.function_) < i
    ensures reaches[i].reachable.function_ !in functionsMap ==> Pending(functionsMap, reaches, i + 1)
  {
    ReachedHere(reaches, i);
  }

  /** Groups by function, in the order in which the functions are reached first. */
  method MergeReachableFunctions(functions: seq<Reach>)
    returns (merged: seq<FunctionUnderTest>, ghost positions: seq<seq<nat>>)
    ensures Listed(merged, functions, |functions|)
    ensures MergesInOrder(merged, functions, positions)
  {
    hide MergesInOrder;
    var functionsMap: map<Name, FunctionUnderTest> := map[];
    for i := 0 to |functions|
      invariant Grouped(functionsMap, functions[..i])
    {
      assert functions[..i + 1][..i] == functions[..i];
      var function_ := functions[i].reachable.function_;
      var reachableTest := (functions[i].test, functions[i].reachable.distance);
      if function_ in functionsMap {
        var entry := functionsMap[function_];
        functionsMap := functionsMap[function_ := entry.(reachableTests := entry.reachableTests + [reachableTest])];
      } else {
        functionsMap := functionsMap[function_ := FunctionUnderTest(function_, [reachableTest])];
      }
    }
    assert functions[..|functions|] == functions;
    GroupedPending(functionsMap, functions);
    merged := [];
    for i := 0 to |functions|
      invariant Pending(functionsMap, functions, i) && Listed(merged, functions, i)
    {
      if functionsMap == map[] {
        Exhausted(merged, functions, i);
        break;
      }
      var function_ := functions[i].reachable.function_;
      PendingNext(functionsMap, functions, i);
      if function_ in functionsMap {
        ListedNext(merged, functions, i, functionsMap[function_]);
        merged := merged + [functionsMap[function_]];
        functionsMap := functionsMap - {function_};
      } else {
        ListedSame(merged, functions, i);
      }
    }
    positions := ListedPositions(merged, functions);
  }

  lemma EntryInOrder(merged: seq<FunctionUnderTest>, reaches: seq<Reach>, k: nat)
    requires Listed(merged, reaches, |reaches|) && k < |merged|
    ensures var positions := PositionsOf(reaches, merged[k].function_);
      && InOrderOfReach(merged[k], reaches, positions)
      && positions != [] && positions[0] == FirstAt(reaches, merged[k].function_)
  {
    hide TestsAt;
    TestsAtPositions(reaches, merged[k].function_);
    PositionsFacts(reaches, merged[k].function_);
    assert Names(merged)[k] in Names(merged);
    FirstPosition(reaches, merged[k].function_);
  }

  lemma ReachedIsListed(merged: seq<FunctionUnderTest>, reaches: seq<Reach>)
    requires Listed(merged, reaches, |reaches|)
    ensures AllMerged(merged, reaches)
  {
    forall i | 0 <= i < |reaches| ensures reaches[i].reachable.function_ in Names(merged) {
      ReachedHere(reaches, i);
    }
  }

  /** The positions of what is listed. */
  lemma ListedPositions(merged: seq<FunctionUnderTest>, reaches: seq<Reach>) returns (positions: seq<seq<nat>>)
    requires Listed(merged, reaches, |reaches|)
    ensures MergesInOrder(merged, reaches, positions)
  {
    hide InOrderOfReach, PositionsOf, TestsOf, AllMerged;
    positions := seq(|merged|, k requires 0 <= k < |merged| => PositionsOf(reaches, merged[k].function_));
    forall k | 0 <= k < |merged|
      ensures InOrderOfReach(merged[k], reaches, positions[k])
      ensures positions[k] != [] && positions[k][0] == FirstAt(reaches, merged[k].function_)
    {
      EntryInOrder(merged, reaches, k);
    }
    forall j, k | 0 <= j < k < |merged| ensures positions[j][0] < positions[k][0] {
      assert FirstAt(reaches, merged[j].function_) < FirstAt(reaches, merged[k].function_);
    }
    ReachedIsListed(merged, reaches);
  }

  lemma FirstPosition(reaches: seq<Reach>, f: Name)
    requires FirstAt(reaches, f) < |reaches|
    ensures PositionsOf(reaches, f) != [] && PositionsOf(reaches, f)[0] == FirstAt(reaches, f)
  {
    var positions := PositionsOf(reaches, f);
    PositionsFacts(reaches, f);
    assert FirstAt(reaches, f) in positions;
    assert positions[0] in positions;
  }

  lemma Exhausted(merged: seq<FunctionUnderTest>, reaches: seq<Reach>, i: nat)
    requires i <= |reaches| && Pending(map[], reaches, i) && Listed(merged, reaches, i)
    ensures Listed(merged, reaches, |reaches|)
  {
    var none: map<Name, FunctionUnderTest> := map[];
    assert forall f :: f in none <==> i <= FirstAt(reaches, f) < |reaches|;
  }

  // ---- Nothing is lost ------------------------------------------------------------------------

  /** A function, a test that reaches it, and the distance. */
  type Pair = (Name, (string, int))

  function Pairs(reaches: seq<Reach>): seq<Pair> {
    if reaches == [] then []
    else
      var last := reaches[|reaches| - 1];
      Pairs(reaches[..|reaches| - 1]) + [(last.reachable.function_, (last.test, last.reachable.distance))]
  }

  function PairsOf(entry: FunctionUnderTest): (pairs: seq<Pair>)
    ensures |pairs| == |entry.reachableTests|
    ensures forall k :: 0 <= k < |pairs| ==> pairs[k] == (entry.function_, entry.reachableTests[k])
  {
    seq(|entry.reachableTests|, k requires 0 <= k < |entry.reachableTests| =>
      (entry.function_, entry.reachableTests[k]))
  }

  function AllPairs(merged: seq<FunctionUnderTest>): seq<Pair> {
    if merged == [] then [] else AllPairs(merged[..|merged| - 1]) + PairsOf(merged[|merged| - 1])
  }

  /** How often `f` is reached by a test is how often the test is among those of `f`. */
  lemma {:induction false} PairCount(reaches: seq<Reach>, f: Name, test: (string, int))
    ensures multiset(Pairs(reaches))[(f, test)] == multiset(TestsOf(reaches, f))[test]
  {
    if reaches != [] {
      PairCount(reaches[..|reaches| - 1], f, test);
    }
  }

  lemma {:induction false} EntryCount(f: Name, tests: seq<(string, int)>, g: Name, test: (string, int))
    ensures multiset(PairsOf(FunctionUnderTest(f, tests)))[(g, test)] == if f == g then multiset(tests)[test] else 0
  {
    if tests != [] {
      var before, last := tests[..|tests| - 1], tests[|tests| - 1];
      EntryCount(f, before, g, test);
      assert tests == before + [last];
      assert PairsOf(FunctionUnderTest(f, tests)) == PairsOf(FunctionUnderTest(f, before)) + [(f, last)];
    }
  }

  /** The pairs of a function are those of its one entry. */
  lemma {:induction false} MergedCount(merged: seq<FunctionUnderTest>, reaches: seq<Reach>, f: Name,
                                       test: (string, int))
    requires forall j, k :: 0 <= j < k < |merged| ==> merged[j].function_ != merged[k].function_
    requires forall k :: 0 <= k < |merged| ==> merged[k].reachableTests == TestsOf(reaches, merged[k].function_)
    ensures multiset(AllPairs(merged))[(f, test)]
         == if f in Names(merged) then multiset(TestsOf(reaches, f))[test] else 0
  {
    if merged != [] {
      var before, last := merged[..|merged| - 1], merged[|merged| - 1];
      MergedCount(before, reaches, f, test);
      EntryCount(last.function_, last.reachableTests, f, test);
      assert last == FunctionUnderTest(last.function_, last.reachableTests);
      assert Names(merged) == Names(before) + [last.function_];
      assert f in Names(before) ==> f != last.function_;
    }
  }

  /** Merging keeps every function with every test that reaches it and the distance, exactly as often as it
      was reached. */
  lemma {:induction false} NothingLost(merged: seq<FunctionUnderTest>, reaches: seq<Reach>)
    requires Listed(merged, reaches, |reaches|)
    ensures multiset(AllPairs(merged)) == multiset(Pairs(reaches))
  {
    forall f, test ensures multiset(AllPairs(merged))[(f, test)] == multiset(Pairs(reaches))[(f, test)] {
      MergedCount(merged, reaches, f, test);
      PairCount(reaches, f, test);
      ReachedHasTests(reaches, f);
    }
    forall pair: Pair ensures multiset(AllPairs(merged))[pair] == multiset(Pairs(reaches))[pair] {
      assert pair == (pair.0, pair.1);
    }
  }
}
