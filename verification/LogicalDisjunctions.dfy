/** Disjunctions lowered to jump code: what OR-to-AND makes of them, by duality, and how it undoes
    AND-to-OR. */
module LogicalDisjunctions {
  import opened ControlFlow
  import opened Duality
  import opened LogicalChains
  import And = LogicalAndToOr
  import Or = LogicalOrToAnd

  predicate SomeHolds(ls: seq<Literal>, env: Env) {
    exists k :: 0 <= k < |ls| && Holds(ls[k], env)
  }

  function Dual(c: Chain): Chain {
    c.(yes := c.no, no := c.yes)
  }

  /** The block of literal i jumps to `yes` if the literal holds and goes on if it does not. */
  ghost predicate IntactOr(f: CFG, c: Chain, i: nat)
    requires i < |c.at| == |c.ls|
  {
    c.at[i] < |f| && f[c.at[i]].terminator == LiteralBranch(c.ls[i], c.yes, Next(Dual(c), i))
  }

  ghost predicate OrChain(f: CFG, c: Chain) {
    && WellPlaced(c, |f|)
    && (forall i :: 0 <= i < |c.at| ==> IntactOr(f, c, i))
    && (forall i :: 0 < i < |c.at| ==> f[c.at[i]].phis == [])
  }

  /** Exchanging successors turns a disjunction into a conjunction of the same literals. */
  lemma OrChainSwapped(f: CFG, c: Chain)
    requires OrChain(f, c)
    ensures AndChain(Swap(f), Dual(c))
  {
    forall i | 0 <= i < |c.at| ensures Intact(Swap(f), Dual(c), i) {
      assert IntactOr(f, c, i);
    }
  }

  /** A conditional block whose true successor is a successor of the first branch, or which is the
      first branch's true successor and has a phi entry for another block. */
  ghost predicate LooksLikeOr(f: CFG, first: nat, b: nat)
    requires IsConditional(f, first)
  {
    var t := f[first].terminator;
    IsConditional(f, b)
    && (|| f[b].terminator.ifTrue == t.ifTrue || f[b].terminator.ifTrue == t.ifFalse
        || (b == t.ifTrue && HasForeignEntry(f[b], first)))
  }

  ghost predicate UndisturbedOr(f: CFG, c: Chain, k: nat, end: nat)
    requires k < |c.at| && IsConditional(f, c.at[k])
  {
    forall b: nat :: c.at[k] < b < end && b !in c.at ==> !LooksLikeOr(f, c.at[k], b)
  }

  lemma LooksSwapped(f: CFG, first: nat, b: nat)
    requires IsConditional(f, first)
    ensures LooksLikeOr(f, first, b) <==> LooksLikeAnd(Swap(f), first, b)
  {
    if b < |f| {
      assert Swap(f)[b].phis == f[b].phis;
    }
  }

  lemma UndisturbedSwapped(f: CFG, c: Chain, k: nat, end: nat)
    requires k < |c.at| && IsConditional(f, c.at[k])
    ensures UndisturbedOr(f, c, k, end) <==> Undisturbed(Swap(f), Dual(c), k, end)
  {
    forall b: nat ensures LooksLikeOr(f, c.at[k], b) <==> LooksLikeAnd(Swap(f), c.at[k], b) {
      LooksSwapped(f, c.at[k], b);
    }
  }

  lemma OrDetectSwapped(f: CFG, first: nat)
    requires first < |f|
    ensures Or.Detect(f, first) == And.Detect(Swap(f), first)
  {
    if IsConditional(f, first) {
      SwapDetectFrom(f, first, first + 1);
    }
  }

  /** Mutating branch k of a disjunction picks the first positive literal after it, if and only if
      nothing outside the chain looks like an || before; if none follows, nothing is picked if and only
      if nothing in the rest of the function looks like an ||. */
  lemma {:induction false} OrDetects(f: CFG, c: Chain, k: nat)
    requires OrChain(f, c) && k < |c.at|
    ensures var j := FirstPositive(c.ls, k + 1);
      && IsConditional(f, c.at[k])
      && (j < |c.at| ==>
            (Or.Detect(f, c.at[k]) == Found(if c.ls[k].positive then Pattern1 else Pattern2, c.at[j])
             <==> UndisturbedOr(f, c, k, c.at[j])))
      && (j == |c.at| ==> (Or.Detect(f, c.at[k]) == Nothing <==> UndisturbedOr(f, c, k, |f|)))
  {
    OrChainSwapped(f, c);
    AndDetects(Swap(f), Dual(c), k);
    OrDetectSwapped(f, c.at[k]);
    assert IntactOr(f, c, k);
    forall end ensures UndisturbedOr(f, c, k, end) <==> Undisturbed(Swap(f), Dual(c), k, end) {
      UndisturbedSwapped(f, c, k, end);
    }
  }

  function Negate(env: Env): Env {
    x => !env(x)
  }

  ghost predicate Inside(f: CFG, blocks: set<nat>, b: nat, stops: set<nat>) {
    b in stops || (b in blocks && b < |f| && f[b].phis == [])
  }

  /** Conditional blocks that only lead to each other, where they have no phis, and to the stops. */
  ghost predicate Region(f: CFG, blocks: set<nat>, stops: set<nat>) {
    forall b :: b in blocks ==>
      && IsConditional(f, b)
      && Inside(f, blocks, f[b].terminator.ifTrue, stops) && Inside(f, blocks, f[b].terminator.ifFalse, stops)
  }

  /** In such a region, exchanging successors and negating the conditions cancel out. */
  lemma {:induction false} SwapNegates(f: CFG, env: Env, blocks: set<nat>, b: nat, stops: set<nat>, fuel: nat)
    requires Region(f, blocks, stops) && b in blocks
    ensures Leave(Swap(f), Negate(env), b, stops, fuel) == Leave(f, env, b, stops, fuel)
    decreases fuel
  {
    if fuel > 0 {
      var t := f[b].terminator;
      var next := if env(t.condition) then t.ifTrue else t.ifFalse;
      assert Inside(f, blocks, next, stops);
      if next !in stops {
        SwapNegates(f, env, blocks, next, stops, fuel - 1);
        EnterBlock(f, env, b, next, stops, fuel - 1);
        EnterBlock(Swap(f), Negate(env), b, next, stops, fuel - 1);
      }
    }
  }

  function Blocks(c: Chain): set<nat> {
    set b | b in c.at
  }

  lemma ReroutedRegion(f': CFG, f: CFG, c: Chain, k: nat, yes: nat, no: nat, stops: set<nat>)
    requires AndChain(f, c) && k < |c.at| && Rerouted(f', f, c, k, yes, no) && StopsAround(c, stops)
    requires Settled(c, yes, stops) && Settled(c, no, stops)
    ensures Region(f', Blocks(c), stops)
  {
    ReroutedIntact(f', f, c, k, yes, no);
    forall b | b in Blocks(c)
      ensures IsConditional(f', b)
      ensures Inside(f', Blocks(c), f'[b].terminator.ifTrue, stops)
      ensures Inside(f', Blocks(c), f'[b].terminator.ifFalse, stops)
    {
      var i :| 0 <= i < |c.at| && c.at[i] == b;
      if i != k {
        assert Intact(f', c, i);
      }
    }
  }

  lemma SwapRegion(f: CFG, blocks: set<nat>, stops: set<nat>)
    requires Region(f, blocks, stops)
    ensures Region(Swap(f), blocks, stops)
  {
    forall b | b in blocks
      ensures Inside(Swap(f), blocks, Swap(f)[b].terminator.ifTrue, stops)
      ensures Inside(Swap(f), blocks, Swap(f)[b].terminator.ifFalse, stops)
    {
      assert Inside(f, blocks, f[b].terminator.ifTrue, stops) && Inside(f, blocks, f[b].terminator.ifFalse, stops);
    }
  }

  lemma DeMorgan(ls: seq<Literal>, env: Env)
    ensures AllHold(ls, Negate(env)) <==> !SomeHolds(ls, env)
  {
  }

  /** What a mutant of the conjugate graph decides under negated conditions, its image decides. */
  lemma {:induction false} ConjugateDecides(g': CFG, g: CFG, c: Chain, k: nat, yes: nat, no: nat, env: Env,
                                            stops: set<nat>, fuel: nat)
    requires AndChain(g, c) && k < |c.at| && Rerouted(g', g, c, k, yes, no) && StopsAround(c, stops)
    requires Settled(c, yes, stops) && Settled(c, no, stops)
    requires fuel >= |c.at|
    ensures Leave(Swap(g'), env, c.at[0], stops, fuel)
         == if AllHold(c.ls[..k], Negate(env))
            then Onward(c, k, if Holds(c.ls[k], Negate(env)) then yes else no, Negate(env))
            else [c.no]
  {
    ReroutedDecides(g', g, c, k, yes, no, Negate(env), stops, fuel);
    ReroutedRegion(g', g, c, k, yes, no, stops);
    SwapRegion(g', Blocks(c), stops);
    SwapTwice(g');
    SwapNegates(Swap(g'), env, Blocks(c), c.at[0], stops, fuel);
  }

  /** l1 || .. || (lk && (l(k+1) || .. || lj)) || .. || ln. */
  predicate MutatedDisjunction(ls: seq<Literal>, env: Env, k: nat, j: nat)
    requires k < j < |ls|
  {
    SomeHolds(ls[..k], env) || (Holds(ls[k], env) && SomeHolds(ls[k + 1..j + 1], env)) || SomeHolds(ls[j + 1..], env)
  }

  lemma ConjugateEdit(f: CFG, first: nat, g': CFG) returns (f': CFG)
    requires WellFormed(f) && first < |f| && WellFormed(Swap(f)) && And.Apply(Swap(f), first) == Edited(g')
    ensures f' == Swap(g') && Or.Apply(f, first) == Edited(f')
  {
    OrIsConjugateOfAnd(f, first);
    f' := Swap(g');
  }

  lemma ConjunctionNegated(ls: seq<Literal>, env: Env, k: nat, j: nat)
    requires k < j < |ls|
    ensures MutatedConjunction(ls, Negate(env), k, j) <==> !MutatedDisjunction(ls, env, k, j)
  {
    DeMorgan(ls[..k], env);
    DeMorgan(ls[k + 1..j + 1], env);
    DeMorgan(ls[j + 1..], env);
  }

  /** The mutant of the conjugate graph, seen with its successors exchanged. */
  lemma {:induction false} RegroupedImage(g: CFG, c: Chain, k: nat, j: nat, env: Env) returns (g': CFG)
    requires WellFormed(g) && AndChain(g, c) && k < |c.at| && j == FirstPositive(c.ls, k + 1) < |c.at|
    requires IsConditional(g, c.at[k]) && Undisturbed(g, c, k, c.at[j])
    ensures And.Apply(g, c.at[k]) == Edited(g')
    ensures Leave(Swap(g'), env, c.at[0], {c.no, c.yes}, |c.at|)
         == [if MutatedConjunction(c.ls, Negate(env), k, j) then c.yes else c.no]
  {
    g' := AndRegroups(g, c, k, j);
    RegroupedEnd(c, |g|, k, j, Negate(env));
    assert {c.no, c.yes} == {c.yes, c.no};
    ConjugateDecides(g', g, c, k, Next(c, j), Next(c, k), env, {c.yes, c.no}, |c.at|);
  }

  /** OR-to-AND at branch k of a disjunction of any length joins literal k by && with the group up
      to the first positive literal after it. */
  lemma {:induction false} OrMutantDecides(f: CFG, c: Chain, k: nat, j: nat, env: Env) returns (f': CFG)
    requires WellFormed(f) && OrChain(f, c) && k < |c.at| && j == FirstPositive(c.ls, k + 1) < |c.at|
    requires IsConditional(f, c.at[k]) && UndisturbedOr(f, c, k, c.at[j])
    ensures Or.Apply(f, c.at[k]) == Edited(f')
    ensures Leave(f', env, c.at[0], {c.yes, c.no}, |c.at|)
         == [if MutatedDisjunction(c.ls, env, k, j) then c.yes else c.no]
  {
    OrChainSwapped(f, c);
    SwapWellFormed(f);
    UndisturbedSwapped(f, c, k, c.at[j]);
    var g' := RegroupedImage(Swap(f), Dual(c), k, j, env);
    f' := ConjugateEdit(f, c.at[k], g');
    ConjunctionNegated(c.ls, env, k, j);
  }

  lemma {:induction false} RegroupedRegion(g: CFG, c: Chain, k: nat, j: nat) returns (g': CFG)
    requires WellFormed(g) && AndChain(g, c) && k < |c.at| && j == FirstPositive(c.ls, k + 1) < |c.at|
    requires IsConditional(g, c.at[k]) && Undisturbed(g, c, k, c.at[j])
    ensures And.Apply(g, c.at[k]) == Edited(g') && Region(Swap(g'), Blocks(c), {c.yes, c.no})
  {
    hide Undisturbed, Rerouted, Region, And.Apply;
    g' := AndRegroups(g, c, k, j);
    RegroupedEnd(c, |g|, k, j, x => true);
    ReroutedRegion(g', g, c, k, Next(c, j), Next(c, k), {c.yes, c.no});
    SwapRegion(g', Blocks(c), {c.yes, c.no});
  }

  /** The regrouped chain is jump code still. */
  lemma {:induction false} OrRegroupedRegion(f: CFG, c: Chain, k: nat, j: nat, f': CFG)
    requires WellFormed(f) && OrChain(f, c) && k < |c.at| && j == FirstPositive(c.ls, k + 1) < |c.at|
    requires IsConditional(f, c.at[k]) && UndisturbedOr(f, c, k, c.at[j]) && Or.Apply(f, c.at[k]) == Edited(f')
    ensures Region(f', Blocks(c), {c.yes, c.no})
  {
    hide Undisturbed, UndisturbedOr, Region, And.Apply, Or.Apply;
    OrChainSwapped(f, c);
    SwapWellFormed(f);
    UndisturbedSwapped(f, c, k, c.at[j]);
    var g' := RegroupedRegion(Swap(f), Dual(c), k, j);
    var f1 := ConjugateEdit(f, c.at[k], g');
    assert {c.no, c.yes} == {c.yes, c.no} && Blocks(Dual(c)) == Blocks(c);
  }

  /** If no positive literal follows branch k, the function is left alone if and only if nothing in the
      rest of it looks like an ||. */
  lemma {:induction false} OrLeavesAlone(f: CFG, c: Chain, k: nat)
    requires WellFormed(f) && OrChain(f, c) && k < |c.at| && FirstPositive(c.ls, k + 1) == |c.at|
    ensures IsConditional(f, c.at[k])
    ensures Or.Apply(f, c.at[k]) == Edited(f) <==> UndisturbedOr(f, c, k, |f|)
  {
    OrChainSwapped(f, c);
    OrIsConjugateOfAnd(f, c.at[k]);
    AndLeavesAlone(Swap(f), Dual(c), k);
    UndisturbedSwapped(f, c, k, |f|);
    SwapTwice(f);
    if And.Apply(Swap(f), c.at[k]).Edited? {
      SwapTwice(And.Apply(Swap(f), c.at[k]).f);
    }
  }

  ghost predicate StraysOr(f: CFG, c: Chain, k: nat, b: nat)
    requires k < |c.at| == |c.ls| && IsConditional(f, c.at[k])
  {
    && c.at[k] < b && b !in c.at && LooksLikeOr(f, c.at[k], b) && UndisturbedOr(f, c, k, b)
    && (FirstPositive(c.ls, k + 1) < |c.at| ==> b < c.at[FirstPositive(c.ls, k + 1)])
  }

  lemma StraysSwapped(f: CFG, c: Chain, k: nat, b: nat)
    requires OrChain(f, c) && k < |c.at| && IsConditional(f, c.at[k]) && StraysOr(f, c, k, b)
    ensures AndChain(Swap(f), Dual(c)) && Strays(Swap(f), Dual(c), k, b)
    ensures f[b].terminator.Conditional?
  {
    OrChainSwapped(f, c);
    LooksSwapped(f, c.at[k], b);
    UndisturbedSwapped(f, c, k, b);
  }

  /** Where control ends up that literal k of a disjunction sends to `target`. */
  ghost function OnwardOr(c: Chain, k: nat, target: nat, env: Env): (ends: seq<nat>)
    requires |c.at| == |c.ls|
  {
    Onward(Dual(c), k, target, Negate(env))
  }

  /** At a later block of the chain the rest of it decides, an earlier one leads back forever. */
  lemma OnwardOrAt(c: Chain, n: nat, k: nat, i: nat, target: nat, env: Env)
    requires WellPlaced(c, n)
    ensures 0 < i < |c.at| && target == c.at[i] ==>
      OnwardOr(c, k, target, env) == if i <= k then [] else [if SomeHolds(c.ls[i..], env) then c.yes else c.no]
    ensures Outside(c, target) ==> OnwardOr(c, k, target, env) == [target]
  {
    if 0 < i < |c.at| && target == c.at[i] {
      OnwardAt(Dual(c), n, k, i, Negate(env));
      DeMorgan(c.ls[i..], env);
    }
  }

  lemma {:induction false} StrayToNoImage(g: CFG, c: Chain, k: nat, b: nat, env: Env, fuel: nat) returns (g': CFG)
    requires WellFormed(g) && AndChain(g, c) && k < |c.at| && IsConditional(g, c.at[k]) && Strays(g, c, k, b)
    requires g[b].terminator.ifFalse == c.no && fuel >= |c.at|
    ensures And.Apply(g, c.at[k]) == Edited(g')
    ensures var target := g[b].terminator.ifTrue;
      Leave(Swap(g'), env, c.at[0], Stops(c, target), fuel)
      == if !AllHold(c.ls[..k], Negate(env)) then [c.no]
         else if !Holds(c.ls[k], env) then Onward(c, k, target, Negate(env))
         else if AllHold(c.ls[k + 1..], Negate(env)) then [c.yes] else [c.no]
  {
    StrayIsDetected(g, c, k, b);
    g' := AndReroutes(g, c, k, b);
    var target := g[b].terminator.ifTrue;
    StopsSettle(c, |g|, k, target);
    OnwardNext(c, |g|, k, k, Negate(env));
    ConjugateDecides(g', g, c, k, target, Next(c, k), env, Stops(c, target), fuel);
  }

  lemma SameStops(c: Chain, target: nat)
    ensures Stops(Dual(c), target) == Stops(c, target)
  {
  }

  /** What a disjunction decides if the scan leaves it for a branch that jumps to `yes`: literal k if it
      fails goes on from the false successor of that branch, and otherwise the rest decides. */
  lemma {:induction false} OrStraysToYes(f: CFG, c: Chain, k: nat, b: nat, env: Env, fuel: nat) returns (f': CFG)
    requires WellFormed(f) && OrChain(f, c) && k < |c.at| && IsConditional(f, c.at[k]) && StraysOr(f, c, k, b)
    requires IsConditional(f, b) && f[b].terminator.ifTrue == c.yes && fuel >= |c.at|
    ensures Or.Apply(f, c.at[k]) == Edited(f')
    ensures var target := f[b].terminator.ifFalse;
      Leave(f', env, c.at[0], Stops(c, target), fuel)
      == if SomeHolds(c.ls[..k], env) then [c.yes]
         else if !Holds(c.ls[k], env) then OnwardOr(c, k, target, env)
         else if SomeHolds(c.ls[k + 1..], env) then [c.yes] else [c.no]
  {
    StraysSwapped(f, c, k, b);
    SwapWellFormed(f);
    SameStops(c, f[b].terminator.ifFalse);
    var g' := StrayToNoImage(Swap(f), Dual(c), k, b, env, fuel);
    f' := ConjugateEdit(f, c.at[k], g');
    DeMorgan(c.ls[..k], env);
    DeMorgan(c.ls[k + 1..], env);
  }

  lemma {:induction false} StrayToNextImage(g: CFG, c: Chain, k: nat, b: nat, env: Env, fuel: nat) returns (g': CFG)
    requires WellFormed(g) && AndChain(g, c) && k < |c.at| && IsConditional(g, c.at[k]) && Strays(g, c, k, b)
    requires g[b].terminator.ifFalse == Next(c, k) && fuel >= |c.at|
    ensures And.Apply(g, c.at[k]) == Edited(g')
    ensures var target := g[b].terminator.ifTrue;
      Leave(Swap(g'), env, c.at[0], Stops(c, target), fuel)
      == if AllHold(c.ls[..k], Negate(env)) && Holds(c.ls[k], env) then Onward(c, k, target, Negate(env)) else [c.no]
  {
    StrayIsDetected(g, c, k, b);
    g' := AndReroutes(g, c, k, b);
    var target := g[b].terminator.ifTrue;
    StopsSettle(c, |g|, k, target);
    OnwardNext(c, |g|, k, k, Negate(env));
    ConjugateDecides(g', g, c, k, c.no, target, env, Stops(c, target), fuel);
  }

  /** If that branch jumps to where literal k goes on: literal k if it fails goes to `yes`, and if it
      holds goes on from the false successor of that branch. */
  lemma {:induction false} OrStraysToNext(f: CFG, c: Chain, k: nat, b: nat, env: Env, fuel: nat) returns (f': CFG)
    requires WellFormed(f) && OrChain(f, c) && k < |c.at| && IsConditional(f, c.at[k]) && StraysOr(f, c, k, b)
    requires IsConditional(f, b) && f[b].terminator.ifTrue == Next(Dual(c), k) && fuel >= |c.at|
    ensures Or.Apply(f, c.at[k]) == Edited(f')
    ensures var target := f[b].terminator.ifFalse;
      Leave(f', env, c.at[0], Stops(c, target), fuel)
      == if !SomeHolds(c.ls[..k], env) && Holds(c.ls[k], env) then OnwardOr(c, k, target, env) else [c.yes]
  {
    StraysSwapped(f, c, k, b);
    SwapWellFormed(f);
    SameStops(c, f[b].terminator.ifFalse);
    var g' := StrayToNextImage(Swap(f), Dual(c), k, b, env, fuel);
    f' := ConjugateEdit(f, c.at[k], g');
    DeMorgan(c.ls[..k], env);
  }

  lemma {:induction false} StrayByPhiImage(g: CFG, c: Chain, k: nat, b: nat, env: Env)
    requires WellFormed(g) && AndChain(g, c) && k < |c.at| && IsConditional(g, c.at[k]) && Strays(g, c, k, b)
    requires g[b].terminator.ifFalse !in {c.no, Next(c, k)}
    ensures And.Apply(g, c.at[k]) == FlipPhi(g, c.at[k], b)
    ensures And.Apply(g, c.at[k]).Edited? ==>
      Leave(Swap(And.Apply(g, c.at[k]).f), env, c.at[0], {c.no, c.yes}, |c.at|)
      == [if AllHold(c.ls[..k], Negate(env)) && Holds(c.ls[k], env) && AllHold(c.ls[k + 1..], Negate(env))
          then c.yes else c.no]
  {
    AndStraysByPhi(g, c, k, b, env);
    assert Intact(g, c, k);
    if And.Apply(g, c.at[k]).Edited? {
      var g' := And.Apply(g, c.at[k]).f;
      assert Rerouted(g', g, c, k, c.no, Next(c, k));
      StopsSettle(c, |g|, k, c.no);
      OnwardNext(c, |g|, k, k, Negate(env));
      assert Stops(c, c.no) == {c.no, c.yes};
      ConjugateDecides(g', g, c, k, c.no, Next(c, k), env, {c.no, c.yes}, |c.at|);
    }
  }

  /** Otherwise pattern 3 is taken, and literal k is negated if its assertions hold. */
  lemma {:induction false} OrStraysByPhi(f: CFG, c: Chain, k: nat, b: nat, env: Env)
    requires WellFormed(f) && OrChain(f, c) && k < |c.at| && IsConditional(f, c.at[k]) && StraysOr(f, c, k, b)
    requires IsConditional(f, b) && f[b].terminator.ifTrue !in {c.yes, Next(Dual(c), k)}
    ensures Or.Apply(f, c.at[k]) == FlipPhi(f, c.at[k], b)
    ensures Or.Apply(f, c.at[k]).Edited? ==>
      Leave(Or.Apply(f, c.at[k]).f, env, c.at[0], {c.yes, c.no}, |c.at|)
      == [if SomeHolds(c.ls[..k], env) || !Holds(c.ls[k], env) || SomeHolds(c.ls[k + 1..], env) then c.yes else c.no]
  {
    StraysSwapped(f, c, k, b);
    OrIsConjugateOfAnd(f, c.at[k]);
    StrayByPhiImage(Swap(f), Dual(c), k, b, env);
    SwapFlip(f, c.at[k], b);
    SwapTwice(f);
    DeMorgan(c.ls[..k], env);
    DeMorgan(c.ls[k + 1..], env);
    if And.Apply(Swap(f), c.at[k]).Edited? {
      SwapTwice(FlipPhi(f, c.at[k], b).f);
    }
  }

  /** if (!(a || !b)) { if (!c) .. } is the dual of the graph on which the scan for && leaves its chain:
      no positive literal follows a, and yet mutating a picks the unrelated inner branch. */
  lemma OrScanLeavesChain()
    ensures var f := [Block([], Conditional("a", 4, 1)), Block([], Conditional("b", 2, 4)),
                      Block([], Conditional("c", 4, 3)), Block([], Other([])), Block([], Other([]))];
      var c := Chain([0, 1], [Literal("a", true), Literal("b", false)], 4, 2);
      && WellFormed(f) && OrChain(f, c) && FirstPositive(c.ls, 1) == |c.at|
      && Or.Detect(f, 0) == Found(Pattern1, 2) && Or.Apply(f, 0).Edited? && Or.Apply(f, 0) != Edited(f)
  {
    var g := [Block([], Conditional("a", 1, 4)), Block([], Conditional("b", 4, 2)),
              Block([], Conditional("c", 3, 4)), Block([], Other([])), Block([], Other([]))];
    var f := [Block([], Conditional("a", 4, 1)), Block([], Conditional("b", 2, 4)),
              Block([], Conditional("c", 4, 3)), Block([], Other([])), Block([], Other([]))];
    ScanLeavesChain();
    assert f == Swap(g);
    SwapTwice(g);
    SwapTwice(And.Apply(g, 0).f);
    SwapWellFormed(g);
    OrIsConjugateOfAnd(f, 0);
  }

  // ---- The inverse ------------------------------------------------------------------------------

  /** In the regrouped chain, of the blocks of literals k + 1 to j only the last looks like an ||. */
  lemma LiteralLooksLikeOr(f': CFG, f: CFG, c: Chain, k: nat, j: nat, i: nat)
    requires AndChain(f, c) && k < j < |c.at| && j == FirstPositive(c.ls, k + 1) && k < i <= j
    requires Rerouted(f', f, c, k, Next(c, j), Next(c, k))
    ensures IsConditional(f', c.at[k]) && (LooksLikeOr(f', c.at[k], c.at[i]) <==> i == j)
  {
    ReroutedIntact(f', f, c, k, Next(c, j), Next(c, k));
    assert Intact(f', c, i);
  }

  lemma OrDetectIsFirst(f: CFG, first: nat, b: nat)
    requires IsConditional(f, first) && first < b < |f|
    ensures Or.Detect(f, first).Found? && Or.Detect(f, first).second == b
       <==> LooksLikeOr(f, first, b) && forall j :: first < j < b ==> !LooksLikeOr(f, first, j)
  {
    OrDetectSwapped(f, first);
    DetectIsFirst(Swap(f), first, b);
    forall j: nat ensures LooksLikeOr(f, first, j) <==> LooksLikeAnd(Swap(f), first, j) {
      LooksSwapped(f, first, j);
    }
  }

  /** OR-to-AND at the branch that AND-to-OR just rewrote finds the same second branch, if and only if
      nothing outside the chain looks like an || before it. */
  lemma {:induction false} OrFindsAgain(f: CFG, c: Chain, k: nat, j: nat, f': CFG)
    requires WellFormed(f) && AndChain(f, c) && k < |c.at| && j == FirstPositive(c.ls, k + 1) < |c.at|
    requires IsConditional(f, c.at[k]) && Undisturbed(f, c, k, c.at[j]) && And.Apply(f, c.at[k]) == Edited(f')
    ensures IsConditional(f', c.at[k])
    ensures Or.Detect(f', c.at[k]) == And.Detect(f, c.at[k]) <==> UndisturbedOr(f', c, k, c.at[j])
  {
    var f1 := AndRegroups(f, c, k, j);
    AndDetects(f, c, k);
    LiteralLooksLikeOr(f', f, c, k, j, j);
    OrDetectIsFirst(f', c.at[k], c.at[j]);
    forall b | c.at[k] < b < c.at[j] ensures LooksLikeOr(f', c.at[k], b) ==> b !in c.at {
      if b in c.at {
        var i :| 0 <= i < |c.at| && c.at[i] == b;
        LiteralLooksLikeOr(f', f, c, k, j, i);
      }
    }
    ReroutedIntact(f', f, c, k, Next(c, j), Next(c, k));
    assert Intact(f', c, j);
    assert Or.Match(f', c.at[k], c.at[j]) == Found(if c.ls[k].positive then Pattern1 else Pattern2, c.at[j]);
  }

  /** Rewriting the regrouped branch with the second branch it came from puts back its successors. */
  lemma {:induction false} OrRestores(f': CFG, first: nat, second: nat, l: Literal, condition: string,
                                      skip: nat, next: nat, no: nat) returns (f'': CFG)
    requires WellFormed(f') && first < |f'| && second < |f'| && first != second && no < |f'|
    requires f'[first].terminator == LiteralBranch(l, skip, next)
    requires f'[second].terminator == Conditional(condition, skip, no)
    requires Or.Detect(f', first) == Found(if l.positive then Pattern1 else Pattern2, second)
    ensures Or.Apply(f', first) == Edited(f'') && |f''| == |f'|
    ensures f''[first].terminator == LiteralBranch(l, next, no)
    ensures forall b :: 0 <= b < |f'| && b != first ==> f''[b].terminator == f'[b].terminator
  {
    var f1 := if l.positive then WithBranch(f', first, next, no) else WithBranch(f', first, no, next);
    f'' := PatchPhis(f1, second, no, first);
    PatchLeavesTerminators(f1, second, no, first);
  }

  lemma ReroutedWellFormed(f': CFG, f: CFG, c: Chain, k: nat, yes: nat, no: nat)
    requires WellFormed(f) && k < |c.at| == |c.ls| && Rerouted(f', f, c, k, yes, no) && yes < |f| && no < |f|
    ensures WellFormed(f')
  {
    forall b | 0 <= b < |f'| ensures InRange(f'[b].terminator, |f'|) {
      assert b != c.at[k] ==> f'[b].terminator == f[b].terminator && InRange(f[b].terminator, |f|);
    }
  }

  /** It then restores every branch of the function. */
  lemma {:induction false} OrUndoesAnd(f: CFG, c: Chain, k: nat, j: nat, f': CFG) returns (f'': CFG)
    requires WellFormed(f) && AndChain(f, c) && k < |c.at| && j == FirstPositive(c.ls, k + 1) < |c.at|
    requires IsConditional(f, c.at[k]) && Undisturbed(f, c, k, c.at[j]) && And.Apply(f, c.at[k]) == Edited(f')
    requires IsConditional(f', c.at[k]) && UndisturbedOr(f', c, k, c.at[j])
    ensures WellFormed(f') && |f'| == |f| && Or.Apply(f', c.at[k]) == Edited(f'') && |f''| == |f|
    ensures forall b :: 0 <= b < |f| ==> f''[b].terminator == f[b].terminator
  {
    var f1 := AndRegroups(f, c, k, j);
    OrFindsAgain(f, c, k, j, f');
    AndDetects(f, c, k);
    ReroutedWellFormed(f', f, c, k, Next(c, j), Next(c, k));
    assert Intact(f, c, j) && Intact(f, c, k);
    f'' := OrRestores(f', c.at[k], c.at[j], c.ls[k], c.ls[j].condition, Next(c, j), Next(c, k), c.no);
  }
}
