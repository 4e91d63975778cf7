/**
 What the two mutators make of diamonds. A literal that a positive one follows is regrouped by patterns 1
 and 2 as in jump code. Otherwise pattern 3 applies, which negates entry 0 of the phi, whichever block
 that is for.
 */
module DiamondMutants {
  import opened ControlFlow
  import opened LogicalChains
  import opened LogicalDisjunctions
  import opened LogicalDiamonds
  import And = LogicalAndToOr
  import Or = LogicalOrToAnd

  // ---- Patterns 1 and 2 -----------------------------------------------------------------------------

  /** AND-to-OR at a literal that a positive one follows: the group up to that one is joined by || as in
      jump code. */
  lemma {:induction false} AndRegroupsDiamond(f: CFG, d: Diamond, k: nat, j: nat, env: Env) returns (f': CFG)
    requires WellFormed(f) && IsConjunction(f, d) && k < |d.at| && j == FirstPositive(d.ls, k + 1) < |d.at|
    requires IsConditional(f, d.at[k]) && Undisturbed(f, Conjunction(d), k, d.at[j])
    ensures And.Apply(f, d.at[k]) == Edited(f')
    ensures Leave(f', env, d.at[0], {d.yes, d.no}, |d.at| + 2)
         == [if MutatedConjunction(d.ls, env, k, j) && env(d.rhs) then d.yes else d.no]
  {
    hide Undisturbed, Region, Feeds, AndChain, MutatedConjunction;
    f' := RegroupedJumps(f, d, k, j, env);
    JumpsMeet(f', d, false, env, d.at[0], if MutatedConjunction(d.ls, env, k, j) then d.last else d.e, |d.at|);
  }

  lemma {:induction false} RegroupedJumps(f: CFG, d: Diamond, k: nat, j: nat, env: Env) returns (f': CFG)
    requires WellFormed(f) && IsConjunction(f, d) && k < |d.at| && j == FirstPositive(d.ls, k + 1) < |d.at|
    requires IsConditional(f, d.at[k]) && Undisturbed(f, Conjunction(d), k, d.at[j])
    ensures And.Apply(f, d.at[k]) == Edited(f') && Meets(f', d) && Feeds(f'[d.e].phis[0].incoming, d, false)
    ensures Region(f', Blocks(Conjunction(d)), {d.last, d.e})
    ensures Leave(f', env, d.at[0], {d.last, d.e}, |d.at|)
         == [if MutatedConjunction(d.ls, env, k, j) then d.last else d.e]
  {
    hide Undisturbed, Rerouted, StopsAround, Settled, Region, Feeds, Meets, Intact, MutatedConjunction;
    var c := Conjunction(d);
    f' := AndMutantDecides(f, c, k, j, env);
    var f1 := AndRegroups(f, c, k, j);
    AndDetects(f, c, k);
    AndSameMeeting(f, d, k, j, f');
    MeetsStill(f', f, d);
    RegroupedEnd(c, |f|, k, j, env);
    ReroutedRegion(f', f, c, k, Next(c, j), Next(c, k), {c.yes, c.no});
  }

  lemma {:induction false} AndSameMeeting(f: CFG, d: Diamond, k: nat, j: nat, f': CFG)
    requires WellFormed(f) && IsConjunction(f, d) && k < j < |d.at| && d.ls[j].positive && IsConditional(f, d.at[k])
    requires And.Detect(f, d.at[k]) == Found(if d.ls[k].positive then Pattern1 else Pattern2, d.at[j])
    requires And.Apply(f, d.at[k]) == Edited(f')
    ensures SameMeeting(f', f, d)
  {
    var c := Conjunction(d);
    assert Intact(f, c, k) && Intact(f, c, j);
    var (t, target) := (f[d.at[k]].terminator, f[d.at[j]].terminator.ifTrue);
    assert target == Next(c, j);
    var f1 := if d.ls[k].positive then WithBranch(f, d.at[k], target, t.ifTrue)
              else WithBranch(f, d.at[k], t.ifFalse, target);
    PatchedElsewhere(f1, d.at[j], target, d.at[k], d.e);
    PatchedElsewhere(f1, d.at[j], target, d.at[k], d.last);
  }

  lemma {:induction false} OrSameMeeting(f: CFG, d: Diamond, k: nat, j: nat, f': CFG)
    requires WellFormed(f) && IsDisjunction(f, d) && k < j < |d.at| && d.ls[j].positive && IsConditional(f, d.at[k])
    requires Or.Detect(f, d.at[k]) == Found(if d.ls[k].positive then Pattern1 else Pattern2, d.at[j])
    requires Or.Apply(f, d.at[k]) == Edited(f')
    ensures SameMeeting(f', f, d)
  {
    hide Feeds, OrChain;
    DisjunctionSteps(f, d);
    assert StepsAt(f, d, k, false) && StepsAt(f, d, j, false);
    var (t, target) := (f[d.at[k]].terminator, f[d.at[j]].terminator.ifFalse);
    assert target == Then(d, j);
    var f1 := if d.ls[k].positive then WithBranch(f, d.at[k], t.ifFalse, target)
              else WithBranch(f, d.at[k], target, t.ifTrue);
    PatchedElsewhere(f1, d.at[j], target, d.at[k], d.e);
    PatchedElsewhere(f1, d.at[j], target, d.at[k], d.last);
  }

  lemma {:induction false} RegroupedJumpsOr(f: CFG, d: Diamond, k: nat, j: nat, env: Env) returns (f': CFG)
    requires WellFormed(f) && IsDisjunction(f, d) && k < |d.at| && j == FirstPositive(d.ls, k + 1) < |d.at|
    requires IsConditional(f, d.at[k]) && UndisturbedOr(f, Disjunction(d), k, d.at[j])
    ensures Or.Apply(f, d.at[k]) == Edited(f') && Meets(f', d) && Feeds(f'[d.e].phis[0].incoming, d, true)
    ensures Region(f', Blocks(Conjunction(d)), {d.last, d.e})
    ensures Leave(f', env, d.at[0], {d.last, d.e}, |d.at|)
         == [if MutatedDisjunction(d.ls, env, k, j) then d.e else d.last]
  {
    hide UndisturbedOr, Region, Feeds, Meets, MutatedDisjunction;
    var c := Disjunction(d);
    f' := OrMutantDecides(f, c, k, j, env);
    OrRegroupedRegion(f, c, k, j, f');
    OrDetects(f, c, k);
    OrSameMeeting(f, d, k, j, f');
    MeetsStill(f', f, d);
    assert {c.yes, c.no} == {d.last, d.e} && Blocks(c) == Blocks(Conjunction(d));
  }

  /** OR-to-AND at a literal that a positive one follows: the same. */
  lemma {:induction false} OrRegroupsDiamond(f: CFG, d: Diamond, k: nat, j: nat, env: Env) returns (f': CFG)
    requires WellFormed(f) && IsDisjunction(f, d) && k < |d.at| && j == FirstPositive(d.ls, k + 1) < |d.at|
    requires IsConditional(f, d.at[k]) && UndisturbedOr(f, Disjunction(d), k, d.at[j])
    ensures Or.Apply(f, d.at[k]) == Edited(f')
    ensures Leave(f', env, d.at[0], {d.yes, d.no}, |d.at| + 2)
         == [if MutatedDisjunction(d.ls, env, k, j) || env(d.rhs) then d.yes else d.no]
  {
    hide UndisturbedOr, Region, Feeds, OrChain, MutatedDisjunction;
    f' := RegroupedJumpsOr(f, d, k, j, env);
    JumpsMeet(f', d, true, env, d.at[0], if MutatedDisjunction(d.ls, env, k, j) then d.e else d.last, |d.at|);
  }

  // ---- Pattern 3 ------------------------------------------------------------------------------------

  /** Literal k is positive, its block comes before e, and nothing in between looks like an &&. */
  ghost predicate ClearForAnd(f: CFG, d: Diamond, k: nat)
    requires k < |d.at| == |d.ls| && IsConditional(f, d.at[k])
  {
    d.ls[k].positive && d.at[k] < d.e && forall b :: d.at[k] < b < d.e ==> !LooksLikeAnd(f, d.at[k], b)
  }

  lemma MeetingLooksLikeAnd(f: CFG, d: Diamond, k: nat)
    requires IsConjunction(f, d) && k < |d.at|
    ensures IsConditional(f, d.at[k]) && (LooksLikeAnd(f, d.at[k], d.e) <==> d.ls[k].positive)
    ensures d.ls[k].positive ==> And.Match(f, d.at[k], d.e) == Found(Pattern3, d.e)
  {
    assert Intact(f, Conjunction(d), k);
    var n := IndexOf(f[d.e].phis[0].incoming, d.last);
    assert f[d.e].phis[0].incoming[n].1 == d.last != d.at[k];
    assert Then(d, k) == Next(Conjunction(d), k);
    assert d.e !in d.at && d.no !in d.at + [d.last, d.e];
    assert Then(d, k) in d.at + [d.last, d.e];
  }

  /** AND-to-OR detects pattern 3 at literal k if and only if it is clear. */
  lemma {:induction false} AndFindsDiamond(f: CFG, d: Diamond, k: nat)
    requires IsConjunction(f, d) && k < |d.at|
    ensures IsConditional(f, d.at[k])
    ensures And.Detect(f, d.at[k]) == Found(Pattern3, d.e) <==> ClearForAnd(f, d, k)
  {
    hide Feeds, AndChain, LooksLikeAnd;
    MeetingLooksLikeAnd(f, d, k);
    if d.at[k] < d.e {
      DetectIsFirst(f, d.at[k], d.e);
    }
  }

  /** Pattern 3 at literal k of a conjunction. */
  lemma {:induction false} AndFlipsDiamond(f: CFG, d: Diamond, k: nat, env: Env)
    requires WellFormed(f) && IsConjunction(f, d) && k < |d.at| && IsConditional(f, d.at[k]) && ClearForAnd(f, d, k)
    ensures And.Apply(f, d.at[k]) == FlipPhi(f, d.at[k], d.e)
    ensures Flips(And.Apply(f, d.at[k]), f, d, k, true, env)
  {
    hide ClearForAnd, Flips, Feeds, Intact, And.Detect, FlipPhi;
    AndFindsDiamond(f, d, k);
    ConjunctionSteps(f, d);
    FlipFlips(f, d, k, true, env);
  }

  /** Pattern 3 at literal k decides what is intended, if and only if entry 0 of the phi is for block k. */
  lemma {:induction false} AndDiamond(f: CFG, d: Diamond, k: nat)
    requires WellFormed(f) && IsConjunction(f, d) && k < |d.at| && IsConditional(f, d.at[k]) && ClearForAnd(f, d, k)
    requires OwnConditions(d.ls) && And.Apply(f, d.at[k]).Edited?
    ensures (forall env :: Leave(And.Apply(f, d.at[k]).f, env, d.at[0], {d.yes, d.no}, |d.at| + 2)
                           == [if JoinedLast(d, k, true, env) then d.yes else d.no])
       <==> f[d.e].phis[0].incoming[0].1 == d.at[k]
  {
    hide ClearForAnd, Leave, AndChain, And.Apply, Flips, JoinedLast;
    forall env ensures Flips(And.Apply(f, d.at[k]), f, d, k, true, env) {
      AndFlipsDiamond(f, d, k, env);
    }
    FlipsJoined(And.Apply(f, d.at[k]), f, d, k, true);
  }

  /** x = a && b && c. */
  function Three(): CFG {
    var phi := Phi("x", [(Constant(false), 0), (Constant(false), 1), (Variable("c"), 2)]);
    [Block([], Conditional("a", 1, 3)), Block([], Conditional("b", 2, 3)), Block([], Other([3])),
     Block([phi], Conditional("x", 4, 5)), Block([], Other([])), Block([], Other([]))]
  }

  function ThreeLiterals(): Diamond {
    Diamond([0, 1], [Literal("a", true), Literal("b", true)], 2, "c", 3, 4, 5)
  }

  lemma ThreeFed()
    ensures Feeds(Three()[3].phis[0].incoming, ThreeLiterals(), false)
  {
    var incoming := Three()[3].phis[0].incoming;
    var later := incoming[1..];
    assert later == [(Constant(false), 1), (Variable("c"), 2)] && later[1..] == [(Variable("c"), 2)];
    assert IndexOf(later[1..], 2) == 0;
    assert IndexOf(later, 1) == 0 && IndexOf(later, 2) == 1;
    assert IndexOf(incoming, 0) == 0 && IndexOf(incoming, 1) == 1 && IndexOf(incoming, 2) == 2;
  }

  lemma ThreeIsConjunction()
    ensures WellFormed(Three()) && IsConjunction(Three(), ThreeLiterals())
  {
    hide Feeds;
    ThreeFed();
    var (f, c) := (Three(), Conjunction(ThreeLiterals()));
    assert Intact(f, c, 0) && Intact(f, c, 1);
  }

  lemma ThreeIsClear()
    ensures ClearForAnd(Three(), ThreeLiterals(), 1)
  {
  }

  /** In a && b && c entry 0 of the phi is for a's block, and yet mutating b negates it: with a, b and c all
      false the mutant is true, which neither a && b && c nor a && (b || c) is. */
  lemma LastOfThree()
    ensures var (f, d, env) := (Three(), ThreeLiterals(), (x: string) => false);
      && WellFormed(f) && IsConjunction(f, d) && ClearForAnd(f, d, 1) && And.Apply(f, 1).Edited?
      && Leave(f, env, 0, {4, 5}, 4) == [5] && Leave(And.Apply(f, 1).f, env, 0, {4, 5}, 4) == [4]
      && !JoinedLast(d, 1, true, env)
  {
    hide IsConjunction, ClearForAnd, And.Apply, Leave;
    var (f, d, env) := (Three(), ThreeLiterals(), (x: string) => false);
    ThreeIsConjunction();
    ThreeIsClear();
    assert !Holds(d.ls[0], env) && d.ls[..1] == [d.ls[0]];
    ConjunctionDecides(f, d, env);
    AndFlipsDiamond(f, d, 1, env);
    FirstStopIs(d.ls[1 := Negated(d.ls[1])], 0, true, env);
    assert d.at[0] == f[d.e].phis[0].incoming[0].1;
  }

  // ---- The dual -------------------------------------------------------------------------------------

  ghost predicate ClearForOr(f: CFG, d: Diamond, k: nat)
    requires k < |d.at| == |d.ls| && IsConditional(f, d.at[k])
  {
    d.ls[k].positive && d.at[k] < d.e && forall b :: d.at[k] < b < d.e ==> !LooksLikeOr(f, d.at[k], b)
  }

  lemma MeetingLooksLikeOr(f: CFG, d: Diamond, k: nat)
    requires IsDisjunction(f, d) && k < |d.at|
    ensures IsConditional(f, d.at[k]) && (LooksLikeOr(f, d.at[k], d.e) <==> d.ls[k].positive)
    ensures d.ls[k].positive ==> Or.Match(f, d.at[k], d.e) == Found(Pattern3, d.e)
  {
    hide OrChain;
    DisjunctionSteps(f, d);
    assert StepsAt(f, d, k, false);
    var n := IndexOf(f[d.e].phis[0].incoming, d.last);
    assert f[d.e].phis[0].incoming[n].1 == d.last != d.at[k];
    assert d.e !in d.at && d.yes !in d.at + [d.last, d.e];
    assert Then(d, k) in d.at + [d.last, d.e];
  }

  /** OR-to-AND detects pattern 3 at literal k of a disjunction if and only if it is clear. */
  lemma {:induction false} OrFindsDiamond(f: CFG, d: Diamond, k: nat)
    requires IsDisjunction(f, d) && k < |d.at|
    ensures IsConditional(f, d.at[k])
    ensures Or.Detect(f, d.at[k]) == Found(Pattern3, d.e) <==> ClearForOr(f, d, k)
  {
    hide Feeds, OrChain, LooksLikeOr;
    MeetingLooksLikeOr(f, d, k);
    if d.at[k] < d.e {
      OrDetectIsFirst(f, d.at[k], d.e);
    }
  }

  lemma {:induction false} OrFlipsDiamond(f: CFG, d: Diamond, k: nat, env: Env)
    requires WellFormed(f) && IsDisjunction(f, d) && k < |d.at| && IsConditional(f, d.at[k]) && ClearForOr(f, d, k)
    ensures Or.Apply(f, d.at[k]) == FlipPhi(f, d.at[k], d.e)
    ensures Flips(Or.Apply(f, d.at[k]), f, d, k, false, env)
  {
    hide ClearForOr, Flips, Feeds, Or.Detect, FlipPhi;
    OrFindsDiamond(f, d, k);
    DisjunctionSteps(f, d);
    FlipFlips(f, d, k, false, env);
  }

  lemma {:induction false} OrDiamond(f: CFG, d: Diamond, k: nat)
    requires WellFormed(f) && IsDisjunction(f, d) && k < |d.at| && IsConditional(f, d.at[k]) && ClearForOr(f, d, k)
    requires OwnConditions(d.ls) && Or.Apply(f, d.at[k]).Edited?
    ensures (forall env :: Leave(Or.Apply(f, d.at[k]).f, env, d.at[0], {d.yes, d.no}, |d.at| + 2)
                           == [if JoinedLast(d, k, false, env) then d.yes else d.no])
       <==> f[d.e].phis[0].incoming[0].1 == d.at[k]
  {
    hide ClearForOr, Leave, OrChain, Or.Apply, Flips, JoinedLast;
    forall env ensures Flips(Or.Apply(f, d.at[k]), f, d, k, false, env) {
      OrFlipsDiamond(f, d, k, env);
    }
    FlipsJoined(Or.Apply(f, d.at[k]), f, d, k, false);
  }
}
