/**
 Conjunctions lowered to jump code, and what AND-to-OR makes of them: chains of any number of
 literals, each possibly negated.
 */
module LogicalChains {
  import opened ControlFlow
  import And = LogicalAndToOr

  /** A condition, possibly negated. */
  datatype Literal = Literal(condition: string, positive: bool)

  predicate Holds(l: Literal, env: Env) {
    env(l.condition) == l.positive
  }

  predicate AllHold(ls: seq<Literal>, env: Env) {
    forall k :: 0 <= k < |ls| ==> Holds(ls[k], env)
  }

  lemma AllHoldCons(l: Literal, ls: seq<Literal>, env: Env)
    ensures AllHold([l] + ls, env) <==> Holds(l, env) && AllHold(ls, env)
  {
    if AllHold([l] + ls, env) {
      assert Holds(([l] + ls)[0], env);
      forall k | 0 <= k < |ls| ensures Holds(ls[k], env) {
        assert Holds(([l] + ls)[k + 1], env);
      }
    }
  }

  lemma AllHoldConcat(ls: seq<Literal>, rs: seq<Literal>, env: Env)
    ensures AllHold(ls + rs, env) <==> AllHold(ls, env) && AllHold(rs, env)
  {
    if AllHold(ls + rs, env) {
      forall k | 0 <= k < |ls| ensures Holds(ls[k], env) {
        assert Holds((ls + rs)[k], env);
      }
      forall k | 0 <= k < |rs| ensures Holds(rs[k], env) {
        assert Holds((ls + rs)[|ls| + k], env);
      }
    }
  }

  // ---- Conjunctions -----------------------------------------------------------------------------

  /** Literal i is decided in block at[i]; other blocks may lie in between. */
  datatype Chain = Chain(at: seq<nat>, ls: seq<Literal>, yes: nat, no: nat)

  /** The branch for a literal: to `yes` if it holds, to `no` if it does not. */
  function LiteralBranch(l: Literal, yes: nat, no: nat): Terminator {
    if l.positive then Conditional(l.condition, yes, no) else Conditional(l.condition, no, yes)
  }

  /** Where control goes after literal `i` of a conjunction holds. */
  function Next(c: Chain, i: nat): nat {
    if i + 1 < |c.at| then c.at[i + 1] else c.yes
  }

  ghost predicate WellPlaced(c: Chain, n: nat) {
    && |c.at| == |c.ls| && c.yes < n && c.no < n && c.yes != c.no && c.yes !in c.at && c.no !in c.at
    && (forall i :: 0 <= i < |c.at| ==> c.at[i] < n)
    && (forall i, j :: 0 <= i < j < |c.at| ==> c.at[i] < c.at[j])
  }

  /** The block of literal i goes on if the literal holds and to `no` if it does not. */
  ghost predicate Intact(f: CFG, c: Chain, i: nat)
    requires i < |c.at| == |c.ls|
  {
    c.at[i] < |f| && f[c.at[i]].terminator == LiteralBranch(c.ls[i], Next(c, i), c.no)
  }

  /** Only the first block of the chain may have phis. */
  ghost predicate AndChain(f: CFG, c: Chain) {
    && WellPlaced(c, |f|)
    && (forall i :: 0 <= i < |c.at| ==> Intact(f, c, i))
    && (forall i :: 0 < i < |c.at| ==> f[c.at[i]].phis == [])
  }

  /** Outside the chain, or its first block, as in a loop. */
  ghost predicate Outside(c: Chain, b: nat) {
    forall i :: 0 < i < |c.at| ==> b != c.at[i]
  }

  ghost predicate StopsAround(c: Chain, stops: set<nat>) {
    c.yes in stops && c.no in stops && forall b :: b in stops ==> Outside(c, b)
  }

  lemma EnterBlock(f: CFG, env: Env, from: nat, b: nat, stops: set<nat>, fuel: nat)
    requires b < |f| && b !in stops && f[b].phis == []
    ensures Enter(f, env, from, b, stops, fuel) == Leave(f, env, b, stops, fuel)
  {
  }

  /** One literal: the branch goes where the literal sends it. */
  lemma LiteralStep(f: CFG, env: Env, b: nat, l: Literal, yes: nat, no: nat, stops: set<nat>, fuel: nat)
    requires b < |f| && f[b].terminator == LiteralBranch(l, yes, no) && fuel >= 1
    ensures Leave(f, env, b, stops, fuel) == Enter(f, env, b, if Holds(l, env) then yes else no, stops, fuel - 1)
  {
  }

  /** From literal i on, an intact chain decides the conjunction of what is left. */
  lemma {:induction false} TailDecides(f: CFG, c: Chain, i: nat, env: Env, stops: set<nat>, fuel: nat)
    requires WellPlaced(c, |f|) && StopsAround(c, stops) && i < |c.at| && fuel >= |c.at| - i
    requires forall m :: i <= m < |c.at| ==> Intact(f, c, m)
    requires forall m :: i < m < |c.at| ==> f[c.at[m]].phis == []
    ensures Leave(f, env, c.at[i], stops, fuel) == [if AllHold(c.ls[i..], env) then c.yes else c.no]
    decreases |c.at| - i
  {
    assert Intact(f, c, i);
    LiteralStep(f, env, c.at[i], c.ls[i], Next(c, i), c.no, stops, fuel);
    assert c.ls[i..] == [c.ls[i]] + c.ls[i + 1..];
    AllHoldCons(c.ls[i], c.ls[i + 1..], env);
    if Holds(c.ls[i], env) && i + 1 < |c.at| {
      TailDecides(f, c, i + 1, env, stops, fuel - 1);
      EnterBlock(f, env, c.at[i], c.at[i + 1], stops, fuel - 1);
    }
  }

  /** Up to literal k, an intact chain either fails or arrives at k. */
  lemma {:induction false} HeadDecides(f: CFG, c: Chain, i: nat, k: nat, env: Env, stops: set<nat>, fuel: nat)
    requires WellPlaced(c, |f|) && StopsAround(c, stops) && i <= k < |c.at| && fuel >= k - i
    requires forall m :: i <= m < k ==> Intact(f, c, m)
    requires forall m :: i < m <= k ==> f[c.at[m]].phis == []
    ensures Leave(f, env, c.at[i], stops, fuel)
         == if AllHold(c.ls[i..k], env) then Leave(f, env, c.at[k], stops, fuel - (k - i)) else [c.no]
    decreases k - i
  {
    if i < k {
      assert Intact(f, c, i);
      LiteralStep(f, env, c.at[i], c.ls[i], c.at[i + 1], c.no, stops, fuel);
      assert c.ls[i..k] == [c.ls[i]] + c.ls[i + 1..k];
      AllHoldCons(c.ls[i], c.ls[i + 1..k], env);
      if Holds(c.ls[i], env) {
        HeadDecides(f, c, i + 1, k, env, stops, fuel - 1);
        EnterBlock(f, env, c.at[i], c.at[i + 1], stops, fuel - 1);
      }
    }
  }

  /** The chain decides the conjunction: control reaches `yes` if all literals hold, and `no`
      otherwise. */
  lemma {:induction false} AndChainDecides(f: CFG, c: Chain, env: Env)
    requires AndChain(f, c) && c.at != []
    ensures Leave(f, env, c.at[0], {c.yes, c.no}, |c.at|) == [if AllHold(c.ls, env) then c.yes else c.no]
  {
    TailDecides(f, c, 0, env, {c.yes, c.no}, |c.at|);
    assert c.ls[0..] == c.ls;
  }

  // ---- One branch rerouted ------------------------------------------------------------------------

  /** Only the branch of literal k has changed: it goes to `yes` or `no`. */
  ghost predicate Rerouted(f': CFG, f: CFG, c: Chain, k: nat, yes: nat, no: nat)
    requires k < |c.at| == |c.ls|
  {
    && |f'| == |f| && c.at[k] < |f|
    && f'[c.at[k]].terminator == LiteralBranch(c.ls[k], yes, no)
    && (forall b :: 0 <= b < |f| && b != c.at[k] ==> f'[b].terminator == f[b].terminator)
    && (forall b :: 0 <= b < |f| && f[b].phis == [] ==> f'[b].phis == [])
  }

  /** Where control ends up that literal k sends to `target`: at a later block of the chain the rest of it
      decides; from an earlier one control comes back to literal k, forever, as conditions do not change. */
  ghost function Onward(c: Chain, k: nat, target: nat, env: Env): (ends: seq<nat>)
    requires |c.at| == |c.ls|
  {
    if exists i :: 0 < i < |c.at| && target == c.at[i] then
      var i :| 0 < i < |c.at| && target == c.at[i];
      if i <= k then [] else [if AllHold(c.ls[i..], env) then c.yes else c.no]
    else [target]
  }

  ghost predicate Settled(c: Chain, target: nat, stops: set<nat>) {
    target in stops || !Outside(c, target)
  }

  lemma OnwardAt(c: Chain, n: nat, k: nat, i: nat, env: Env)
    requires WellPlaced(c, n) && 0 < i < |c.at|
    ensures !Outside(c, c.at[i])
    ensures Onward(c, k, c.at[i], env) == if i <= k then [] else [if AllHold(c.ls[i..], env) then c.yes else c.no]
  {
  }

  /** Where literal i goes on, the rest of the chain decides. */
  lemma OnwardNext(c: Chain, n: nat, k: nat, i: nat, env: Env)
    requires WellPlaced(c, n) && k <= i < |c.at|
    ensures Onward(c, k, Next(c, i), env) == [if AllHold(c.ls[i + 1..], env) then c.yes else c.no]
    ensures Onward(c, k, c.no, env) == [c.no] && Outside(c, c.yes) && Outside(c, c.no)
  {
    if i + 1 < |c.at| {
      OnwardAt(c, n, k, i + 1, env);
    }
  }

  /** Control that comes back to where it was never leaves. */
  lemma {:induction false} GoesRound(f': CFG, f: CFG, c: Chain, i: nat, m: nat, k: nat, yes: nat, no: nat, env: Env,
                                     stops: set<nat>, fuel: nat)
    requires AndChain(f, c) && 0 < i <= m <= k < |c.at| && Rerouted(f', f, c, k, yes, no) && StopsAround(c, stops)
    requires AllHold(c.ls[..k], env) && c.at[i] == if Holds(c.ls[k], env) then yes else no
    ensures Leave(f', env, c.at[m], stops, fuel) == []
    decreases fuel
  {
    if fuel > 0 {
      ReroutedIntact(f', f, c, k, yes, no);
      if m < k {
        assert Intact(f', c, m) && Holds(c.ls[..k][m], env);
        LiteralStep(f', env, c.at[m], c.ls[m], Next(c, m), c.no, stops, fuel);
        EnterBlock(f', env, c.at[m], c.at[m + 1], stops, fuel - 1);
        GoesRound(f', f, c, i, m + 1, k, yes, no, env, stops, fuel - 1);
      } else {
        LiteralStep(f', env, c.at[k], c.ls[k], yes, no, stops, fuel);
        EnterBlock(f', env, c.at[k], c.at[i], stops, fuel - 1);
        GoesRound(f', f, c, i, i, k, yes, no, env, stops, fuel - 1);
      }
    }
  }

  lemma {:induction false} ReroutedTail(f': CFG, f: CFG, c: Chain, k: nat, yes: nat, no: nat, env: Env,
                                        stops: set<nat>, fuel: nat)
    requires AndChain(f, c) && k < |c.at| && Rerouted(f', f, c, k, yes, no) && StopsAround(c, stops)
    requires Settled(c, yes, stops) && Settled(c, no, stops) && AllHold(c.ls[..k], env) && fuel >= |c.at| - k
    ensures Leave(f', env, c.at[k], stops, fuel)
         == Onward(c, k, if Holds(c.ls[k], env) then yes else no, env)
  {
    var target := if Holds(c.ls[k], env) then yes else no;
    LiteralStep(f', env, c.at[k], c.ls[k], yes, no, stops, fuel);
    if !Outside(c, target) {
      var i :| 0 < i < |c.at| && target == c.at[i];
      OnwardAt(c, |f|, k, i, env);
      if i <= k {
        GoesRound(f', f, c, i, k, k, yes, no, env, stops, fuel);
      } else {
        ReroutedIntact(f', f, c, k, yes, no);
        TailDecides(f', c, i, env, stops, fuel - 1);
        EnterBlock(f', env, c.at[k], c.at[i], stops, fuel - 1);
      }
    }
  }

  lemma ReroutedIntact(f': CFG, f: CFG, c: Chain, k: nat, yes: nat, no: nat)
    requires AndChain(f, c) && k < |c.at| && Rerouted(f', f, c, k, yes, no)
    ensures forall m :: 0 <= m < |c.at| && m != k ==> Intact(f', c, m)
    ensures forall m :: 0 < m < |c.at| ==> f'[c.at[m]].phis == []
  {
    forall m | 0 <= m < |c.at| && m != k ensures Intact(f', c, m) {
      assert Intact(f, c, m);
    }
  }

  /** The rerouted chain: if a literal before k fails, control still reaches `no`, and otherwise it
      goes where literal k now sends it. */
  lemma {:induction false} ReroutedDecides(f': CFG, f: CFG, c: Chain, k: nat, yes: nat, no: nat, env: Env,
                                           stops: set<nat>, fuel: nat)
    requires AndChain(f, c) && k < |c.at| && Rerouted(f', f, c, k, yes, no) && StopsAround(c, stops)
    requires Settled(c, yes, stops) && Settled(c, no, stops) && fuel >= |c.at|
    ensures Leave(f', env, c.at[0], stops, fuel)
         == if AllHold(c.ls[..k], env) then Onward(c, k, if Holds(c.ls[k], env) then yes else no, env) else [c.no]
  {
    ReroutedIntact(f', f, c, k, yes, no);
    HeadDecides(f', c, 0, k, env, stops, fuel);
    assert c.ls[0..k] == c.ls[..k];
    if AllHold(c.ls[..k], env) {
      ReroutedTail(f', f, c, k, yes, no, env, stops, fuel - k);
    }
  }

  // ---- Detection ----------------------------------------------------------------------------------

  /** The first positive literal from `i` on, or the number of literals. */
  function FirstPositive(ls: seq<Literal>, i: nat): (j: nat)
    requires i <= |ls|
    ensures i <= j <= |ls| && (j < |ls| ==> ls[j].positive)
    ensures forall k :: i <= k < j ==> !ls[k].positive
    decreases |ls| - i
  {
    if i == |ls| || ls[i].positive then i else FirstPositive(ls, i + 1)
  }

  /** A conditional block whose false successor is a successor of the first branch, or which is the
      first branch's false successor and has a phi entry for another block. */
  ghost predicate LooksLikeAnd(f: CFG, first: nat, b: nat)
    requires IsConditional(f, first)
  {
    var t := f[first].terminator;
    IsConditional(f, b)
    && (|| f[b].terminator.ifFalse == t.ifFalse || f[b].terminator.ifFalse == t.ifTrue
        || (b == t.ifFalse && HasForeignEntry(f[b], first)))
  }

  /** Outside the chain, nothing after the branch of literal k and before `end` looks like an &&. */
  ghost predicate Undisturbed(f: CFG, c: Chain, k: nat, end: nat)
    requires k < |c.at| && IsConditional(f, c.at[k])
  {
    forall b: nat :: c.at[k] < b < end && b !in c.at ==> !LooksLikeAnd(f, c.at[k], b)
  }

  /** The scan stops at the first block that looks like an &&. */
  lemma DetectIsFirst(f: CFG, first: nat, b: nat)
    requires IsConditional(f, first) && first < b < |f|
    ensures And.Detect(f, first).Found? && And.Detect(f, first).second == b
       <==> LooksLikeAnd(f, first, b) && forall j :: first < j < b ==> !LooksLikeAnd(f, first, j)
  {
    forall j | first < j < |f| ensures And.Match(f, first, j).Found? <==> LooksLikeAnd(f, first, j) {
    }
    var d := And.DetectFrom(f, first, first + 1);
    assert d.Found? ==> And.Match(f, first, d.second).Found?;
  }

  lemma DetectsNothing(f: CFG, first: nat)
    requires IsConditional(f, first)
    ensures And.Detect(f, first) == Nothing <==> forall j :: first < j < |f| ==> !LooksLikeAnd(f, first, j)
  {
    forall j | first < j < |f| ensures And.Match(f, first, j).Found? <==> LooksLikeAnd(f, first, j) {
    }
    var d := And.DetectFrom(f, first, first + 1);
    assert d.Found? ==> And.Match(f, first, d.second).Found?;
  }

  /** Among the chain's blocks after the first branch, the positive literals look like an &&. */
  lemma LiteralLooksLikeAnd(f: CFG, c: Chain, k: nat, i: nat)
    requires AndChain(f, c) && k < i < |c.at|
    ensures IsConditional(f, c.at[k])
    ensures LooksLikeAnd(f, c.at[k], c.at[i]) <==> c.ls[i].positive
  {
    assert Intact(f, c, k) && Intact(f, c, i);
    assert i + 1 < |c.at| ==> c.at[i + 1] != Next(c, k);
  }

  /** What the scan meets between branch k and the first positive literal after it is outside the
      chain. */
  lemma BeforePositive(f: CFG, c: Chain, k: nat, b: nat)
    requires AndChain(f, c) && k < |c.at| && IsConditional(f, c.at[k]) && c.at[k] < b < |f|
    requires LooksLikeAnd(f, c.at[k], b)
    requires var j := FirstPositive(c.ls, k + 1); j < |c.at| ==> b < c.at[j]
    ensures b !in c.at
  {
    if b in c.at {
      var i :| 0 <= i < |c.at| && c.at[i] == b;
      LiteralLooksLikeAnd(f, c, k, i);
    }
  }

  /** Mutating branch k picks the first positive literal after it, if and only if nothing outside the
      chain looks like an && before; if no positive literal follows, nothing is picked if and only if
      nothing in the rest of the function looks like an &&. */
  lemma {:induction false} AndDetects(f: CFG, c: Chain, k: nat)
    requires AndChain(f, c) && k < |c.at|
    ensures var j := FirstPositive(c.ls, k + 1);
      && IsConditional(f, c.at[k])
      && (j < |c.at| ==>
            (And.Detect(f, c.at[k]) == Found(if c.ls[k].positive then Pattern1 else Pattern2, c.at[j])
             <==> Undisturbed(f, c, k, c.at[j])))
      && (j == |c.at| ==> (And.Detect(f, c.at[k]) == Nothing <==> Undisturbed(f, c, k, |f|)))
  {
    assert Intact(f, c, k);
    var j := FirstPositive(c.ls, k + 1);
    var end := if j < |c.at| then c.at[j] else |f|;
    var first := c.at[k];
    forall b | first < b < end ensures LooksLikeAnd(f, first, b) ==> b !in c.at {
      if LooksLikeAnd(f, first, b) {
        BeforePositive(f, c, k, b);
      }
    }
    if j < |c.at| {
      LiteralLooksLikeAnd(f, c, k, j);
      DetectIsFirst(f, first, c.at[j]);
      assert Intact(f, c, j);
      assert And.Match(f, first, c.at[j]) == Found(if c.ls[k].positive then Pattern1 else Pattern2, c.at[j]);
    } else {
      DetectsNothing(f, first);
    }
  }

  // ---- AND to OR ------------------------------------------------------------------------------------

  /** Patching phis changes no terminator and gives no block its first phi. */
  lemma PatchLeavesTerminators(f: CFG, second: nat, target: nat, first: nat)
    requires IsConditional(f, second) && target < |f|
    ensures var f' := PatchPhis(f, second, target, first);
      && (forall b :: 0 <= b < |f| ==> f'[b].terminator == f[b].terminator)
      && (forall b :: 0 <= b < |f| && f[b].phis == [] ==> f'[b].phis == [])
  {
  }

  /** Patterns 1 and 2 reroute branch k: with a second branch that fails to `no`, literal k if it
      holds goes where the second branch goes if true; with one that fails to where literal k goes
      on, literal k goes there if it fails, and to `no` if it holds. */
  lemma {:induction false} AndReroutes(f: CFG, c: Chain, k: nat, second: nat) returns (f': CFG)
    requires WellFormed(f) && AndChain(f, c) && k < |c.at| && IsConditional(f, c.at[k])
    requires And.Detect(f, c.at[k]).Found? && And.Detect(f, c.at[k]).second == second
    requires !And.Detect(f, c.at[k]).pattern.Pattern3?
    ensures And.Apply(f, c.at[k]) == Edited(f') && IsConditional(f, second) && second != c.at[k]
    ensures var (target, fails) := (f[second].terminator.ifTrue, f[second].terminator.ifFalse);
      && (fails == c.no || fails == Next(c, k))
      && (fails == c.no ==> Rerouted(f', f, c, k, target, Next(c, k)))
      && (fails == Next(c, k) ==> Rerouted(f', f, c, k, c.no, target))
  {
    assert Intact(f, c, k) && InRange(f[second].terminator, |f|);
    var t, target := f[c.at[k]].terminator, f[second].terminator.ifTrue;
    var f1 := if And.Detect(f, c.at[k]).pattern.Pattern1? then WithBranch(f, c.at[k], target, t.ifTrue)
              else WithBranch(f, c.at[k], t.ifFalse, target);
    f' := PatchPhis(f1, second, target, c.at[k]);
    PatchLeavesTerminators(f1, second, target, c.at[k]);
  }

  /** l1 && .. && (lk || (l(k+1) && .. && lj)) && .. && ln. */
  predicate MutatedConjunction(ls: seq<Literal>, env: Env, k: nat, j: nat)
    requires k < j < |ls|
  {
    AllHold(ls[..k], env) && (Holds(ls[k], env) || AllHold(ls[k + 1..j + 1], env)) && AllHold(ls[j + 1..], env)
  }

  /** The edit that picks literal j: literal k jumps over the group up to j if it holds, and leaves the
      decision to the group if it does not. */
  lemma {:induction false} AndRegroups(f: CFG, c: Chain, k: nat, j: nat) returns (f': CFG)
    requires WellFormed(f) && AndChain(f, c) && k < |c.at| && j == FirstPositive(c.ls, k + 1) < |c.at|
    requires IsConditional(f, c.at[k]) && Undisturbed(f, c, k, c.at[j])
    ensures And.Apply(f, c.at[k]) == Edited(f') && Rerouted(f', f, c, k, Next(c, j), Next(c, k))
  {
    AndDetects(f, c, k);
    f' := AndReroutes(f, c, k, c.at[j]);
    assert Intact(f, c, j);
  }

  lemma RegroupedEnd(c: Chain, n: nat, k: nat, j: nat, env: Env)
    requires WellPlaced(c, n) && k < j < |c.at|
    ensures (if AllHold(c.ls[..k], env) then Onward(c, k, if Holds(c.ls[k], env) then Next(c, j) else Next(c, k), env)
             else [c.no])
         == [if MutatedConjunction(c.ls, env, k, j) then c.yes else c.no]
    ensures Settled(c, Next(c, j), {c.yes, c.no}) && Settled(c, Next(c, k), {c.yes, c.no})
    ensures StopsAround(c, {c.yes, c.no})
  {
    OnwardNext(c, n, k, j, env);
    OnwardNext(c, n, k, k, env);
    assert c.ls[k + 1..] == c.ls[k + 1..j + 1] + c.ls[j + 1..];
    AllHoldConcat(c.ls[k + 1..j + 1], c.ls[j + 1..], env);
  }

  /** AND-to-OR at branch k of a conjunction of any length turns it into the conjunction in which
      literal k is joined by || with the group up to the first positive literal after it. */
  lemma {:induction false} AndMutantDecides(f: CFG, c: Chain, k: nat, j: nat, env: Env) returns (f': CFG)
    requires WellFormed(f) && AndChain(f, c) && k < |c.at| && j == FirstPositive(c.ls, k + 1) < |c.at|
    requires IsConditional(f, c.at[k]) && Undisturbed(f, c, k, c.at[j])
    ensures And.Apply(f, c.at[k]) == Edited(f')
    ensures Leave(f', env, c.at[0], {c.yes, c.no}, |c.at|)
         == [if MutatedConjunction(c.ls, env, k, j) then c.yes else c.no]
  {
    f' := AndRegroups(f, c, k, j);
    RegroupedEnd(c, |f|, k, j, env);
    ReroutedDecides(f', f, c, k, Next(c, j), Next(c, k), env, {c.yes, c.no}, |c.at|);
  }

  /** If no positive literal follows branch k, the function is left alone if and only if nothing in the
      rest of it looks like an &&. */
  lemma {:induction false} AndLeavesAlone(f: CFG, c: Chain, k: nat)
    requires WellFormed(f) && AndChain(f, c) && k < |c.at| && FirstPositive(c.ls, k + 1) == |c.at|
    ensures IsConditional(f, c.at[k])
    ensures And.Apply(f, c.at[k]) == Edited(f) <==> Undisturbed(f, c, k, |f|)
  {
    AndDetects(f, c, k);
    assert Intact(f, c, k);
    var d := And.Detect(f, c.at[k]);
    if d.Found? && !d.pattern.Pattern3? {
      var f' := AndReroutes(f, c, k, d.second);
    }
  }

  // ---- When the scan leaves the chain ---------------------------------------------------------------

  /** The first block after branch k that looks like an && is outside the chain and comes before any
      positive literal. */
  ghost predicate Strays(f: CFG, c: Chain, k: nat, b: nat)
    requires k < |c.at| == |c.ls| && IsConditional(f, c.at[k])
  {
    && c.at[k] < b && b !in c.at && LooksLikeAnd(f, c.at[k], b) && Undisturbed(f, c, k, b)
    && (FirstPositive(c.ls, k + 1) < |c.at| ==> b < c.at[FirstPositive(c.ls, k + 1)])
  }

  lemma {:induction false} StrayIsDetected(f: CFG, c: Chain, k: nat, b: nat)
    requires AndChain(f, c) && k < |c.at| && IsConditional(f, c.at[k]) && Strays(f, c, k, b)
    ensures And.Detect(f, c.at[k]).Found? && And.Detect(f, c.at[k]).second == b
    ensures And.Detect(f, c.at[k]).pattern.Pattern3? <==> f[b].terminator.ifFalse !in {c.no, Next(c, k)}
  {
    assert Intact(f, c, k);
    forall j | c.at[k] < j < b ensures !LooksLikeAnd(f, c.at[k], j) {
      if LooksLikeAnd(f, c.at[k], j) {
        BeforePositive(f, c, k, j);
      }
    }
    DetectIsFirst(f, c.at[k], b);
  }

  /** The ends of the chain, and `target` unless it is one of its blocks. */
  ghost function Stops(c: Chain, target: nat): set<nat> {
    {c.yes, c.no} + if Outside(c, target) then {target} else {}
  }

  lemma StopsSettle(c: Chain, n: nat, k: nat, target: nat)
    requires WellPlaced(c, n) && k < |c.at|
    ensures StopsAround(c, Stops(c, target)) && Settled(c, target, Stops(c, target))
    ensures Settled(c, Next(c, k), Stops(c, target)) && Settled(c, c.no, Stops(c, target))
  {
    if k + 1 < |c.at| {
      assert !Outside(c, c.at[k + 1]);
    }
  }

  /** What the function decides then, if the second branch fails to `no`: literal k if it holds goes on
      from the true successor of that unrelated branch; otherwise the rest of the chain decides as if
      literal k had held. */
  lemma {:induction false} AndStraysToNo(f: CFG, c: Chain, k: nat, b: nat, env: Env, fuel: nat) returns (f': CFG)
    requires WellFormed(f) && AndChain(f, c) && k < |c.at| && IsConditional(f, c.at[k]) && Strays(f, c, k, b)
    requires f[b].terminator.ifFalse == c.no && fuel >= |c.at|
    ensures And.Apply(f, c.at[k]) == Edited(f')
    ensures var target := f[b].terminator.ifTrue;
      Leave(f', env, c.at[0], Stops(c, target), fuel)
      == if !AllHold(c.ls[..k], env) then [c.no]
         else if Holds(c.ls[k], env) then Onward(c, k, target, env)
         else if AllHold(c.ls[k + 1..], env) then [c.yes] else [c.no]
  {
    StrayIsDetected(f, c, k, b);
    f' := AndReroutes(f, c, k, b);
    var target := f[b].terminator.ifTrue;
    StopsSettle(c, |f|, k, target);
    OnwardNext(c, |f|, k, k, env);
    ReroutedDecides(f', f, c, k, target, Next(c, k), env, Stops(c, target), fuel);
  }

  /** If the second branch fails to where literal k goes on: literal k if it holds goes to `no`, and if
      it fails goes on from the true successor of that branch. */
  lemma {:induction false} AndStraysToNext(f: CFG, c: Chain, k: nat, b: nat, env: Env, fuel: nat) returns (f': CFG)
    requires WellFormed(f) && AndChain(f, c) && k < |c.at| && IsConditional(f, c.at[k]) && Strays(f, c, k, b)
    requires f[b].terminator.ifFalse == Next(c, k) && fuel >= |c.at|
    ensures And.Apply(f, c.at[k]) == Edited(f')
    ensures var target := f[b].terminator.ifTrue;
      Leave(f', env, c.at[0], Stops(c, target), fuel)
      == if AllHold(c.ls[..k], env) && !Holds(c.ls[k], env) then Onward(c, k, target, env) else [c.no]
  {
    StrayIsDetected(f, c, k, b);
    f' := AndReroutes(f, c, k, b);
    var target := f[b].terminator.ifTrue;
    StopsSettle(c, |f|, k, target);
    OnwardNext(c, |f|, k, k, env);
    ReroutedDecides(f', f, c, k, c.no, target, env, Stops(c, target), fuel);
  }

  /** Otherwise pattern 3 is taken. If its assertions hold, literal k is negated and, where it leads
      past the chain, no other block of the chain changes. */
  lemma {:induction false} AndStraysByPhi(f: CFG, c: Chain, k: nat, b: nat, env: Env)
    requires WellFormed(f) && AndChain(f, c) && k < |c.at| && IsConditional(f, c.at[k]) && Strays(f, c, k, b)
    requires f[b].terminator.ifFalse !in {c.no, Next(c, k)}
    ensures And.Apply(f, c.at[k]) == FlipPhi(f, c.at[k], b)
    ensures And.Apply(f, c.at[k]).Edited? ==>
      Leave(And.Apply(f, c.at[k]).f, env, c.at[0], {c.yes, c.no}, |c.at|)
      == [if AllHold(c.ls[..k], env) && !Holds(c.ls[k], env) && AllHold(c.ls[k + 1..], env) then c.yes else c.no]
  {
    StrayIsDetected(f, c, k, b);
    assert Intact(f, c, k);
    if And.Apply(f, c.at[k]).Edited? {
      var f' := And.Apply(f, c.at[k]).f;
      assert Rerouted(f', f, c, k, c.no, Next(c, k));
      StopsSettle(c, |f|, k, c.no);
      OnwardNext(c, |f|, k, k, env);
      assert Stops(c, c.no) == {c.yes, c.no};
      ReroutedDecides(f', f, c, k, c.no, Next(c, k), env, {c.yes, c.no}, |c.at|);
    }
  }

  /** if (a && !b) { if (c) .. }: no positive literal follows a, and yet mutating a picks the unrelated
      inner branch. Afterwards a alone leads into its body. */
  lemma ScanLeavesChain()
    ensures var f := [Block([], Conditional("a", 1, 4)), Block([], Conditional("b", 4, 2)),
                      Block([], Conditional("c", 3, 4)), Block([], Other([])), Block([], Other([]))];
      var c := Chain([0, 1], [Literal("a", true), Literal("b", false)], 2, 4);
      && WellFormed(f) && AndChain(f, c) && FirstPositive(c.ls, 1) == |c.at| && Strays(f, c, 0, 2)
      && And.Detect(f, 0) == Found(Pattern1, 2) && And.Apply(f, 0).Edited? && And.Apply(f, 0) != Edited(f)
      && And.Apply(f, 0).f[0].terminator == Conditional("a", 3, 1)
  {
    var f := [Block([], Conditional("a", 1, 4)), Block([], Conditional("b", 4, 2)),
              Block([], Conditional("c", 3, 4)), Block([], Other([])), Block([], Other([]))];
    var c := Chain([0, 1], [Literal("a", true), Literal("b", false)], 2, 4);
    assert Intact(f, c, 0) && Intact(f, c, 1);
    assert FirstPositive(c.ls, 1) == FirstPositive(c.ls, 2) == 2;
    StrayIsDetected(f, c, 0, 2);
    var f' := AndReroutes(f, c, 0, 2);
  }
}
