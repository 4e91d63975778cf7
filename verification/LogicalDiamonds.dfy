/**
 A value computed with a phi: the literals of a conjunction or disjunction are decided one after the
 other, and the phi of the block where they meet holds a constant for each of them and a variable for
 the last operand. What such a diamond decides, what it decides with its branches rerouted, and what it
 decides with one branch and entry 0 of the phi negated, whichever block that entry is for.
 */
module LogicalDiamonds {
  import opened ControlFlow
  import opened LogicalChains
  import opened LogicalDisjunctions

  /** Literal i is decided in block at[i]; `rhs` is evaluated in block `last`; all meet in block e. */
  datatype Diamond = Diamond(at: seq<nat>, ls: seq<Literal>, last: nat, rhs: string, e: nat, yes: nat, no: nat)

  /** The literals as jump code: to `last` if a conjunction is undecided, to e if it fails. */
  function Conjunction(d: Diamond): Chain {
    Chain(d.at, d.ls, d.last, d.e)
  }

  function Disjunction(d: Diamond): Chain {
    Chain(d.at, d.ls, d.e, d.last)
  }

  /** `last` leads to e, and e branches on its first phi. */
  ghost predicate Meets(f: CFG, d: Diamond) {
    && d.last < |f| && d.e < |f| && d.last != d.e && d.yes != d.no && d.last !in d.at && d.e !in d.at
    && d.yes !in d.at + [d.last, d.e] && d.no !in d.at + [d.last, d.e]
    && f[d.last] == Block([], Other([d.e]))
    && f[d.e].phis != []
    && (forall p :: 0 < p < |f[d.e].phis| ==> f[d.e].phis[p].dst != f[d.e].phis[0].dst)
    && f[d.e].terminator == Conditional(f[d.e].phis[0].dst, d.yes, d.no)
  }

  predicate HasEntry(incoming: seq<(Operand, nat)>, block: nat, operand: Operand) {
    var n := IndexOf(incoming, block);
    n < |incoming| && incoming[n].0 == operand
  }

  /** One entry for each block that leads to e: `short` for the literals', `rhs` for the last one. */
  ghost predicate Feeds(incoming: seq<(Operand, nat)>, d: Diamond, short: bool) {
    && incoming != []
    && (forall i :: 0 <= i < |d.at| ==> HasEntry(incoming, d.at[i], Constant(short)))
    && HasEntry(incoming, d.last, Variable(d.rhs))
    && (forall n :: 0 <= n < |incoming| ==> incoming[n].1 in d.at || incoming[n].1 == d.last)
    && (forall n, n' :: 0 <= n < n' < |incoming| ==> incoming[n].1 != incoming[n'].1)
  }

  ghost predicate IsConjunction(f: CFG, d: Diamond) {
    |d.at| == |d.ls| && AndChain(f, Conjunction(d)) && Meets(f, d) && Feeds(f[d.e].phis[0].incoming, d, false)
  }

  ghost predicate IsDisjunction(f: CFG, d: Diamond) {
    |d.at| == |d.ls| && OrChain(f, Disjunction(d)) && Meets(f, d) && Feeds(f[d.e].phis[0].incoming, d, true)
  }

  // ---- Where the literals meet ----------------------------------------------------------------------

  lemma {:induction false} LaterPhis(phis: seq<Phi>, from: nat, before: Env, env: Env, x: string)
    requires forall p :: 0 <= p < |phis| ==> phis[p].dst != x
    ensures EnterPhis(phis, from, before, env)(x) == env(x)
    decreases |phis|
  {
    if phis != [] {
      var value := PhiValue(phis[0], from, before);
      var dst := phis[0].dst;
      LaterPhis(phis[1..], from, before, y => if y == dst then value else env(y), x);
    }
  }

  /** Block e decides by the value that its first phi has for the block before. */
  lemma {:induction false} Meeting(f: CFG, d: Diamond, env: Env, from: nat, fuel: nat)
    requires Meets(f, d) && fuel >= 1
    ensures Enter(f, env, from, d.e, {d.yes, d.no}, fuel)
         == [if PhiValue(f[d.e].phis[0], from, env) then d.yes else d.no]
  {
    var phi := f[d.e].phis[0];
    var value := PhiValue(phi, from, env);
    LaterPhis(f[d.e].phis[1..], from, env, y => if y == phi.dst then value else env(y), phi.dst);
    var after := EnterPhis(f[d.e].phis, from, env, env);
    assert d.e in [d.last, d.e] && d.e !in {d.yes, d.no};
    assert Enter(f, env, from, d.e, {d.yes, d.no}, fuel) == Leave(f, after, d.e, {d.yes, d.no}, fuel);
    assert after(phi.dst) == value;
    assert Leave(f, after, d.e, {d.yes, d.no}, fuel)
        == Enter(f, after, d.e, if value then d.yes else d.no, {d.yes, d.no}, fuel - 1);
  }

  lemma {:induction false} ThroughLast(f: CFG, d: Diamond, env: Env, from: nat, fuel: nat)
    requires Meets(f, d) && fuel >= 2
    ensures Enter(f, env, from, d.last, {d.yes, d.no}, fuel)
         == [if PhiValue(f[d.e].phis[0], d.last, env) then d.yes else d.no]
  {
    Meeting(f, d, env, d.last, fuel - 1);
    assert d.last in [d.last, d.e] && d.last !in {d.yes, d.no};
    EnterBlock(f, env, from, d.last, {d.yes, d.no}, fuel);
  }

  // ---- What a diamond decides -----------------------------------------------------------------------

  function Then(d: Diamond, i: nat): nat {
    if i + 1 < |d.at| then d.at[i + 1] else d.last
  }

  predicate Ascending(at: seq<nat>) {
    forall i, j :: 0 <= i < j < |at| ==> at[i] < at[j]
  }

  /** Literal i leads on if it is `go`, and to e if it is not. */
  ghost predicate StepsAt(f: CFG, d: Diamond, i: nat, go: bool)
    requires i < |d.at| == |d.ls|
  {
    && d.at[i] < |f|
    && f[d.at[i]].terminator == if go then LiteralBranch(d.ls[i], Then(d, i), d.e)
                                else LiteralBranch(d.ls[i], d.e, Then(d, i))
  }

  ghost predicate Steps(f: CFG, d: Diamond, go: bool) {
    && |d.at| == |d.ls|
    && (forall i :: 0 <= i < |d.at| ==> StepsAt(f, d, i, go))
    && (forall i :: 0 < i < |d.at| ==> d.at[i] < |f| && f[d.at[i]].phis == [])
  }

  /** The first literal from i on that is not `go`, or their number. */
  function FirstStop(ls: seq<Literal>, i: nat, go: bool, env: Env): (s: nat)
    requires i <= |ls|
    ensures i <= s <= |ls| && (s < |ls| ==> Holds(ls[s], env) != go)
    ensures forall j :: i <= j < s ==> Holds(ls[j], env) == go
    decreases |ls| - i
  {
    if i == |ls| || Holds(ls[i], env) != go then i else FirstStop(ls, i + 1, go, env)
  }

  /** The block from which control comes to e. */
  function Source(d: Diamond, i: nat, go: bool, env: Env): nat
    requires i <= |d.ls| == |d.at|
  {
    var s := FirstStop(d.ls, i, go, env);
    if s < |d.at| then d.at[s] else d.last
  }

  lemma {:induction false} DiamondStep(f: CFG, d: Diamond, i: nat, go: bool, env: Env, fuel: nat)
    requires Steps(f, d, go) && Meets(f, d) && i < |d.at| && fuel >= 3
    ensures Holds(d.ls[i], env) == go && i + 1 < |d.at| ==>
      Leave(f, env, d.at[i], {d.yes, d.no}, fuel) == Leave(f, env, d.at[i + 1], {d.yes, d.no}, fuel - 1)
    ensures Holds(d.ls[i], env) != go || i + 1 == |d.at| ==>
      Leave(f, env, d.at[i], {d.yes, d.no}, fuel)
      == [if PhiValue(f[d.e].phis[0], if Holds(d.ls[i], env) == go then d.last else d.at[i], env) then d.yes else d.no]
  {
    hide Meets, PhiValue;
    var stops := {d.yes, d.no};
    assert StepsAt(f, d, i, go);
    assert Leave(f, env, d.at[i], stops, fuel)
        == Enter(f, env, d.at[i], if Holds(d.ls[i], env) == go then Then(d, i) else d.e, stops, fuel - 1);
    Meeting(f, d, env, d.at[i], fuel - 1);
    ThroughLast(f, d, env, d.at[i], fuel - 1);
    if i + 1 < |d.at| {
      NotAtEnd(f, d, i + 1);
      EnterBlock(f, env, d.at[i], d.at[i + 1], stops, fuel - 1);
    }
  }

  lemma NotAtEnd(f: CFG, d: Diamond, i: nat)
    requires Meets(f, d) && i < |d.at|
    ensures d.at[i] !in {d.yes, d.no}
  {
  }

  lemma {:induction false} DiamondFrom(f: CFG, d: Diamond, i: nat, go: bool, env: Env, fuel: nat)
    requires |d.at| == |d.ls| && Steps(f, d, go) && Meets(f, d) && i < |d.at| && fuel >= |d.at| - i + 2
    ensures Leave(f, env, d.at[i], {d.yes, d.no}, fuel)
         == [if PhiValue(f[d.e].phis[0], Source(d, i, go, env), env) then d.yes else d.no]
    decreases |d.at| - i
  {
    hide Steps, PhiValue, Leave;
    DiamondStep(f, d, i, go, env, fuel);
    if Holds(d.ls[i], env) == go && i + 1 < |d.at| {
      DiamondFrom(f, d, i + 1, go, env, fuel - 1);
    }
  }

  lemma ConjunctionSteps(f: CFG, d: Diamond)
    requires IsConjunction(f, d)
    ensures Steps(f, d, true) && Ascending(d.at)
  {
    forall i | 0 <= i < |d.at| ensures StepsAt(f, d, i, true) {
      assert Intact(f, Conjunction(d), i);
    }
  }

  lemma DisjunctionSteps(f: CFG, d: Diamond)
    requires IsDisjunction(f, d)
    ensures Steps(f, d, false) && Ascending(d.at)
  {
    forall i | 0 <= i < |d.at| ensures StepsAt(f, d, i, false) {
      assert IntactOr(f, Disjunction(d), i);
      assert Then(d, i) == Next(Dual(Disjunction(d)), i);
    }
  }

  /** The value is the conjunction of all literals and `rhs`. */
  lemma {:induction false} ConjunctionDecides(f: CFG, d: Diamond, env: Env)
    requires IsConjunction(f, d) && d.at != []
    ensures Leave(f, env, d.at[0], {d.yes, d.no}, |d.at| + 2)
         == [if AllHold(d.ls, env) && env(d.rhs) then d.yes else d.no]
  {
    ConjunctionSteps(f, d);
    DiamondFrom(f, d, 0, true, env, |d.at| + 2);
  }

  lemma {:induction false} DisjunctionDecides(f: CFG, d: Diamond, env: Env)
    requires IsDisjunction(f, d) && d.at != []
    ensures Leave(f, env, d.at[0], {d.yes, d.no}, |d.at| + 2)
         == [if SomeHolds(d.ls, env) || env(d.rhs) then d.yes else d.no]
  {
    DisjunctionSteps(f, d);
    DiamondFrom(f, d, 0, false, env, |d.at| + 2);
  }

  // ---- Jump code that meets -------------------------------------------------------------------------

  /** Edits elsewhere leave e and `last` as they are. */
  ghost predicate SameMeeting(f': CFG, f: CFG, d: Diamond) {
    |f'| == |f| && d.e < |f| && d.last < |f| && f'[d.e] == f[d.e] && f'[d.last] == f[d.last]
  }

  /** Where a conditional block goes. */
  function Successor(f: CFG, b: nat, env: Env): nat
    requires IsConditional(f, b)
  {
    if env(f[b].terminator.condition) then f[b].terminator.ifTrue else f[b].terminator.ifFalse
  }

  lemma JumpStep(f: CFG, blocks: set<nat>, stops: set<nat>, b: nat, env: Env, more: set<nat>, fuel: nat)
    requires Region(f, blocks, stops) && b in blocks
    ensures IsConditional(f, b) && Inside(f, blocks, Successor(f, b, env), stops)
    ensures fuel >= 1 ==> Leave(f, env, b, more, fuel) == Enter(f, env, b, Successor(f, b, env), more, fuel - 1)
  {
  }

  lemma Fed(f: CFG, d: Diamond, short: bool, env: Env, b: nat)
    requires Meets(f, d) && Feeds(f[d.e].phis[0].incoming, d, short)
    ensures b in d.at ==> PhiValue(f[d.e].phis[0], b, env) == short && b !in {d.yes, d.no}
    ensures PhiValue(f[d.e].phis[0], d.last, env) == env(d.rhs)
  {
  }

  /** What jump code that leads to `last` or e decides, the phi decides with `rhs`. */
  lemma {:induction false} JumpsMeet(f: CFG, d: Diamond, short: bool, env: Env, b: nat, end: nat, fuel: nat)
    requires Meets(f, d) && Feeds(f[d.e].phis[0].incoming, d, short)
    requires Region(f, Blocks(Conjunction(d)), {d.last, d.e}) && b in d.at
    requires Leave(f, env, b, {d.last, d.e}, fuel) == [end]
    ensures Leave(f, env, b, {d.yes, d.no}, fuel + 2)
         == [if (if end == d.last then env(d.rhs) else short) then d.yes else d.no]
    decreases fuel
  {
    hide Meets, Feeds, Region, PhiValue;
    var stops, blocks := {d.last, d.e}, Blocks(Conjunction(d));
    JumpStep(f, blocks, stops, b, env, stops, fuel);
    JumpStep(f, blocks, stops, b, env, {d.yes, d.no}, fuel + 2);
    Fed(f, d, short, env, b);
    var next := Successor(f, b, env);
    if next == d.last {
      ThroughLast(f, d, env, b, fuel + 1);
    } else if next == d.e {
      Meeting(f, d, env, b, fuel + 1);
    } else {
      Fed(f, d, short, env, next);
      EnterBlock(f, env, b, next, stops, fuel - 1);
      EnterBlock(f, env, b, next, {d.yes, d.no}, fuel + 1);
      JumpsMeet(f, d, short, env, next, end, fuel - 1);
    }
  }

  lemma MeetsStill(f': CFG, f: CFG, d: Diamond)
    requires Meets(f, d) && SameMeeting(f', f, d)
    ensures Meets(f', d)
  {
  }

  lemma PatchedElsewhere(f: CFG, second: nat, target: nat, first: nat, b: nat)
    requires IsConditional(f, second) && target < |f| && b < |f| && (b != target || f[b].phis == [])
    ensures PatchPhis(f, second, target, first)[b] == f[b]
  {
  }

  // ---- A negated branch -----------------------------------------------------------------------------

  function Negated(l: Literal): Literal {
    l.(positive := !l.positive)
  }

  /** What the graph decides when branch k is negated and entry 0 of the phi, which is for literal p: the
      first literal that does not lead on yields its constant, which is negated at p alone. */
  predicate FlippedValue(d: Diamond, k: nat, p: nat, go: bool, env: Env)
    requires k < |d.ls|
  {
    var s := FirstStop(d.ls[k := Negated(d.ls[k])], 0, go, env);
    if s == |d.ls| then env(d.rhs) else (s == p) == go
  }

  lemma EntryZero(f: CFG, d: Diamond, short: bool, k: nat)
    requires Meets(f, d) && Feeds(f[d.e].phis[0].incoming, d, short) && k < |d.at| && IsConditional(f, d.at[k])
    ensures var incoming := f[d.e].phis[0].incoming;
      && incoming != [] && (incoming[0].1 in d.at <==> incoming[0].1 != d.last)
      && incoming[0].0 == (if incoming[0].1 == d.last then Variable(d.rhs) else Constant(short))
      && (FlipPhi(f, d.at[k], d.e).Edited? <==> incoming[0].1 in d.at)
  {
    var incoming := f[d.e].phis[0].incoming;
    assert IndexOf(incoming, incoming[0].1) == 0;
  }

  lemma FlippedEntry(incoming: seq<(Operand, nat)>, value: bool, b: nat)
    requires incoming != []
    ensures var flipped := incoming[0 := (Constant(value), incoming[0].1)];
      && IndexOf(flipped, b) == IndexOf(incoming, b)
  {
    var flipped := incoming[0 := (Constant(value), incoming[0].1)];
    assert flipped[1..] == incoming[1..];
  }

  /** The phi's values after the flip. */
  ghost predicate FlippedPhi(phi: Phi, d: Diamond, p: nat, go: bool, env: Env) {
    && PhiValue(phi, d.last, env) == env(d.rhs)
    && (forall s :: 0 <= s < |d.at| ==> PhiValue(phi, d.at[s], env) == ((s == p) == go))
  }

  lemma {:induction false} FlippedFed(f: CFG, d: Diamond, k: nat, p: nat, go: bool, env: Env)
    requires Meets(f, d) && Feeds(f[d.e].phis[0].incoming, d, !go) && p < |d.at| && k < |d.at|
    requires IsConditional(f, d.at[k]) && f[d.e].phis[0].incoming[0].1 == d.at[p]
    requires Ascending(d.at)
    ensures FlipPhi(f, d.at[k], d.e).Edited?
    ensures FlippedPhi(FlipPhi(f, d.at[k], d.e).f[d.e].phis[0], d, p, go, env)
  {
    var incoming := f[d.e].phis[0].incoming;
    EntryZero(f, d, !go, k);
    forall b ensures IndexOf(incoming[0 := (Constant(go), incoming[0].1)], b) == IndexOf(incoming, b) {
      FlippedEntry(incoming, go, b);
    }
  }

  lemma {:induction false} FlippedSteps(f: CFG, d: Diamond, k: nat, go: bool)
    requires Steps(f, d, go) && Meets(f, d) && k < |d.at| && IsConditional(f, d.at[k])
    requires FlipPhi(f, d.at[k], d.e).Edited?
    requires Ascending(d.at)
    ensures var (f', d') := (FlipPhi(f, d.at[k], d.e).f, d.(ls := d.ls[k := Negated(d.ls[k])]));
      Steps(f', d', go) && Meets(f', d')
  {
    var (f', d') := (FlipPhi(f, d.at[k], d.e).f, d.(ls := d.ls[k := Negated(d.ls[k])]));
    forall i | 0 <= i < |d.at| ensures StepsAt(f', d', i, go) {
      assert StepsAt(f, d, i, go);
      assert i != k ==> d.at[i] != d.at[k];
      assert Then(d', i) == Then(d, i);
    }
  }

  lemma {:induction false} FlippedLeave(f': CFG, d: Diamond, k: nat, p: nat, go: bool, env: Env)
    requires k < |d.ls| == |d.at|
    requires var d' := d.(ls := d.ls[k := Negated(d.ls[k])]); Steps(f', d', go) && Meets(f', d')
    requires FlippedPhi(f'[d.e].phis[0], d, p, go, env)
    ensures Leave(f', env, d.at[0], {d.yes, d.no}, |d.at| + 2)
         == [if FlippedValue(d, k, p, go, env) then d.yes else d.no]
  {
    hide Steps, PhiValue, Leave;
    DiamondFrom(f', d.(ls := d.ls[k := Negated(d.ls[k])]), 0, go, env, |d.at| + 2);
  }

  lemma {:induction false} FlippedDecides(f: CFG, d: Diamond, k: nat, p: nat, go: bool, env: Env)
    requires Steps(f, d, go) && Meets(f, d) && Feeds(f[d.e].phis[0].incoming, d, !go) && p < |d.at| && k < |d.at|
    requires f[d.e].phis[0].incoming[0].1 == d.at[p] && IsConditional(f, d.at[k]) && Ascending(d.at)
    ensures FlipPhi(f, d.at[k], d.e).Edited?
    ensures Leave(FlipPhi(f, d.at[k], d.e).f, env, d.at[0], {d.yes, d.no}, |d.at| + 2)
         == [if FlippedValue(d, k, p, go, env) then d.yes else d.no]
  {
    hide Ascending, Feeds, PhiValue, Leave, FlippedValue;
    FlippedFed(f, d, k, p, go, env);
    FlippedSteps(f, d, k, go);
    FlippedLeave(FlipPhi(f, d.at[k], d.e).f, d, k, p, go, env);
  }

  /** The flip decides the flipped value if entry 0 is for a literal, and fails if it is for `rhs`. */
  ghost predicate Flips(edit: Edit, f: CFG, d: Diamond, k: nat, go: bool, env: Env)
    requires Meets(f, d) && k < |d.at| == |d.ls| && f[d.e].phis[0].incoming != []
  {
    var source := f[d.e].phis[0].incoming[0].1;
    && (edit.Edited? <==> source != d.last)
    && (edit.Edited? <==> source in d.at)
    && forall p :: 0 <= p < |d.at| && d.at[p] == source ==>
         Leave(edit.f, env, d.at[0], {d.yes, d.no}, |d.at| + 2)
         == [if FlippedValue(d, k, p, go, env) then d.yes else d.no]
  }

  lemma {:induction false} FlipFlips(f: CFG, d: Diamond, k: nat, go: bool, env: Env)
    requires |d.at| == |d.ls| && Steps(f, d, go) && Meets(f, d) && Feeds(f[d.e].phis[0].incoming, d, !go)
    requires k < |d.at| && IsConditional(f, d.at[k]) && Ascending(d.at)
    ensures Flips(FlipPhi(f, d.at[k], d.e), f, d, k, go, env)
  {
    hide Steps, Feeds, Ascending, Leave, FlippedValue, FlipPhi;
    EntryZero(f, d, !go, k);
    forall p | 0 <= p < |d.at| && d.at[p] == f[d.e].phis[0].incoming[0].1
      ensures Leave(FlipPhi(f, d.at[k], d.e).f, env, d.at[0], {d.yes, d.no}, |d.at| + 2)
           == [if FlippedValue(d, k, p, go, env) then d.yes else d.no]
    {
      FlippedDecides(f, d, k, p, go, env);
    }
  }

  // ---- When it is what is intended ------------------------------------------------------------------

  /** l1 && .. && (lk || (l(k+1) && .. && rhs)), and the dual. */
  predicate JoinedLast(d: Diamond, k: nat, go: bool, env: Env)
    requires k < |d.ls|
  {
    if go then AllHold(d.ls[..k], env) && (Holds(d.ls[k], env) || (AllHold(d.ls[k + 1..], env) && env(d.rhs)))
    else SomeHolds(d.ls[..k], env) || (Holds(d.ls[k], env) && (SomeHolds(d.ls[k + 1..], env) || env(d.rhs)))
  }

  /** Every literal tests a condition of its own. */
  predicate OwnConditions(ls: seq<Literal>) {
    forall i, j :: 0 <= i < j < |ls| ==> ls[i].condition != ls[j].condition
  }

  lemma FirstStopIs(ls: seq<Literal>, s: nat, go: bool, env: Env)
    requires s <= |ls| && (s < |ls| ==> Holds(ls[s], env) != go) && forall j :: 0 <= j < s ==> Holds(ls[j], env) == go
    ensures FirstStop(ls, 0, go, env) == s
  {
  }

  /** With the constants in step, negating literal k joins it with the rest. */
  lemma {:induction false} FlippedIsJoined(d: Diamond, k: nat, go: bool, env: Env)
    requires k < |d.ls|
    ensures FlippedValue(d, k, k, go, env) == JoinedLast(d, k, go, env)
  {
    var flipped := d.ls[k := Negated(d.ls[k])];
    var s := FirstStop(flipped, 0, go, env);
    assert forall j :: 0 <= j < |d.ls| && j != k ==> flipped[j] == d.ls[j];
    assert Holds(flipped[k], env) != Holds(d.ls[k], env);
    if s < k {
      assert Holds(d.ls[..k][s], env) != go;
    } else if s > k {
      if s < |d.ls| {
        assert Holds(d.ls[k + 1..][s - k - 1], env) != go;
      }
    }
  }

  /** Literal p is the only one up to p that does not lead on. */
  lemma StopAt(ls: seq<Literal>, p: nat, go: bool) returns (env: Env)
    requires p < |ls| && OwnConditions(ls)
    ensures Holds(ls[p], env) != go && forall i :: 0 <= i < p ==> Holds(ls[i], env) == go
  {
    env := x =>
      if x == ls[p].condition then ls[p].positive != go
      else (exists i :: 0 <= i < p && ls[i].condition == x && ls[i].positive == go);
  }

  lemma {:induction false} FlippedElsewhere(d: Diamond, k: nat, p: nat, go: bool) returns (env: Env)
    requires k < |d.ls| && p < |d.ls| && p != k && OwnConditions(d.ls)
    ensures FlippedValue(d, k, p, go, env) != JoinedLast(d, k, go, env)
  {
    env := StopAt(d.ls, p, go);
    FirstStopIs(d.ls[k := Negated(d.ls[k])], if p < k then p else k, go, env);
    if p < k {
      assert Holds(d.ls[..k][p], env) != go;
    }
  }

  lemma {:induction false} FlipsJoined(edit: Edit, f: CFG, d: Diamond, k: nat, go: bool)
    requires Meets(f, d) && k < |d.at| == |d.ls| && f[d.e].phis[0].incoming != []
    requires OwnConditions(d.ls) && edit.Edited? && forall env :: Flips(edit, f, d, k, go, env)
    ensures (forall env :: Leave(edit.f, env, d.at[0], {d.yes, d.no}, |d.at| + 2)
                           == [if JoinedLast(d, k, go, env) then d.yes else d.no])
       <==> f[d.e].phis[0].incoming[0].1 == d.at[k]
  {
    hide Leave, FlippedValue, JoinedLast;
    if f[d.e].phis[0].incoming[0].1 == d.at[k] {
      forall env ensures Leave(edit.f, env, d.at[0], {d.yes, d.no}, |d.at| + 2)
                      == [if JoinedLast(d, k, go, env) then d.yes else d.no] {
        FlippedIsJoined(d, k, go, env);
        assert Flips(edit, f, d, k, go, env);
      }
    } else {
      assert Flips(edit, f, d, k, go, x => true);
      var p :| 0 <= p < |d.at| && d.at[p] == f[d.e].phis[0].incoming[0].1;
      var env := FlippedElsewhere(d, k, p, go);
      assert Flips(edit, f, d, k, go, env);
      assert Leave(edit.f, env, d.at[0], {d.yes, d.no}, |d.at| + 2)
          != [if JoinedLast(d, k, go, env) then d.yes else d.no];
    }
  }
}
