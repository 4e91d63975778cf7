/** Phis and edges: what patterns 1 and 2 keep, and exactly when. */
module PhiConsistency {
  import opened ControlFlow
  import opened Duality
  import And = LogicalAndToOr
  import Or = LogicalOrToAnd

  function Occurrences(successors: seq<nat>, b: nat): nat {
    if successors == [] then 0 else (if successors[0] == b then 1 else 0) + Occurrences(successors[1..], b)
  }

  function One(condition: bool): nat {
    if condition then 1 else 0
  }

  /** How many edges a terminator has to `b`. */
  function Edges(t: Terminator, b: nat): nat {
    match t
    case Conditional(_, ifTrue, ifFalse) => One(ifTrue == b) + One(ifFalse == b)
    case Other(successors) => Occurrences(successors, b)
  }

  function EdgesFrom(f: CFG, p: nat, b: nat): nat {
    if p < |f| then Edges(f[p].terminator, b) else 0
  }

  /** How many entries a phi has for `p`. */
  function Entries(incoming: seq<(Operand, nat)>, p: nat): nat {
    if incoming == [] then 0 else One(incoming[0].1 == p) + Entries(incoming[1..], p)
  }

  /** One phi entry per incoming edge. */
  ghost predicate Consistent(f: CFG) {
    forall b, k, p: nat :: 0 <= b < |f| && 0 <= k < |f[b].phis| ==>
      Entries(f[b].phis[k].incoming, p) == EdgesFrom(f, p, b)
  }

  lemma {:induction false} EntriesAppend(incoming: seq<(Operand, nat)>, entry: (Operand, nat), p: nat)
    ensures Entries(incoming + [entry], p) == Entries(incoming, p) + One(entry.1 == p)
  {
    if incoming == [] {
      assert incoming + [entry] == [entry];
    } else {
      EntriesAppend(incoming[1..], entry, p);
      assert (incoming + [entry])[1..] == incoming[1..] + [entry];
    }
  }

  lemma {:induction false} EntriesFound(incoming: seq<(Operand, nat)>, p: nat)
    ensures Entries(incoming, p) > 0 <==> IndexOf(incoming, p) < |incoming|
  {
    if incoming != [] && incoming[0].1 != p {
      EntriesFound(incoming[1..], p);
    }
  }

  lemma AddIncomingEntries(phi: Phi, like: nat, from: nat, p: nat)
    ensures Entries(AddIncoming(phi, like, from).incoming, p)
         == Entries(phi.incoming, p) + One(p == from && Entries(phi.incoming, like) > 0)
  {
    EntriesFound(phi.incoming, like);
    var i := IndexOf(phi.incoming, like);
    if i < |phi.incoming| {
      EntriesAppend(phi.incoming, (phi.incoming[i].0, from), p);
    }
  }

  /** What the patch does to the entries of any phi: phis of the target that know the second block
      gain one entry for the first block per edge from the second block to the target. */
  lemma {:induction false} PatchedEntries(f: CFG, second: nat, target: nat, first: nat, b: nat, k: nat, p: nat)
    requires IsConditional(f, second) && target < |f| && first != second
    requires b < |f| && k < |f[b].phis|
    ensures var f' := PatchPhis(f, second, target, first);
      && |f'[b].phis| == |f[b].phis|
      && Entries(f'[b].phis[k].incoming, p)
         == Entries(f[b].phis[k].incoming, p)
            + if b == target && p == first && Entries(f[b].phis[k].incoming, second) > 0
              then Edges(f[second].terminator, target) else 0
  {
    if b == target {
      var phi := f[b].phis[k];
      AddIncomingEntries(phi, second, first, p);
      AddIncomingEntries(phi, second, first, second);
      AddIncomingEntries(AddIncoming(phi, second, first), second, first, p);
    }
  }

  lemma PatchKeepsTerminators(f: CFG, second: nat, target: nat, first: nat)
    requires IsConditional(f, second) && target < |f|
    ensures var f' := PatchPhis(f, second, target, first);
      |f'| == |f| && forall b :: 0 <= b < |f| ==> f'[b].terminator == f[b].terminator && |f'[b].phis| == |f[b].phis|
  {
  }

  /** The first branch gives up one edge to `abandoned` for one to `target`; the patch adds entries
      for it. Entries and edges then differ exactly at the phis of the abandoned block. */
  lemma {:induction false} Moved(f: CFG, first: nat, second: nat, ifTrue: nat, ifFalse: nat, target: nat,
                                 abandoned: nat,
                                 b: nat, k: nat, p: nat)
    requires Consistent(f) && IsConditional(f, first) && IsConditional(f, second) && first != second
    requires target < |f| && abandoned < |f| && b < |f| && k < |f[b].phis|
    requires Edges(f[second].terminator, target) == 1 + One(target == abandoned)
    requires forall c: nat :: One(ifTrue == c) + One(ifFalse == c) + One(c == abandoned)
                              == Edges(f[first].terminator, c) + One(c == target)
    ensures var f' := PatchPhis(WithBranch(f, first, ifTrue, ifFalse), second, target, first);
      && |f'| == |f| && |f'[b].phis| == |f[b].phis|
      && Entries(f'[b].phis[k].incoming, p)
      == EdgesFrom(f', p, b) + One(b == abandoned && p == first) * (1 + One(target == abandoned))
  {
    var f1 := WithBranch(f, first, ifTrue, ifFalse);
    PatchedEntries(f1, second, target, first, b, k, p);
    PatchKeepsTerminators(f1, second, target, first);
    assert Entries(f[b].phis[k].incoming, p) == EdgesFrom(f, p, b);
    assert Entries(f[b].phis[k].incoming, second) == EdgesFrom(f, second, b);
    assert One(ifTrue == b) + One(ifFalse == b) + One(b == abandoned)
        == Edges(f[first].terminator, b) + One(b == target);
  }

  lemma {:induction false} MovedConsistent(f: CFG, first: nat, second: nat, ifTrue: nat, ifFalse: nat, target: nat,
                                           abandoned: nat)
    requires Consistent(f) && IsConditional(f, first) && IsConditional(f, second) && first != second
    requires target < |f| && abandoned < |f|
    requires Edges(f[second].terminator, target) == 1 + One(target == abandoned)
    requires forall c: nat :: One(ifTrue == c) + One(ifFalse == c) + One(c == abandoned)
                              == Edges(f[first].terminator, c) + One(c == target)
    ensures Consistent(PatchPhis(WithBranch(f, first, ifTrue, ifFalse), second, target, first))
       <==> f[abandoned].phis == []
  {
    var f' := PatchPhis(WithBranch(f, first, ifTrue, ifFalse), second, target, first);
    PatchKeepsTerminators(WithBranch(f, first, ifTrue, ifFalse), second, target, first);
    if f[abandoned].phis == [] {
      forall b, k, p: nat | 0 <= b < |f'| && 0 <= k < |f'[b].phis|
        ensures Entries(f'[b].phis[k].incoming, p) == EdgesFrom(f', p, b)
      {
        Moved(f, first, second, ifTrue, ifFalse, target, abandoned, b, k, p);
      }
    } else {
      Moved(f, first, second, ifTrue, ifFalse, target, abandoned, abandoned, 0, first);
      assert Entries(f'[abandoned].phis[0].incoming, first) != EdgesFrom(f', first, abandoned);
    }
  }

  /** Patterns 1 and 2 of AND-to-OR keep one phi entry per edge if and only if the target that the
      first branch abandons has no phis: entries there are never removed. */
  lemma {:induction false} AndKeepsConsistency(f: CFG, first: nat)
    requires WellFormed(f) && first < |f| && Consistent(f)
    requires And.Detect(f, first).Found? && !And.Detect(f, first).pattern.Pattern3?
    ensures var abandoned := f[And.Detect(f, first).second].terminator.ifFalse;
      && abandoned < |f| && And.Apply(f, first).Edited?
      && (Consistent(And.Apply(f, first).f) <==> f[abandoned].phis == [])
  {
    var d := And.Detect(f, first);
    var t := f[first].terminator;
    var target, abandoned := f[d.second].terminator.ifTrue, f[d.second].terminator.ifFalse;
    assert InRange(f[d.second].terminator, |f|);
    if d.pattern.Pattern1? {
      MovedConsistent(f, first, d.second, target, t.ifTrue, target, abandoned);
    } else {
      MovedConsistent(f, first, d.second, t.ifFalse, target, target, abandoned);
    }
  }

  lemma SwapConsistent(f: CFG)
    ensures Consistent(Swap(f)) <==> Consistent(f)
  {
    forall p: nat, b: nat ensures EdgesFrom(Swap(f), p, b) == EdgesFrom(f, p, b) {
    }
  }

  /** The same for OR-to-AND, whose first branch abandons the second one's true successor. */
  lemma {:induction false} OrKeepsConsistency(f: CFG, first: nat)
    requires WellFormed(f) && first < |f| && Consistent(f)
    requires Or.Detect(f, first).Found? && !Or.Detect(f, first).pattern.Pattern3?
    ensures var abandoned := f[Or.Detect(f, first).second].terminator.ifTrue;
      && abandoned < |f| && Or.Apply(f, first).Edited?
      && (Consistent(Or.Apply(f, first).f) <==> f[abandoned].phis == [])
  {
    OrIsConjugateOfAnd(f, first);
    SwapConsistent(f);
    AndKeepsConsistency(Swap(f), first);
    SwapConsistent(And.Apply(Swap(f), first).f);
  }

  /** Pattern 3 exchanges the successors of one branch and the value of one entry: edges and
      entries stay as they were. */
  lemma {:induction false} FlipKeepsConsistency(f: CFG, first: nat, second: nat)
    requires IsConditional(f, first) && second < |f| && FlipPhi(f, first, second).Edited?
    ensures Consistent(f) <==> Consistent(FlipPhi(f, first, second).f)
  {
    var f' := FlipPhi(f, first, second).f;
    forall p: nat, b: nat ensures EdgesFrom(f', p, b) == EdgesFrom(f, p, b) {
    }
    forall b, k, p: nat | 0 <= b < |f| && 0 <= k < |f[b].phis|
      ensures |f'[b].phis| == |f[b].phis| && Entries(f'[b].phis[k].incoming, p) == Entries(f[b].phis[k].incoming, p)
    {
    }
  }

  /** A patched phi keeps the values it has, and gives the first block the second one's value if it has
      none for it. */
  lemma {:induction false} PatchedValue(f: CFG, second: nat, target: nat, first: nat, k: nat, env: Env)
    requires IsConditional(f, second) && target < |f| && first != second && k < |f[target].phis|
    requires f[second].terminator.ifTrue == target || f[second].terminator.ifFalse == target
    ensures var (f', phi) := (PatchPhis(f, second, target, first), f[target].phis[k]);
      && |f'[target].phis| == |f[target].phis|
      && PhiValue(f'[target].phis[k], first, env)
         == (if Entries(phi.incoming, first) == 0 then PhiValue(phi, second, env) else PhiValue(phi, first, env))
      && PhiValue(f'[target].phis[k], second, env) == PhiValue(phi, second, env)
  {
    var phi := f[target].phis[k];
    EntriesFound(phi.incoming, first);
    AddedValue(phi, second, first, env);
    var added := AddIncoming(phi, second, first);
    AddedValue(added, second, first, env);
    AddIncomingEntries(phi, second, first, first);
    EntriesFound(added.incoming, first);
  }

  /** A phi of the second branch's true successor keeps its value for the second block. It takes that
      value from the first block too, if and only if it had no entry for the first block before or one
      with this value. */
  lemma {:induction false} AndTakesSecondValue(f: CFG, first: nat, k: nat, env: Env)
    requires WellFormed(f) && first < |f|
    requires And.Detect(f, first).Found? && !And.Detect(f, first).pattern.Pattern3?
    requires var target := f[And.Detect(f, first).second].terminator.ifTrue;
      target < |f| && k < |f[target].phis|
    ensures var second := And.Detect(f, first).second;
            var target := f[second].terminator.ifTrue;
      && And.Apply(f, first).Edited?
      && var (f', phi) := (And.Apply(f, first).f, f[target].phis[k]);
         && target < |f'| && k < |f'[target].phis|
         && PhiValue(f'[target].phis[k], second, env) == PhiValue(phi, second, env)
         && (PhiValue(f'[target].phis[k], first, env) == PhiValue(phi, second, env)
             <==> Entries(phi.incoming, first) == 0 || PhiValue(phi, first, env) == PhiValue(phi, second, env))
  {
    var d := And.Detect(f, first);
    var t := f[first].terminator;
    var target := f[d.second].terminator.ifTrue;
    var f1 := if d.pattern.Pattern1? then WithBranch(f, first, target, t.ifTrue)
              else WithBranch(f, first, t.ifFalse, target);
    assert f1[target].phis == f[target].phis;
    PatchedValue(f1, d.second, target, first, k, env);
    assert And.Apply(f, first) == Edited(PatchPhis(f1, d.second, target, first));
  }

  /** The same for OR-to-AND and the second branch's false successor. */
  lemma {:induction false} OrTakesSecondValue(f: CFG, first: nat, k: nat, env: Env)
    requires WellFormed(f) && first < |f|
    requires Or.Detect(f, first).Found? && !Or.Detect(f, first).pattern.Pattern3?
    requires var target := f[Or.Detect(f, first).second].terminator.ifFalse;
      target < |f| && k < |f[target].phis|
    ensures var second := Or.Detect(f, first).second;
            var target := f[second].terminator.ifFalse;
      && Or.Apply(f, first).Edited?
      && var (f', phi) := (Or.Apply(f, first).f, f[target].phis[k]);
         && target < |f'| && k < |f'[target].phis|
         && PhiValue(f'[target].phis[k], second, env) == PhiValue(phi, second, env)
         && (PhiValue(f'[target].phis[k], first, env) == PhiValue(phi, second, env)
             <==> Entries(phi.incoming, first) == 0 || PhiValue(phi, first, env) == PhiValue(phi, second, env))
  {
    var d := Or.Detect(f, first);
    var t := f[first].terminator;
    var target := f[d.second].terminator.ifFalse;
    var f1 := if d.pattern.Pattern1? then WithBranch(f, first, t.ifFalse, target)
              else WithBranch(f, first, target, t.ifTrue);
    assert f1[target].phis == f[target].phis;
    PatchedValue(f1, d.second, target, first, k, env);
    assert Or.Apply(f, first) == Edited(PatchPhis(f1, d.second, target, first));
  }

  lemma IndexOfAppend(incoming: seq<(Operand, nat)>, entry: (Operand, nat), block: nat)
    ensures IndexOf(incoming + [entry], block)
         == if IndexOf(incoming, block) < |incoming| then IndexOf(incoming, block)
            else if entry.1 == block then |incoming| else |incoming| + 1
  {
    if incoming == [] {
      assert incoming + [entry] == [entry];
    } else {
      IndexOfAppend(incoming[1..], entry, block);
      assert (incoming + [entry])[1..] == incoming[1..] + [entry];
    }
  }

  lemma AddedValue(phi: Phi, like: nat, from: nat, env: Env)
    requires like != from
    ensures PhiValue(AddIncoming(phi, like, from), like, env) == PhiValue(phi, like, env)
    ensures PhiValue(AddIncoming(phi, like, from), from, env)
         == if IndexOf(phi.incoming, from) < |phi.incoming| then PhiValue(phi, from, env) else PhiValue(phi, like, env)
  {
    var i := IndexOf(phi.incoming, like);
    if i < |phi.incoming| {
      IndexOfAppend(phi.incoming, (phi.incoming[i].0, from), like);
      IndexOfAppend(phi.incoming, (phi.incoming[i].0, from), from);
    }
  }

  // ---- All that an edit changes -------------------------------------------------------------------------

  /** The operand of the first entry for the block, if it has one. */
  ghost predicate FirstOperand(incoming: seq<(Operand, nat)>, block: nat, operand: Operand) {
    exists j :: 0 <= j < |incoming| && incoming[j] == (operand, block)
                && forall i :: 0 <= i < j ==> incoming[i].1 != block
  }

  ghost predicate HasEntryFor(incoming: seq<(Operand, nat)>, block: nat) {
    exists j :: 0 <= j < |incoming| && incoming[j].1 == block
  }

  /** The phi keeps what it has, in order, and has `n` more entries: each for `first`, with what the phi
      has for `second`. */
  ghost predicate Extended(phi': Phi, phi: Phi, second: nat, first: nat, n: nat) {
    && phi'.dst == phi.dst && phi.incoming <= phi'.incoming && |phi'.incoming| == |phi.incoming| + n
    && forall i :: |phi.incoming| <= i < |phi'.incoming| ==>
         phi'.incoming[i].1 == first && FirstOperand(phi.incoming, second, phi'.incoming[i].0)
  }

  /** Of the first block only the successors change, of the target only the phis, and of all others
      nothing: a phi of the target that knows the second block gains one entry per edge from there. */
  ghost predicate OnlyRedirected(f': CFG, f: CFG, first: nat, second: nat, target: nat, ifTrue: nat, ifFalse: nat)
    requires IsConditional(f, first) && second < |f| && target < |f|
  {
    && |f'| == |f|
    && f'[first].terminator == Conditional(f[first].terminator.condition, ifTrue, ifFalse)
    && (forall b :: 0 <= b < |f| && b != first ==> f'[b].terminator == f[b].terminator)
    && (forall b :: 0 <= b < |f| && b != target ==> f'[b].phis == f[b].phis)
    && |f'[target].phis| == |f[target].phis|
    && forall k :: 0 <= k < |f[target].phis| ==>
         Extended(f'[target].phis[k], f[target].phis[k], second, first,
                  if HasEntryFor(f[target].phis[k].incoming, second) then Edges(f[second].terminator, target) else 0)
  }

  lemma FirstOperandFound(incoming: seq<(Operand, nat)>, block: nat)
    ensures HasEntryFor(incoming, block) <==> IndexOf(incoming, block) < |incoming|
    ensures HasEntryFor(incoming, block) ==> FirstOperand(incoming, block, incoming[IndexOf(incoming, block)].0)
  {
    var j := IndexOf(incoming, block);
    assert j < |incoming| ==> incoming[j] == (incoming[j].0, block);
  }

  lemma AddedOnce(phi: Phi, second: nat, first: nat)
    ensures Extended(AddIncoming(phi, second, first), phi, second, first, One(HasEntryFor(phi.incoming, second)))
  {
    FirstOperandFound(phi.incoming, second);
  }

  /** A second edge to the target adds the same entry again. */
  lemma AddedTwice(phi: Phi, second: nat, first: nat)
    requires first != second
    ensures Extended(AddIncoming(AddIncoming(phi, second, first), second, first), phi, second, first,
                     2 * One(HasEntryFor(phi.incoming, second)))
  {
    FirstOperandFound(phi.incoming, second);
    var i := IndexOf(phi.incoming, second);
    if i < |phi.incoming| {
      IndexOfAppend(phi.incoming, (phi.incoming[i].0, first), second);
    }
  }

  lemma {:induction false} PatchRedirects(f: CFG, first: nat, second: nat, target: nat, ifTrue: nat, ifFalse: nat)
    requires IsConditional(f, first) && IsConditional(f, second) && first != second && target < |f|
    ensures OnlyRedirected(PatchPhis(WithBranch(f, first, ifTrue, ifFalse), second, target, first), f, first, second,
                           target, ifTrue, ifFalse)
  {
    hide Extended, HasEntryFor, AddIncoming;
    forall k | 0 <= k < |f[target].phis|
      ensures var phi := f[target].phis[k];
        && Extended(AddIncoming(phi, second, first), phi, second, first, One(HasEntryFor(phi.incoming, second)))
        && Extended(AddIncoming(AddIncoming(phi, second, first), second, first), phi, second, first,
                    2 * One(HasEntryFor(phi.incoming, second)))
        && Extended(phi, phi, second, first, 0)
    {
      AddedOnce(f[target].phis[k], second, first);
      AddedTwice(f[target].phis[k], second, first);
      KeptPhi(f[target].phis[k], second, first);
    }
  }

  lemma KeptPhi(phi: Phi, second: nat, first: nat)
    ensures Extended(phi, phi, second, first, 0)
  {
  }

  /** Patterns 1 and 2 of AND-to-OR: the first branch takes over the second one's true successor, on the
      true side or on the false side, and there is nothing else that changes. */
  lemma {:induction false} AndChangesOnly(f: CFG, first: nat)
    requires WellFormed(f) && first < |f|
    requires And.Detect(f, first).Found? && !And.Detect(f, first).pattern.Pattern3?
    ensures var (second, t) := (And.Detect(f, first).second, f[first].terminator);
      var target := f[second].terminator.ifTrue;
      && target < |f| && And.Apply(f, first).Edited?
      && (And.Detect(f, first).pattern.Pattern1? ==>
            OnlyRedirected(And.Apply(f, first).f, f, first, second, target, target, t.ifTrue))
      && (And.Detect(f, first).pattern.Pattern2? ==>
            OnlyRedirected(And.Apply(f, first).f, f, first, second, target, t.ifFalse, target))
  {
    var (d, t) := (And.Detect(f, first), f[first].terminator);
    var target := f[d.second].terminator.ifTrue;
    assert InRange(f[d.second].terminator, |f|);
    PatchRedirects(f, first, d.second, target, target, t.ifTrue);
    PatchRedirects(f, first, d.second, target, t.ifFalse, target);
  }

  /** The same for OR-to-AND and the second branch's false successor. */
  lemma {:induction false} OrChangesOnly(f: CFG, first: nat)
    requires WellFormed(f) && first < |f|
    requires Or.Detect(f, first).Found? && !Or.Detect(f, first).pattern.Pattern3?
    ensures var (second, t) := (Or.Detect(f, first).second, f[first].terminator);
      var target := f[second].terminator.ifFalse;
      && target < |f| && Or.Apply(f, first).Edited?
      && (Or.Detect(f, first).pattern.Pattern1? ==>
            OnlyRedirected(Or.Apply(f, first).f, f, first, second, target, t.ifFalse, target))
      && (Or.Detect(f, first).pattern.Pattern2? ==>
            OnlyRedirected(Or.Apply(f, first).f, f, first, second, target, target, t.ifTrue))
  {
    var (d, t) := (Or.Detect(f, first), f[first].terminator);
    var target := f[d.second].terminator.ifFalse;
    assert InRange(f[d.second].terminator, |f|);
    PatchRedirects(f, first, d.second, target, t.ifFalse, target);
    PatchRedirects(f, first, d.second, target, target, t.ifTrue);
  }

  /** For every block but the first, a phi has the value it had. */
  lemma {:induction false} RedirectedValue(f': CFG, f: CFG, first: nat, second: nat, target: nat, ifTrue: nat,
                                           ifFalse: nat, b: nat, k: nat, p: nat, env: Env)
    requires IsConditional(f, first) && second < |f| && target < |f|
    requires OnlyRedirected(f', f, first, second, target, ifTrue, ifFalse)
    requires b < |f| && k < |f[b].phis| && p != first
    ensures |f'[b].phis| == |f[b].phis| && PhiValue(f'[b].phis[k], p, env) == PhiValue(f[b].phis[k], p, env)
  {
    var (incoming, incoming') := (f[b].phis[k].incoming, f'[b].phis[k].incoming);
    if b == target {
      assert Extended(f'[b].phis[k], f[b].phis[k], second, first, |incoming'| - |incoming|);
      assert incoming' == incoming + incoming'[|incoming|..];
      IndexOfKept(incoming, incoming'[|incoming|..], p);
    }
  }

  /** Patterns 1 and 2 leave every value that control from another block than the first brings along. */
  lemma {:induction false} AndKeepsValues(f: CFG, first: nat, b: nat, k: nat, p: nat, env: Env)
    requires WellFormed(f) && first < |f| && b < |f| && k < |f[b].phis| && p != first
    requires And.Detect(f, first).Found? && !And.Detect(f, first).pattern.Pattern3?
    ensures var f' := And.Apply(f, first).f;
      && |f'| == |f| && |f'[b].phis| == |f[b].phis|
      && PhiValue(f'[b].phis[k], p, env) == PhiValue(f[b].phis[k], p, env)
  {
    AndChangesOnly(f, first);
    var (d, t) := (And.Detect(f, first), f[first].terminator);
    var target := f[d.second].terminator.ifTrue;
    if d.pattern.Pattern1? {
      RedirectedValue(And.Apply(f, first).f, f, first, d.second, target, target, t.ifTrue, b, k, p, env);
    } else {
      RedirectedValue(And.Apply(f, first).f, f, first, d.second, target, t.ifFalse, target, b, k, p, env);
    }
  }

  lemma {:induction false} OrKeepsValues(f: CFG, first: nat, b: nat, k: nat, p: nat, env: Env)
    requires WellFormed(f) && first < |f| && b < |f| && k < |f[b].phis| && p != first
    requires Or.Detect(f, first).Found? && !Or.Detect(f, first).pattern.Pattern3?
    ensures var f' := Or.Apply(f, first).f;
      && |f'| == |f| && |f'[b].phis| == |f[b].phis|
      && PhiValue(f'[b].phis[k], p, env) == PhiValue(f[b].phis[k], p, env)
  {
    OrChangesOnly(f, first);
    var (d, t) := (Or.Detect(f, first), f[first].terminator);
    var target := f[d.second].terminator.ifFalse;
    if d.pattern.Pattern1? {
      RedirectedValue(Or.Apply(f, first).f, f, first, d.second, target, t.ifFalse, target, b, k, p, env);
    } else {
      RedirectedValue(Or.Apply(f, first).f, f, first, d.second, target, target, t.ifTrue, b, k, p, env);
    }
  }

  lemma {:induction false} IndexOfKept(incoming: seq<(Operand, nat)>, more: seq<(Operand, nat)>, p: nat)
    requires forall i :: 0 <= i < |more| ==> more[i].1 != p
    ensures IndexOf(incoming + more, p)
         == if IndexOf(incoming, p) < |incoming| then IndexOf(incoming, p) else |incoming| + |more|
  {
    var j := IndexOf(incoming + more, p);
    assert j < |incoming + more| ==> (incoming + more)[j].1 == p;
    assert IndexOf(incoming, p) < |incoming| ==> (incoming + more)[IndexOf(incoming, p)].1 == p;
    assert forall i :: 0 <= i < |incoming| ==> (incoming + more)[i] == incoming[i];
  }

  /** Pattern 3: the first branch's successors are exchanged, entry 0 of the second block's first phi is
      negated, and there is nothing else that changes. */
  ghost predicate OnlyFlipped(f': CFG, f: CFG, first: nat, second: nat)
    requires IsConditional(f, first) && second < |f|
  {
    var t := f[first].terminator;
    && |f'| == |f| && f'[first].terminator == Conditional(t.condition, t.ifFalse, t.ifTrue)
    && (forall b :: 0 <= b < |f| && b != first ==> f'[b].terminator == f[b].terminator)
    && (forall b :: 0 <= b < |f| && b != second ==> f'[b].phis == f[b].phis)
    && |f'[second].phis| == |f[second].phis| > 0
    && (forall k :: 0 < k < |f[second].phis| ==> f'[second].phis[k] == f[second].phis[k])
    && var (phi, phi') := (f[second].phis[0], f'[second].phis[0]);
       && phi'.dst == phi.dst && |phi'.incoming| == |phi.incoming| > 0
       && (forall i :: 0 < i < |phi.incoming| ==> phi'.incoming[i] == phi.incoming[i])
       && phi'.incoming[0].1 == phi.incoming[0].1
       && phi.incoming[0].0.Constant? && phi'.incoming[0].0 == Constant(!phi.incoming[0].0.value)
  }

  /** Where there is no phi, or no constant at its entry 0, an assertion fails. */
  ghost predicate ConstantFirst(f: CFG, second: nat)
    requires second < |f|
  {
    f[second].phis != [] && f[second].phis[0].incoming != [] && f[second].phis[0].incoming[0].0.Constant?
  }

  lemma FlipChangesOnly(f: CFG, first: nat)
    requires WellFormed(f) && first < |f|
    ensures And.Detect(f, first).Found? && And.Detect(f, first).pattern.Pattern3? ==>
      && (And.Apply(f, first).Edited? <==> ConstantFirst(f, And.Detect(f, first).second))
      && (And.Apply(f, first).Edited? ==>
            OnlyFlipped(And.Apply(f, first).f, f, first, And.Detect(f, first).second))
    ensures Or.Detect(f, first).Found? && Or.Detect(f, first).pattern.Pattern3? ==>
      && (Or.Apply(f, first).Edited? <==> ConstantFirst(f, Or.Detect(f, first).second))
      && (Or.Apply(f, first).Edited? ==>
            OnlyFlipped(Or.Apply(f, first).f, f, first, Or.Detect(f, first).second))
    ensures IsConditional(f, first) && And.Detect(f, first).Nothing? ==> And.Apply(f, first) == Edited(f)
    ensures IsConditional(f, first) && Or.Detect(f, first).Nothing? ==> Or.Apply(f, first) == Edited(f)
  {
  }

  // ---- Detection in terms of edges ------------------------------------------------------------------------

  lemma {:induction false} EntryExists(incoming: seq<(Operand, nat)>, p: nat)
    ensures Entries(incoming, p) > 0 <==> HasEntryFor(incoming, p)
  {
    EntriesFound(incoming, p);
    FirstOperandFound(incoming, p);
  }

  /** A block of a consistent function with a phi has an entry for another block than the first, if and
      only if control can come from another one. */
  lemma {:induction false} ForeignEdge(f: CFG, first: nat, c: nat)
    requires Consistent(f) && c < |f|
    ensures HasForeignEntry(f[c], first)
       <==> f[c].phis != [] && exists p: nat :: p != first && EdgesFrom(f, p, c) > 0
  {
    if HasForeignEntry(f[c], first) {
      var k, i :| 0 <= k < |f[c].phis| && 0 <= i < |f[c].phis[k].incoming| && f[c].phis[k].incoming[i].1 != first;
      var p := f[c].phis[k].incoming[i].1;
      EntryExists(f[c].phis[k].incoming, p);
      assert Entries(f[c].phis[k].incoming, p) == EdgesFrom(f, p, c);
    }
    if p: nat :| f[c].phis != [] && p != first && EdgesFrom(f, p, c) > 0 {
      var incoming := f[c].phis[0].incoming;
      EntryExists(incoming, p);
      assert Entries(incoming, p) == EdgesFrom(f, p, c);
      var j :| 0 <= j < |incoming| && incoming[j].1 == p;
    }
  }

  /** What a conditional block is to the first branch, by its edges alone: it fails to where the first one
      fails, to where the first one goes on, or neither, and is where the first one fails itself, with a
      phi and another way in. */
  lemma {:induction false} AndMatchesByEdges(f: CFG, first: nat, c: nat)
    requires Consistent(f) && IsConditional(f, first) && c < |f|
    ensures var (t, u) := (f[first].terminator, f[c].terminator);
      && (And.Match(f, first, c) == Found(Pattern1, c) <==> u.Conditional? && u.ifFalse == t.ifFalse)
      && (And.Match(f, first, c) == Found(Pattern2, c)
          <==> u.Conditional? && u.ifFalse != t.ifFalse && u.ifFalse == t.ifTrue)
      && (And.Match(f, first, c) == Found(Pattern3, c)
          <==> && u.Conditional? && u.ifFalse != t.ifFalse && u.ifFalse != t.ifTrue && c == t.ifFalse
               && f[c].phis != [] && exists p: nat :: p != first && EdgesFrom(f, p, c) > 0)
  {
    ForeignEdge(f, first, c);
  }

  lemma {:induction false} OrMatchesByEdges(f: CFG, first: nat, c: nat)
    requires Consistent(f) && IsConditional(f, first) && c < |f|
    ensures var (t, u) := (f[first].terminator, f[c].terminator);
      && (Or.Match(f, first, c) == Found(Pattern1, c) <==> u.Conditional? && u.ifTrue == t.ifTrue)
      && (Or.Match(f, first, c) == Found(Pattern2, c)
          <==> u.Conditional? && u.ifTrue != t.ifTrue && u.ifTrue == t.ifFalse)
      && (Or.Match(f, first, c) == Found(Pattern3, c)
          <==> && u.Conditional? && u.ifTrue != t.ifTrue && u.ifTrue != t.ifFalse && c == t.ifTrue
               && f[c].phis != [] && exists p: nat :: p != first && EdgesFrom(f, p, c) > 0)
  {
    ForeignEdge(f, first, c);
  }
}
