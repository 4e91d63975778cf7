/** OR-to-AND is AND-to-OR seen through exchanged successors. */
module Duality {
  import opened ControlFlow
  import And = LogicalAndToOr
  import Or = LogicalOrToAnd

  function SwapBlock(block: Block): Block {
    match block.terminator
    case Conditional(condition, ifTrue, ifFalse) => block.(terminator := Conditional(condition, ifFalse, ifTrue))
    case Other(_) => block
  }

  /** Exchanges the successors of every conditional branch. */
  function Swap(f: CFG): (f': CFG)
    ensures |f'| == |f| && forall b :: 0 <= b < |f| ==> f'[b] == SwapBlock(f[b])
  {
    seq(|f|, b requires 0 <= b < |f| => SwapBlock(f[b]))
  }

  function SwapEdit(e: Edit): Edit {
    match e
    case AssertionFailure => AssertionFailure
    case Edited(f) => Edited(Swap(f))
  }

  lemma SwapTwice(f: CFG)
    ensures Swap(Swap(f)) == f
  {
  }

  lemma SwapWellFormed(f: CFG)
    requires WellFormed(f)
    ensures WellFormed(Swap(f))
  {
    forall b | 0 <= b < |f| ensures InRange(Swap(f)[b].terminator, |f|) {
      assert InRange(f[b].terminator, |f|);
    }
  }

  lemma SwapMatch(f: CFG, first: nat, c: nat)
    requires IsConditional(f, first) && c < |f|
    ensures Or.Match(f, first, c) == And.Match(Swap(f), first, c)
  {
    assert Swap(f)[c].phis == f[c].phis;
  }

  lemma {:induction false} SwapDetectFrom(f: CFG, first: nat, c: nat)
    requires IsConditional(f, first) && c <= |f|
    ensures Or.DetectFrom(f, first, c) == And.DetectFrom(Swap(f), first, c)
    decreases |f| - c
  {
    if c < |f| {
      SwapMatch(f, first, c);
      SwapDetectFrom(f, first, c + 1);
    }
  }

  lemma SwapBranch(f: CFG, b: nat, ifTrue: nat, ifFalse: nat)
    requires IsConditional(f, b)
    ensures Swap(WithBranch(f, b, ifTrue, ifFalse)) == WithBranch(Swap(f), b, ifFalse, ifTrue)
  {
  }

  lemma SwapPatchBlock(f: CFG, target: nat, like: nat, from: nat)
    requires target < |f|
    ensures Swap(PatchBlock(f, target, like, from)) == PatchBlock(Swap(f), target, like, from)
  {
  }

  lemma SwapPatch(f: CFG, second: nat, target: nat, first: nat)
    requires IsConditional(f, second) && target < |f|
    ensures Swap(PatchPhis(f, second, target, first)) == PatchPhis(Swap(f), second, target, first)
  {
    SwapPatchBlock(f, target, second, first);
    SwapPatchBlock(PatchBlock(f, target, second, first), target, second, first);
  }

  lemma SwapFlip(f: CFG, first: nat, second: nat)
    requires IsConditional(f, first) && second < |f|
    ensures SwapEdit(FlipPhi(f, first, second)) == FlipPhi(Swap(f), first, second)
  {
    var e, e' := SwapEdit(FlipPhi(f, first, second)), FlipPhi(Swap(f), first, second);
    assert Swap(f)[second].phis == f[second].phis;
    if e.Edited? {
      assert e.f == e'.f;
    }
  }

  /** On every graph, detection and rewriting of OR-to-AND, phi updates included, are those of
      AND-to-OR on the graph with exchanged successors, exchanged back. */
  lemma {:induction false} OrIsConjugateOfAnd(f: CFG, first: nat)
    requires WellFormed(f) && first < |f|
    ensures WellFormed(Swap(f))
    ensures Or.Detect(f, first) == And.Detect(Swap(f), first)
    ensures Or.Apply(f, first) == SwapEdit(And.Apply(Swap(f), first))
  {
    SwapWellFormed(f);
    if IsConditional(f, first) {
      SwapDetectFrom(f, first, first + 1);
      match Or.Detect(f, first)
      case Nothing => SwapTwice(f);
      case Found(Pattern3, second) =>
        SwapFlip(Swap(f), first, second);
        SwapTwice(f);
      case Found(Pattern1, second) =>
        ConjugatePatch(f, first, second, f[first].terminator.ifFalse, f[second].terminator.ifFalse);
      case Found(Pattern2, second) =>
        ConjugatePatch(f, first, second, f[second].terminator.ifFalse, f[first].terminator.ifTrue);
    } else {
      SwapTwice(f);
    }
  }

  lemma ConjugatePatch(f: CFG, first: nat, second: nat, ifTrue: nat, ifFalse: nat)
    requires WellFormed(f) && IsConditional(f, first) && IsConditional(f, second) && first != second
    ensures var target := f[second].terminator.ifFalse;
      && target < |f|
      && PatchPhis(WithBranch(f, first, ifTrue, ifFalse), second, target, first)
         == Swap(PatchPhis(WithBranch(Swap(f), first, ifFalse, ifTrue), second, target, first))
  {
    var target := f[second].terminator.ifFalse;
    assert InRange(f[second].terminator, |f|);
    SwapTwice(f);
    SwapBranch(Swap(f), first, ifFalse, ifTrue);
    SwapPatch(WithBranch(Swap(f), first, ifFalse, ifTrue), second, target, first);
  }
}
