/** Replaces || with && in compiled code. */
module LogicalOrToAnd {
  import opened ControlFlow

  /** What a later conditional branch is to the first one. */
  function Match(f: CFG, first: nat, c: nat): Detection
    requires IsConditional(f, first) && c < |f|
  {
    var t := f[first].terminator;
    if !f[c].terminator.Conditional? then Nothing
    else if f[c].terminator.ifTrue == t.ifTrue then Found(Pattern1, c)
    else if f[c].terminator.ifTrue == t.ifFalse then Found(Pattern2, c)
    else if c == t.ifTrue && HasForeignEntry(f[c], first) then Found(Pattern3, c)
    else Nothing
  }

  /** The first match from block `c` on. */
  function DetectFrom(f: CFG, first: nat, c: nat): (d: Detection)
    requires IsConditional(f, first) && c <= |f|
    ensures d.Found? ==> c <= d.second < |f| && Match(f, first, d.second) == d
                         && forall j :: c <= j < d.second ==> Match(f, first, j).Nothing?
    ensures d.Nothing? ==> forall j :: c <= j < |f| ==> Match(f, first, j).Nothing?
    decreases |f| - c
  {
    if c == |f| then Nothing
    else if Match(f, first, c).Found? then Match(f, first, c)
    else DetectFrom(f, first, c + 1)
  }

  function Detect(f: CFG, first: nat): (d: Detection)
    requires first < |f|
    ensures d.Found? ==> IsConditional(f, first) && first < d.second < |f| && Match(f, first, d.second) == d
  {
    if IsConditional(f, first) then DetectFrom(f, first, first + 1) else Nothing
  }

  /** The edit of the branch that the detection found. */
  function Rewrite(f: CFG, first: nat, d: Detection): Edit
    requires WellFormed(f) && first < |f|
    requires d.Found? ==> IsConditional(f, first) && d.second < |f| && d.second != first && IsConditional(f, d.second)
  {
    match d
    case Nothing => Edited(f)
    case Found(Pattern1, second) =>
      var target := f[second].terminator.ifFalse;
      Edited(PatchPhis(WithBranch(f, first, f[first].terminator.ifFalse, target), second, target, first))
    case Found(Pattern2, second) =>
      var target := f[second].terminator.ifFalse;
      Edited(PatchPhis(WithBranch(f, first, target, f[first].terminator.ifTrue), second, target, first))
    case Found(Pattern3, second) => FlipPhi(f, first, second)
  }

  /** Only conditional branches may be mutated. */
  function Apply(f: CFG, first: nat): Edit
    requires WellFormed(f) && first < |f|
  {
    if IsConditional(f, first) then Rewrite(f, first, Detect(f, first)) else AssertionFailure
  }

  /** The search for the second branch: every conditional branch after the first one, in the order
      of the blocks. */
  method FindPossibleMutationInBranch(f: CFG, branchInst: nat) returns (d: Detection)
    requires branchInst < |f|
    ensures d == Detect(f, branchInst)
  {
    if !f[branchInst].terminator.Conditional? {
      return Nothing;
    }
    var leftBB, rightBB := f[branchInst].terminator.ifTrue, f[branchInst].terminator.ifFalse;
    var passedBranchInst := false;
    for bb := 0 to |f|
      invariant passedBranchInst <==> bb > branchInst
      invariant DetectFrom(f, branchInst, if bb > branchInst then bb else branchInst + 1) == Detect(f, branchInst)
    {
      var candidate := f[bb].terminator;
      if !candidate.Conditional? {
        continue;
      }
      if bb == branchInst {
        passedBranchInst := true;
        continue;
      }
      if passedBranchInst {
        if candidate.ifTrue == leftBB {
          return Found(Pattern1, bb);
        } else if candidate.ifTrue == rightBB {
          return Found(Pattern2, bb);
        }
        var foreign := FindForeignEntry(f[bb], branchInst);
        if foreign && bb == leftBB {
          return Found(Pattern3, bb);
        }
      }
    }
    d := Nothing;
  }

  /** Finds the second branch and edits the function in place. */
  method ApplyMutation(body: FunctionBody, first: nat) returns (ok: bool)
    requires WellFormed(body.blocks) && first < |body.blocks|
    modifies body
    ensures (if ok then Edited(body.blocks) else AssertionFailure) == Apply(old(body.blocks), first)
    ensures !ok ==> body.blocks == old(body.blocks)
  {
    if !body.blocks[first].terminator.Conditional? {
      return false;
    }
    var d := FindPossibleMutationInBranch(body.blocks, first);
    ok := true;
    match d {
      case Nothing =>
      case Found(Pattern1, second) =>
        var target := body.blocks[second].terminator.ifFalse;
        body.ReplaceBranch(first, body.blocks[first].terminator.ifFalse, target);
        body.UpdatePhis(second, target, first);
      case Found(Pattern2, second) =>
        var target := body.blocks[second].terminator.ifFalse;
        body.ReplaceBranch(first, target, body.blocks[first].terminator.ifTrue);
        body.UpdatePhis(second, target, first);
      case Found(Pattern3, second) =>
        ok := body.FlipFirstPhi(first, second);
    }
  }
}
