/**
 The control-flow graphs that the logical mutators edit. Only what they look at is kept: phis,
 and the successors of each block's terminator. The true successor of a conditional branch is
 LLVM's operand 2, the false successor its operand 1.
 */
module ControlFlow {
  datatype Operand = Constant(value: bool) | Variable(name: string)

  datatype Phi = Phi(dst: string, incoming: seq<(Operand, nat)>)

  datatype Terminator =
    | Conditional(condition: string, ifTrue: nat, ifFalse: nat)
    | Other(successors: seq<nat>)   // unconditional branches, returns, switches

  datatype Block = Block(phis: seq<Phi>, terminator: Terminator)

  type CFG = seq<Block>

  predicate IsConditional(f: CFG, b: nat) {
    b < |f| && f[b].terminator.Conditional?
  }

  predicate InRange(t: Terminator, n: nat) {
    match t
    case Conditional(_, ifTrue, ifFalse) => ifTrue < n && ifFalse < n
    case Other(successors) => forall k :: 0 <= k < |successors| ==> successors[k] < n
  }

  /** Successors exist. */
  predicate WellFormed(f: CFG) {
    forall b :: 0 <= b < |f| ==> InRange(f[b].terminator, |f|)
  }

  // ---- Editing ---------------------------------------------------------------------------------

  function WithBranch(f: CFG, b: nat, ifTrue: nat, ifFalse: nat): (f': CFG)
    requires IsConditional(f, b)
    ensures |f'| == |f|
  {
    f[b := f[b].(terminator := Conditional(f[b].terminator.condition, ifTrue, ifFalse))]
  }

  /** The first entry for a block, or the length if there is none. */
  function IndexOf(incoming: seq<(Operand, nat)>, block: nat): (i: nat)
    ensures i <= |incoming|
    ensures i < |incoming| ==> incoming[i].1 == block
    ensures forall j :: 0 <= j < i ==> incoming[j].1 != block
  {
    if incoming == [] || incoming[0].1 == block then 0 else 1 + IndexOf(incoming[1..], block)
  }

  /** A jump from `from` gets the value that a jump from `like` has. */
  function AddIncoming(phi: Phi, like: nat, from: nat): Phi {
    var i := IndexOf(phi.incoming, like);
    if i == |phi.incoming| then phi else phi.(incoming := phi.incoming + [(phi.incoming[i].0, from)])
  }

  function AddIncomingAll(phis: seq<Phi>, like: nat, from: nat): (phis': seq<Phi>)
    ensures |phis'| == |phis|
    ensures forall k :: 0 <= k < |phis| ==> phis'[k] == AddIncoming(phis[k], like, from)
  {
    seq(|phis|, k requires 0 <= k < |phis| => AddIncoming(phis[k], like, from))
  }

  function PatchBlock(f: CFG, target: nat, like: nat, from: nat): (f': CFG)
    requires target < |f|
    ensures |f'| == |f|
  {
    f[target := f[target].(phis := AddIncomingAll(f[target].phis, like, from))]
  }

  /** The loop over the successors of the second branch: each one that is the target is patched. */
  function PatchPhis(f: CFG, second: nat, target: nat, first: nat): (f': CFG)
    requires IsConditional(f, second) && target < |f|
    ensures |f'| == |f|
  {
    var t := f[second].terminator;
    var f1 := if t.ifTrue == target then PatchBlock(f, target, second, first) else f;
    if t.ifFalse == target then PatchBlock(f1, target, second, first) else f1
  }

  // ---- Patterns --------------------------------------------------------------------------------

  datatype Pattern = Pattern1 | Pattern2 | Pattern3

  datatype Detection = Nothing | Found(pattern: Pattern, second: nat)

  /** `AssertionFailure` stands for an edit whose assertions do not hold. */
  datatype Edit = AssertionFailure | Edited(f: CFG)

  /** Some phi of the block has an entry for another block than `first`. */
  predicate HasForeignEntry(block: Block, first: nat) {
    exists p, i :: 0 <= p < |block.phis| && 0 <= i < |block.phis[p].incoming| && block.phis[p].incoming[i].1 != first
  }

  /** Pattern 3: the first phi of the second block gets its entry 0 negated and the first branch
      has its successors exchanged. */
  function FlipPhi(f: CFG, first: nat, second: nat): Edit
    requires IsConditional(f, first) && second < |f|
  {
    var phis := f[second].phis;
    if phis == [] || phis[0].incoming == [] || !phis[0].incoming[0].0.Constant? then AssertionFailure
    else
      var (value, block) := phis[0].incoming[0];
      var phi := phis[0].(incoming := phis[0].incoming[0 := (Constant(!value.value), block)]);
      var f1 := f[second := f[second].(phis := phis[0 := phi])];
      Edited(WithBranch(f1, first, f[first].terminator.ifFalse, f[first].terminator.ifTrue))
  }

  // ---- Execution -------------------------------------------------------------------------------

  /** Values of the conditions. */
  type Env = string -> bool

  function Evaluate(operand: Operand, env: Env): bool {
    match operand
    case Constant(value) => value
    case Variable(name) => env(name)
  }

  /** The value a phi takes when control comes from `from`. */
  function PhiValue(phi: Phi, from: nat, env: Env): bool {
    var i := IndexOf(phi.incoming, from);
    i < |phi.incoming| && Evaluate(phi.incoming[i].0, env)
  }

  /** All phis of a block read their values before any of them is assigned. */
  function EnterPhis(phis: seq<Phi>, from: nat, before: Env, env: Env): Env {
    if phis == [] then env
    else
      var value := PhiValue(phis[0], from, before);
      var dst := phis[0].dst;
      EnterPhis(phis[1..], from, before, x => if x == dst then value else env(x))
  }

  /** Follows the graph from the terminator of `b` to the first block in `stops`. */
  function Leave(f: CFG, env: Env, b: nat, stops: set<nat>, fuel: nat): seq<nat>
    decreases fuel, 0
  {
    if fuel == 0 || b >= |f| then []
    else
      match f[b].terminator
      case Conditional(condition, ifTrue, ifFalse) =>
        Enter(f, env, b, if env(condition) then ifTrue else ifFalse, stops, fuel - 1)
      case Other(successors) =>
        if |successors| == 1 then Enter(f, env, b, successors[0], stops, fuel - 1) else []
  }

  /** Enters `b` from `from`, unless `b` is a stop. */
  function Enter(f: CFG, env: Env, from: nat, b: nat, stops: set<nat>, fuel: nat): seq<nat>
    decreases fuel, 1
  {
    if b in stops then [b]
    else if b >= |f| then []
    else Leave(f, EnterPhis(f[b].phis, from, env, env), b, stops, fuel)
  }

  // ---- Editing in place ------------------------------------------------------------------------

  /** A function whose branches and phis are edited in place. */
  class FunctionBody {
    var blocks: CFG

    constructor (blocks: CFG)
      ensures this.blocks == blocks
    {
      this.blocks := blocks;
    }

    /** A new branch takes the place of the old one. */
    method ReplaceBranch(b: nat, ifTrue: nat, ifFalse: nat)
      requires IsConditional(blocks, b)
      modifies this
      ensures blocks == WithBranch(old(blocks), b, ifTrue, ifFalse)
    {
      blocks := blocks[b := blocks[b].(terminator := Conditional(blocks[b].terminator.condition, ifTrue, ifFalse))];
    }

    /** Every phi of the target block learns about jumps from the first block. */
    method AddIncomingToPhis(target: nat, second: nat, first: nat)
      requires target < |blocks|
      modifies this
      ensures blocks == PatchBlock(old(blocks), target, second, first)
    {
      ghost var before := blocks;
      for k := 0 to |blocks[target].phis|
        invariant |blocks| == |before| && blocks == before[target := blocks[target]]
        invariant blocks[target].terminator == before[target].terminator
        invariant |blocks[target].phis| == |before[target].phis|
        invariant forall j :: 0 <= j < k ==>
          blocks[target].phis[j] == AddIncoming(before[target].phis[j], second, first)
        invariant forall j :: k <= j < |before[target].phis| ==> blocks[target].phis[j] == before[target].phis[j]
      {
        var phi := blocks[target].phis[k];
        var i := GetBasicBlockIndex(phi, second);
        if i < 0 {
          continue;
        }
        phi := phi.(incoming := phi.incoming + [(phi.incoming[i].0, first)]);
        blocks := blocks[target := blocks[target].(phis := blocks[target].phis[k := phi])];
      }
      assert blocks[target].phis == AddIncomingAll(before[target].phis, second, first);
    }

    /** The loop over the successors of the second branch. */
    method UpdatePhis(second: nat, target: nat, first: nat)
      requires IsConditional(blocks, second) && target < |blocks|
      modifies this
      ensures blocks == PatchPhis(old(blocks), second, target, first)
    {
      var successors := [blocks[second].terminator.ifTrue, blocks[second].terminator.ifFalse];
      ghost var before := blocks;
      for index := 0 to 2
        invariant index == 0 ==> blocks == before
        invariant index == 1 ==>
          blocks == if successors[0] == target then PatchBlock(before, target, second, first) else before
        invariant index == 2 ==> blocks == PatchPhis(before, second, target, first)
      {
        if successors[index] != target {
          continue;
        }
        AddIncomingToPhis(target, second, first);
      }
    }

    /** Negates entry 0 of the second block's first phi and exchanges the first branch's successors. */
    method FlipFirstPhi(first: nat, second: nat) returns (ok: bool)
      requires IsConditional(blocks, first) && second < |blocks|
      modifies this
      ensures (if ok then Edited(blocks) else AssertionFailure) == FlipPhi(old(blocks), first, second)
      ensures !ok ==> blocks == old(blocks)
    {
      var phis := blocks[second].phis;
      ok := phis != [] && phis[0].incoming != [] && phis[0].incoming[0].0.Constant?;
      if ok {
        var (value, block) := phis[0].incoming[0];
        var newValue := if value.value then Constant(false) else Constant(true);
        var phi := phis[0].(incoming := phis[0].incoming[0 := (newValue, block)]);
        var t := blocks[first].terminator;
        blocks := blocks[second := blocks[second].(phis := phis[0 := phi])];
        ReplaceBranch(first, t.ifFalse, t.ifTrue);
      }
    }
  }

  /** The index of the first entry for a block, or -1. */
  method GetBasicBlockIndex(phi: Phi, block: nat) returns (i: int)
    ensures i == if IndexOf(phi.incoming, block) < |phi.incoming| then IndexOf(phi.incoming, block) else -1
    ensures i == -1 <==> forall j :: 0 <= j < |phi.incoming| ==> phi.incoming[j].1 != block
    ensures i != -1 ==> 0 <= i < |phi.incoming| && phi.incoming[i].1 == block
    ensures forall j :: 0 <= j < i ==> phi.incoming[j].1 != block
  {
    i := 0;
    while i < |phi.incoming|
      invariant 0 <= i <= |phi.incoming|
      invariant forall j :: 0 <= j < i ==> phi.incoming[j].1 != block
    {
      if phi.incoming[i].1 == block {
        return;
      }
      i := i + 1;
    }
    i := -1;
  }

  /** Whether some phi of the block has an entry for another block than `first`. */
  method FindForeignEntry(block: Block, first: nat) returns (found: bool)
    ensures found == HasForeignEntry(block, first)
    ensures found <==> exists p, i :: 0 <= p < |block.phis| && 0 <= i < |block.phis[p].incoming|
                                      && block.phis[p].incoming[i].1 != first
  {
    for p := 0 to |block.phis|
      invariant forall q, i :: 0 <= q < p && 0 <= i < |block.phis[q].incoming| ==> block.phis[q].incoming[i].1 == first
    {
      var incoming := block.phis[p].incoming;
      for i := 0 to |incoming|
        invariant forall j :: 0 <= j < i ==> incoming[j].1 == first
      {
        if incoming[i].1 == first {
          continue;
        }
        return true;
      }
    }
    return false;
  }
}
