/**
 A small register language standing for the LLVM modules that Mull transforms, and its
 interpreter. A function is a list of basic blocks; functions call each other by symbol or
 through a pointer, so programs may be recursive, mutually recursive or divergent.

 `fuel` bounds the depth of the interpretation. An outcome other than `Timeout` does not
 depend on the fuel (`InvokeMonotone`), so "the program yields r" is well defined (`Yields`)
 and a program that yields nothing is one that diverges.
 */
module IR {

  /** A run-time value: an integer, or the address of a function. */
  datatype Value = Int(i: int) | Pointer(symbol: string)

  /** What the instrumentation observes of a run. */
  datatype Event = Entered(index: nat) | Left(index: nat)

  datatype Instr =
    | Compute(dst: nat, op: nat, args: seq<nat>)
    | AddressOf(dst: nat, symbol: string)
    | Load(dst: nat, address: nat)
    | Store(address: nat, value: nat)
    | Call(dst: nat, callee: string, args: seq<nat>)
    | CallPointer(dst: nat, pointer: nat, args: seq<nat>)
    | LoadCell(dst: nat, cell: string)   // loads the function pointer kept in a trampoline global
    | Callback(event: Event)             // calls mull_enterFunction or mull_leaveFunction

  datatype Terminator =
    | Return(value: nat)
    | Jump(target: nat)
    | Branch(condition: nat, ifTrue: nat, ifFalse: nat)

  datatype Block = Block(body: seq<Instr>, terminator: Terminator)

  /** A function without blocks is a declaration. */
  datatype Function = Function(params: nat, blocks: seq<Block>)

  type Registers = map<nat, Value>
  type Memory = map<int, Value>
  type Module = map<string, Function>
  type Cells = map<string, string>

  /** Everything a run depends on. `operations` gives the arithmetic of `Compute`; `traced`
      numbers the functions whose calls and returns the interpreter itself records. */
  datatype Machine = Machine(
    functions: Module,
    cells: Cells,
    operations: (nat, seq<Value>) -> int,
    traced: map<string, nat>)

  datatype Outcome =
    | Timeout
    | Trap(log: seq<Event>)
    | Done(value: Value, memory: Memory, log: seq<Event>)

  function Read(registers: Registers, r: nat): Value {
    if r in registers then registers[r] else Int(0)
  }

  function ReadAll(registers: Registers, rs: seq<nat>): (values: seq<Value>)
    ensures |values| == |rs|
    ensures forall k :: 0 <= k < |rs| ==> values[k] == Read(registers, rs[k])
  {
    seq(|rs|, k requires 0 <= k < |rs| => Read(registers, rs[k]))
  }

  function ParameterRegisters(args: seq<Value>): Registers {
    map k: nat | k < |args| :: args[k]
  }

  predicate IsCall(instr: Instr) {
    instr.Call? || instr.CallPointer?
  }

  /** The symbol a call goes to, if there is one. */
  function Callee(instr: Instr, registers: Registers): (symbol: seq<string>)
    requires IsCall(instr)
    ensures |symbol| <= 1
  {
    match instr
    case Call(_, callee, _) => [callee]
    case CallPointer(_, pointer, _) =>
      match Read(registers, pointer)
      case Pointer(symbol) => [symbol]
      case Int(_) => []
  }

  datatype Local = Stuck | Local(registers: Registers, memory: Memory)

  /** The effect of an instruction that neither calls nor reports. */
  function Step(m: Machine, instr: Instr, registers: Registers, memory: Memory): Local
    requires !IsCall(instr) && !instr.Callback?
  {
    match instr
    case Compute(dst, op, args) =>
      Local(registers[dst := Int(m.operations(op, ReadAll(registers, args)))], memory)
    case AddressOf(dst, symbol) => Local(registers[dst := Pointer(symbol)], memory)
    case Load(dst, address) =>
      var a := Read(registers, address);
      if a.Int? && a.i in memory then Local(registers[dst := memory[a.i]], memory) else Stuck
    case Store(address, value) =>
      var a := Read(registers, address);
      if a.Int? then Local(registers, memory[a.i := Read(registers, value)]) else Stuck
    case LoadCell(dst, cell) =>
      if cell in m.cells then Local(registers[dst := Pointer(m.cells[cell])], memory) else Stuck
  }

  function Target(t: Terminator, registers: Registers): nat
    requires !t.Return?
  {
    match t
    case Jump(target) => target
    case Branch(condition, ifTrue, ifFalse) =>
      if Read(registers, condition) != Int(0) then ifTrue else ifFalse
  }

  function Prepend(log: seq<Event>, r: Outcome): Outcome {
    match r
    case Timeout => Timeout
    case Trap(rest) => Trap(log + rest)
    case Done(value, memory, rest) => Done(value, memory, log + rest)
  }

  function Append(r: Outcome, log: seq<Event>): Outcome {
    match r
    case Timeout => Timeout
    case Trap(rest) => Trap(rest)
    case Done(value, memory, rest) => Done(value, memory, rest + log)
  }

  /** The events of a call to the function numbered `index` around those of its body. */
  function Bracket(index: nat, r: Outcome): Outcome {
    Prepend([Entered(index)], Append(r, [Left(index)]))
  }

  predicate Callable(m: Machine, name: string, args: seq<Value>) {
    name in m.functions && m.functions[name].blocks != [] && |args| == m.functions[name].params
  }

  function Invoke(m: Machine, name: string, args: seq<Value>, memory: Memory, fuel: nat): Outcome
    decreases fuel, 1
  {
    if !Callable(m, name, args) then Trap([])
    else
      var r := Execute(m, m.functions[name].blocks, 0, 0, ParameterRegisters(args), memory, fuel);
      if name in m.traced then Bracket(m.traced[name], r) else r
  }

  /** Runs `blocks` from instruction `i` of block `b` to the next return. */
  function Execute(m: Machine, blocks: seq<Block>, b: nat, i: nat,
                   registers: Registers, memory: Memory, fuel: nat): Outcome
    decreases fuel, 0
  {
    if fuel == 0 then Timeout
    else if b >= |blocks| then Trap([])
    else if i >= |blocks[b].body| then
      match blocks[b].terminator
      case Return(value) => Done(Read(registers, value), memory, [])
      case t => Execute(m, blocks, Target(t, registers), 0, registers, memory, fuel - 1)
    else
      var instr := blocks[b].body[i];
      if instr.Callback? then
        Prepend([instr.event], Execute(m, blocks, b, i + 1, registers, memory, fuel - 1))
      else if IsCall(instr) then
        var callee := Callee(instr, registers);
        if callee == [] then Trap([])
        else Resume(Invoke(m, callee[0], ReadAll(registers, instr.args), memory, fuel - 1),
                    m, blocks, b, i, registers, fuel - 1)
      else
        match Step(m, instr, registers, memory)
        case Stuck => Trap([])
        case Local(registers', memory') => Execute(m, blocks, b, i + 1, registers', memory', fuel - 1)
  }

  /** Continues after the call at instruction `i` of block `b` came back with `r`. */
  function Resume(r: Outcome, m: Machine, blocks: seq<Block>, b: nat, i: nat,
                  registers: Registers, fuel: nat): Outcome
    requires b < |blocks| && i < |blocks[b].body| && IsCall(blocks[b].body[i])
    decreases fuel, 1
  {
    if r.Done? then
      Prepend(r.log, Execute(m, blocks, b, i + 1, registers[blocks[b].body[i].dst := r.value], r.memory, fuel))
    else r
  }

  // ---- One step --------------------------------------------------------------------------------

  lemma ExecuteLocal(m: Machine, blocks: seq<Block>, b: nat, i: nat, registers: Registers, memory: Memory, fuel: nat)
    requires fuel > 0 && b < |blocks| && i < |blocks[b].body| && !IsCall(blocks[b].body[i])
    ensures Execute(m, blocks, b, i, registers, memory, fuel)
         == if blocks[b].body[i].Callback?
            then Prepend([blocks[b].body[i].event], Execute(m, blocks, b, i + 1, registers, memory, fuel - 1))
            else match Step(m, blocks[b].body[i], registers, memory)
                 case Stuck => Trap([])
                 case Local(registers', memory') => Execute(m, blocks, b, i + 1, registers', memory', fuel - 1)
  {
  }

  lemma ExecuteCall(m: Machine, blocks: seq<Block>, b: nat, i: nat, registers: Registers, memory: Memory, fuel: nat)
    requires fuel > 0 && b < |blocks| && i < |blocks[b].body| && IsCall(blocks[b].body[i])
    ensures var callee := Callee(blocks[b].body[i], registers);
      Execute(m, blocks, b, i, registers, memory, fuel)
      == if callee == [] then Trap([])
         else
           var r := Invoke(m, callee[0], ReadAll(registers, blocks[b].body[i].args), memory, fuel - 1);
           if r.Done? then
             Prepend(r.log, Execute(m, blocks, b, i + 1, registers[blocks[b].body[i].dst := r.value], r.memory,
                                    fuel - 1))
           else r
  {
  }

  // ---- Outcomes do not depend on the fuel --------------------------------------------------

  lemma {:induction false} ExecuteMonotone(m: Machine, blocks: seq<Block>, b: nat, i: nat,
                                           registers: Registers, memory: Memory, fuel: nat, more: nat)
    requires fuel <= more
    requires Execute(m, blocks, b, i, registers, memory, fuel) != Timeout
    ensures Execute(m, blocks, b, i, registers, memory, more) == Execute(m, blocks, b, i, registers, memory, fuel)
    decreases fuel, 0
  {
    if b < |blocks| {
      if i >= |blocks[b].body| {
        var t := blocks[b].terminator;
        if !t.Return? {
          ExecuteMonotone(m, blocks, Target(t, registers), 0, registers, memory, fuel - 1, more - 1);
        }
      } else {
        var instr := blocks[b].body[i];
        if instr.Callback? {
          ExecuteMonotone(m, blocks, b, i + 1, registers, memory, fuel - 1, more - 1);
        } else if IsCall(instr) {
          var callee := Callee(instr, registers);
          if callee != [] {
            var args := ReadAll(registers, instr.args);
            InvokeMonotone(m, callee[0], args, memory, fuel - 1, more - 1);
            var r := Invoke(m, callee[0], args, memory, fuel - 1);
            if r.Done? {
              ExecuteMonotone(m, blocks, b, i + 1, registers[instr.dst := r.value], r.memory, fuel - 1, more - 1);
            }
          }
        } else {
          var s := Step(m, instr, registers, memory);
          if s.Local? {
            ExecuteMonotone(m, blocks, b, i + 1, s.registers, s.memory, fuel - 1, more - 1);
          }
        }
      }
    }
  }

  lemma {:induction false} InvokeMonotone(m: Machine, name: string, args: seq<Value>, memory: Memory,
                                          fuel: nat, more: nat)
    requires fuel <= more
    requires Invoke(m, name, args, memory, fuel) != Timeout
    ensures Invoke(m, name, args, memory, more) == Invoke(m, name, args, memory, fuel)
    decreases fuel, 1
  {
    if Callable(m, name, args) {
      ExecuteMonotone(m, m.functions[name].blocks, 0, 0, ParameterRegisters(args), memory, fuel, more);
    }
  }

  /** Calling `name` comes to an end with `r`. */
  ghost predicate Yields(m: Machine, name: string, args: seq<Value>, memory: Memory, r: Outcome) {
    r != Timeout && exists fuel: nat :: Invoke(m, name, args, memory, fuel) == r
  }

  // ---- Linking -------------------------------------------------------------------------------

  /** `whole` is what the linker makes of the parts. */
  ghost predicate Links(whole: Module, parts: map<string, Module>) {
    && (forall f :: f in whole ==> exists id :: id in parts && f in parts[id])
    && (forall id, f :: id in parts && f in parts[id] ==> f in whole && whole[f] == parts[id][f])
  }

  lemma LinksUnique(whole: Module, whole': Module, parts: map<string, Module>)
    requires Links(whole, parts) && Links(whole', parts)
    ensures whole == whole'
  {
    assert whole.Keys == whole'.Keys;
  }
}
