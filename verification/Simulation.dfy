/**
 The heart of mutant schemata: a program whose functions are stubs that jump through
 trampoline cells behaves as the program whose functions hold the bodies the cells select.
 */
module Simulation {
  import opened IR

  /** The body left in a redirected function: load the cell, call what it points to, return. */
  function Stub(params: nat, cell: string): Function {
    Function(params, [Block([LoadCell(params, cell), CallPointer(params + 1, params, seq(params, k => k))],
                            Return(params + 1))])
  }

  predicate CleanValue(hidden: set<string>, v: Value) {
    v.Pointer? ==> v.symbol !in hidden
  }

  ghost predicate CleanArgs(hidden: set<string>, args: seq<Value>) {
    forall k :: 0 <= k < |args| ==> CleanValue(hidden, args[k])
  }

  ghost predicate CleanRegisters(hidden: set<string>, registers: Registers) {
    forall r :: r in registers ==> CleanValue(hidden, registers[r])
  }

  ghost predicate CleanMemory(hidden: set<string>, memory: Memory) {
    forall a :: a in memory ==> CleanValue(hidden, memory[a])
  }

  ghost predicate CleanOutcome(hidden: set<string>, r: Outcome) {
    r.Done? ==> CleanValue(hidden, r.value) && CleanMemory(hidden, r.memory)
  }

  predicate CleanInstr(hidden: set<string>, instr: Instr) {
    match instr
    case AddressOf(_, symbol) => symbol !in hidden
    case Call(_, callee, _) => callee !in hidden
    case LoadCell(_, _) => false
    case _ => true
  }

  /** Code that mentions no hidden symbol and no trampoline. */
  ghost predicate CleanBlocks(hidden: set<string>, blocks: seq<Block>) {
    forall b, i :: 0 <= b < |blocks| && 0 <= i < |blocks[b].body| ==> CleanInstr(hidden, blocks[b].body[i])
  }

  /** `t` is `s` with every function f in `cellOf` replaced by a stub through the cell
      `cellOf[f]`, which points to a hidden copy of f's body. */
  ghost predicate Redirects(t: Machine, s: Machine, hidden: set<string>, cellOf: map<string, string>) {
    && t.operations == s.operations && t.traced == s.traced
    && s.functions.Keys !! hidden && s.traced.Keys !! hidden
    && t.functions.Keys == s.functions.Keys + hidden
    && (forall f :: f in s.functions ==> CleanBlocks(hidden, s.functions[f].blocks))
    && (forall f :: f in s.functions && f !in cellOf ==> t.functions[f] == s.functions[f])
    && (forall f :: f in s.functions && f in cellOf ==> Redirected(t, s, hidden, f, cellOf[f]))
  }

  ghost predicate Redirected(t: Machine, s: Machine, hidden: set<string>, f: string, cell: string)
    requires f in s.functions && f in t.functions && hidden <= t.functions.Keys
  {
    && s.functions[f].blocks != []
    && t.functions[f] == Stub(s.functions[f].params, cell)
    && cell in t.cells && t.cells[cell] in hidden
    && t.functions[t.cells[cell]] == s.functions[f]
  }

  // ---- What a stub does --------------------------------------------------------------------

  lemma StubArgs(params: nat, cell: string, target: string, args: seq<Value>)
    requires |args| == params
    ensures ReadAll(ParameterRegisters(args)[params := Pointer(target)], seq(params, k => k)) == args
  {
  }

  /** A stub spends three units of fuel and otherwise is the body its cell points to. */
  lemma {:induction false} StubInvoke(t: Machine, s: Machine, hidden: set<string>, f: string, cell: string,
                                      args: seq<Value>, memory: Memory, fuel: nat)
    requires hidden <= t.functions.Keys && t.traced.Keys !! hidden && t.traced == s.traced
    requires f in s.functions && f in t.functions && Redirected(t, s, hidden, f, cell)
    requires |args| == s.functions[f].params
    ensures var r := if fuel < 3 then Timeout
                     else Execute(t, s.functions[f].blocks, 0, 0, ParameterRegisters(args), memory, fuel - 2);
            Invoke(t, f, args, memory, fuel) == if f in t.traced then Bracket(t.traced[f], r) else r
  {
    var params := s.functions[f].params;
    var target := t.cells[cell];
    var blocks := t.functions[f].blocks;
    var r0 := ParameterRegisters(args);
    var r1 := r0[params := Pointer(target)];
    if fuel >= 1 {
      assert blocks[0].body[0] == LoadCell(params, cell);
      assert Execute(t, blocks, 0, 0, r0, memory, fuel) == Execute(t, blocks, 0, 1, r1, memory, fuel - 1);
    }
    if fuel >= 2 {
      StubArgs(params, cell, target, args);
      StubCall(t, params, cell, target, args, memory, fuel - 1);
      assert Callable(t, target, args);
    }
  }

  /** The call of the stub, from the instruction after the load of the cell. */
  lemma {:induction false} StubCall(t: Machine, params: nat, cell: string, target: string, args: seq<Value>,
                                    memory: Memory, fuel: nat)
    requires fuel >= 1 && |args| == params && target !in t.traced && Callable(t, target, args)
    ensures var r1 := ParameterRegisters(args)[params := Pointer(target)];
            Execute(t, Stub(params, cell).blocks, 0, 1, r1, memory, fuel)
            == if fuel < 2 then Timeout
               else Execute(t, t.functions[target].blocks, 0, 0, ParameterRegisters(args), memory, fuel - 1)
  {
    var blocks := Stub(params, cell).blocks;
    var r1 := ParameterRegisters(args)[params := Pointer(target)];
    StubArgs(params, cell, target, args);
    var instr := blocks[0].body[1];
    assert instr == CallPointer(params + 1, params, seq(params, k => k));
    assert Callee(instr, r1) == [target];
    var r := Invoke(t, target, args, memory, fuel - 1);
    assert Execute(t, blocks, 0, 1, r1, memory, fuel) == Resume(r, t, blocks, 0, 1, r1, fuel - 1);
    if r.Done? {
      StubReturn(t, params, cell, r1, r, fuel - 1);
    }
  }

  /** The stub hands back what its callee returned. */
  lemma {:induction false} StubReturn(t: Machine, params: nat, cell: string, r1: Registers, r: Outcome, fuel: nat)
    requires r.Done? && fuel >= 1
    ensures Resume(r, t, Stub(params, cell).blocks, 0, 1, r1, fuel) == r
  {
    var blocks := Stub(params, cell).blocks;
    var r2 := r1[params + 1 := r.value];
    assert blocks[0].body[1].dst == params + 1;
    assert Execute(t, blocks, 0, 2, r2, r.memory, fuel) == Done(r.value, r.memory, []);
    assert r.log + [] == r.log;
  }

  // ---- Steps keep hidden symbols out of sight ----------------------------------------------

  lemma StepClean(t: Machine, s: Machine, hidden: set<string>, instr: Instr, registers: Registers, memory: Memory)
    requires t.operations == s.operations
    requires !IsCall(instr) && !instr.Callback? && CleanInstr(hidden, instr)
    requires CleanRegisters(hidden, registers) && CleanMemory(hidden, memory)
    ensures Step(t, instr, registers, memory) == Step(s, instr, registers, memory)
    ensures var r := Step(s, instr, registers, memory);
            r.Local? ==> CleanRegisters(hidden, r.registers) && CleanMemory(hidden, r.memory)
  {
  }

  lemma CalleeClean(hidden: set<string>, instr: Instr, registers: Registers)
    requires IsCall(instr) && CleanInstr(hidden, instr) && CleanRegisters(hidden, registers)
    ensures Callee(instr, registers) != [] ==> Callee(instr, registers)[0] !in hidden
    ensures CleanArgs(hidden, ReadAll(registers, instr.args))
  {
  }

  // ---- Forward: whatever the selected program yields, the redirected one yields -------------

  lemma {:induction false} ExecuteForward(t: Machine, s: Machine, hidden: set<string>, cellOf: map<string, string>,
                                          blocks: seq<Block>, b: nat, i: nat,
                                          registers: Registers, memory: Memory, fuel: nat)
    requires Redirects(t, s, hidden, cellOf) && CleanBlocks(hidden, blocks)
    requires CleanRegisters(hidden, registers) && CleanMemory(hidden, memory)
    requires Execute(s, blocks, b, i, registers, memory, fuel) != Timeout
    ensures Execute(t, blocks, b, i, registers, memory, 3 * fuel) == Execute(s, blocks, b, i, registers, memory, fuel)
    ensures CleanOutcome(hidden, Execute(s, blocks, b, i, registers, memory, fuel))
    decreases fuel, 0
  {
    if b < |blocks| {
      if i >= |blocks[b].body| {
        var terminator := blocks[b].terminator;
        if !terminator.Return? {
          ContinueForward(t, s, hidden, cellOf, blocks, Target(terminator, registers), 0, registers, memory, fuel);
        }
      } else {
        var instr := blocks[b].body[i];
        assert CleanInstr(hidden, instr);
        if instr.Callback? {
          ContinueForward(t, s, hidden, cellOf, blocks, b, i + 1, registers, memory, fuel);
        } else if IsCall(instr) {
          CalleeClean(hidden, instr, registers);
          var callee := Callee(instr, registers);
          if callee != [] {
            var args := ReadAll(registers, instr.args);
            InvokeForward(t, s, hidden, cellOf, callee[0], args, memory, fuel - 1);
            var r := Invoke(s, callee[0], args, memory, fuel - 1);
            if r.Done? {
              ContinueForward(t, s, hidden, cellOf, blocks, b, i + 1, registers[instr.dst := r.value], r.memory, fuel);
            }
          }
        } else {
          StepClean(t, s, hidden, instr, registers, memory);
          var next := Step(s, instr, registers, memory);
          if next.Local? {
            ContinueForward(t, s, hidden, cellOf, blocks, b, i + 1, next.registers, next.memory, fuel);
          }
        }
      }
    }
  }

  /** One step later: the redirected program has fuel to spare. */
  lemma {:induction false} ContinueForward(t: Machine, s: Machine, hidden: set<string>, cellOf: map<string, string>,
                                           blocks: seq<Block>, b: nat, i: nat,
                                           registers: Registers, memory: Memory, fuel: nat)
    requires fuel >= 1
    requires Redirects(t, s, hidden, cellOf) && CleanBlocks(hidden, blocks)
    requires CleanRegisters(hidden, registers) && CleanMemory(hidden, memory)
    requires Execute(s, blocks, b, i, registers, memory, fuel - 1) != Timeout
    ensures Execute(t, blocks, b, i, registers, memory, 3 * fuel - 1)
         == Execute(s, blocks, b, i, registers, memory, fuel - 1)
    ensures CleanOutcome(hidden, Execute(s, blocks, b, i, registers, memory, fuel - 1))
    decreases fuel - 1, 1
  {
    ExecuteForward(t, s, hidden, cellOf, blocks, b, i, registers, memory, fuel - 1);
    ExecuteMonotone(t, blocks, b, i, registers, memory, 3 * (fuel - 1), 3 * fuel - 1);
  }

  lemma {:induction false} InvokeForward(t: Machine, s: Machine, hidden: set<string>, cellOf: map<string, string>,
                                         name: string, args: seq<Value>, memory: Memory, fuel: nat)
    requires Redirects(t, s, hidden, cellOf) && name !in hidden
    requires CleanArgs(hidden, args) && CleanMemory(hidden, memory)
    requires Invoke(s, name, args, memory, fuel) != Timeout
    ensures Invoke(t, name, args, memory, 3 * fuel + 2) == Invoke(s, name, args, memory, fuel)
    ensures CleanOutcome(hidden, Invoke(s, name, args, memory, fuel))
    decreases fuel, 1
  {
    if name in s.functions {
      if name in cellOf {
        assert Redirected(t, s, hidden, name, cellOf[name]);
      }
      if Callable(s, name, args) {
        var blocks := s.functions[name].blocks;
        var r0 := ParameterRegisters(args);
        ExecuteForward(t, s, hidden, cellOf, blocks, 0, 0, r0, memory, fuel);
        if name in cellOf {
          StubInvoke(t, s, hidden, name, cellOf[name], args, memory, 3 * fuel + 2);
        } else {
          ExecuteMonotone(t, blocks, 0, 0, r0, memory, 3 * fuel, 3 * fuel + 2);
        }
      }
    }
  }

  // ---- Backward: whatever the redirected program yields, the selected one yields ------------

  lemma {:induction false} ExecuteBackward(t: Machine, s: Machine, hidden: set<string>, cellOf: map<string, string>,
                                           blocks: seq<Block>, b: nat, i: nat,
                                           registers: Registers, memory: Memory, fuel: nat)
    requires Redirects(t, s, hidden, cellOf) && CleanBlocks(hidden, blocks)
    requires CleanRegisters(hidden, registers) && CleanMemory(hidden, memory)
    requires Execute(t, blocks, b, i, registers, memory, fuel) != Timeout
    ensures Execute(s, blocks, b, i, registers, memory, fuel) == Execute(t, blocks, b, i, registers, memory, fuel)
    ensures CleanOutcome(hidden, Execute(s, blocks, b, i, registers, memory, fuel))
    decreases fuel, 0
  {
    if b < |blocks| {
      if i >= |blocks[b].body| {
        var terminator := blocks[b].terminator;
        if !terminator.Return? {
          ExecuteBackward(t, s, hidden, cellOf, blocks, Target(terminator, registers), 0, registers, memory, fuel - 1);
        }
      } else {
        var instr := blocks[b].body[i];
        assert CleanInstr(hidden, instr);
        if instr.Callback? {
          ExecuteBackward(t, s, hidden, cellOf, blocks, b, i + 1, registers, memory, fuel - 1);
        } else if IsCall(instr) {
          CalleeClean(hidden, instr, registers);
          var callee := Callee(instr, registers);
          if callee != [] {
            var args := ReadAll(registers, instr.args);
            InvokeBackward(t, s, hidden, cellOf, callee[0], args, memory, fuel - 1);
            var r := Invoke(t, callee[0], args, memory, fuel - 1);
            if r.Done? {
              ExecuteBackward(t, s, hidden, cellOf, blocks, b, i + 1, registers[instr.dst := r.value], r.memory,
                              fuel - 1);
            }
          }
        } else {
          StepClean(t, s, hidden, instr, registers, memory);
          var next := Step(t, instr, registers, memory);
          if next.Local? {
            ExecuteBackward(t, s, hidden, cellOf, blocks, b, i + 1, next.registers, next.memory, fuel - 1);
          }
        }
      }
    }
  }

  lemma {:induction false} InvokeBackward(t: Machine, s: Machine, hidden: set<string>, cellOf: map<string, string>,
                                          name: string, args: seq<Value>, memory: Memory, fuel: nat)
    requires Redirects(t, s, hidden, cellOf) && name !in hidden
    requires CleanArgs(hidden, args) && CleanMemory(hidden, memory)
    requires Invoke(t, name, args, memory, fuel) != Timeout
    ensures Invoke(s, name, args, memory, fuel) == Invoke(t, name, args, memory, fuel)
    ensures CleanOutcome(hidden, Invoke(s, name, args, memory, fuel))
    decreases fuel, 1
  {
    if name in s.functions {
      if name in cellOf {
        assert Redirected(t, s, hidden, name, cellOf[name]);
      }
      if Callable(s, name, args) {
        var blocks := s.functions[name].blocks;
        var r0 := ParameterRegisters(args);
        if name in cellOf {
          StubInvoke(t, s, hidden, name, cellOf[name], args, memory, fuel);
          ExecuteBackward(t, s, hidden, cellOf, blocks, 0, 0, r0, memory, fuel - 2);
          ExecuteMonotone(s, blocks, 0, 0, r0, memory, fuel - 2, fuel);
        } else {
          ExecuteBackward(t, s, hidden, cellOf, blocks, 0, 0, r0, memory, fuel);
        }
      }
    }
  }

  /** The two programs yield exactly the same outcomes: results, memory, call log, traps, and
      (having no outcome in common) divergence. */
  lemma {:induction false} RedirectionPreservesMeaning(
      t: Machine, s: Machine, hidden: set<string>, cellOf: map<string, string>,
      name: string, args: seq<Value>, memory: Memory, r: Outcome)
    requires Redirects(t, s, hidden, cellOf) && name !in hidden
    requires CleanArgs(hidden, args) && CleanMemory(hidden, memory)
    ensures Yields(t, name, args, memory, r) <==> Yields(s, name, args, memory, r)
  {
    if Yields(s, name, args, memory, r) {
      var n: nat :| Invoke(s, name, args, memory, n) == r;
      InvokeForward(t, s, hidden, cellOf, name, args, memory, n);
    }
    if Yields(t, name, args, memory, r) {
      var n: nat :| Invoke(t, name, args, memory, n) == r;
      InvokeBackward(t, s, hidden, cellOf, name, args, memory, n);
    }
  }
}
