/**
 Instrumentation: every defined function reports when it is entered and, before each return,
 that it is left. The reports of an instrumented program are exactly the calls and returns that
 the interpreter sees in the original one, and nothing else about the run changes.
 */
module Callbacks {
  import opened IR

  function EnterCallback(b: nat, index: nat): seq<Instr> {
    if b == 0 then [Callback(Entered(index))] else []
  }

  function LeaveCallback(t: Terminator, index: nat): seq<Instr> {
    if t.Return? then [Callback(Left(index))] else []
  }

  function InstrumentBlock(block: Block, b: nat, index: nat): Block {
    block.(body := EnterCallback(b, index) + block.body + LeaveCallback(block.terminator, index))
  }

  function InstrumentBlocks(blocks: seq<Block>, index: nat): (instrumented: seq<Block>)
    ensures |instrumented| == |blocks|
    ensures forall b :: 0 <= b < |blocks| ==> instrumented[b] == InstrumentBlock(blocks[b], b, index)
  {
    seq(|blocks|, b requires 0 <= b < |blocks| => InstrumentBlock(blocks[b], b, index))
  }

  /** Inserts the callbacks into a defined function: entry first, then every returning block. */
  method InjectCallbacks(f: Function, index: nat) returns (instrumented: Function)
    requires f.blocks != []
    ensures instrumented == f.(blocks := InstrumentBlocks(f.blocks, index))
  {
    var blocks := f.blocks;
    blocks := blocks[0 := blocks[0].(body := [Callback(Entered(index))] + blocks[0].body)];
    for b := 0 to |blocks|
      invariant |blocks| == |f.blocks|
      invariant forall j :: 0 <= j < b ==> blocks[j] == InstrumentBlock(f.blocks[j], j, index)
      invariant forall j :: b <= j < |blocks| ==>
        blocks[j] == f.blocks[j].(body := EnterCallback(j, index) + f.blocks[j].body)
    {
      if blocks[b].terminator.Return? {
        blocks := blocks[b := blocks[b].(body := blocks[b].body + [Callback(Left(index))])];
      }
    }
    assert blocks == InstrumentBlocks(f.blocks, index);
    instrumented := f.(blocks := blocks);
  }

  // ---- Instrumented programs report their true calls ---------------------------------------

  /** The entry block of a function has no predecessors. */
  predicate EntryNotTargeted(blocks: seq<Block>) {
    forall b :: 0 <= b < |blocks| ==>
      match blocks[b].terminator
      case Return(_) => true
      case Jump(target) => target != 0
      case Branch(_, ifTrue, ifFalse) => ifTrue != 0 && ifFalse != 0
  }

  function Defined(functions: Module): set<string> {
    set f | f in functions && functions[f].blocks != []
  }

  /** `t` is `s` with callbacks in every defined function, numbered as `s` numbers them. */
  ghost predicate Instruments(t: Machine, s: Machine) {
    && t.operations == s.operations && t.cells == s.cells && t.traced == map[]
    && t.functions.Keys == s.functions.Keys
    && s.traced.Keys == Defined(s.functions)
    && forall f :: f in s.functions ==>
         && EntryNotTargeted(s.functions[f].blocks)
         && t.functions[f] == (if f in s.traced
                               then s.functions[f].(blocks := InstrumentBlocks(s.functions[f].blocks, s.traced[f]))
                               else s.functions[f])
  }

  /** Where instruction `i` of block `b` went. */
  function Shift(b: nat, i: nat): nat {
    if b == 0 then i + 1 else i
  }

  /** `blocks'` is `blocks` with callbacks: each instruction shifted, one report at the entry and
      one before each return. */
  ghost predicate Reports(blocks': seq<Block>, blocks: seq<Block>, index: nat) {
    && |blocks'| == |blocks|
    && (blocks != [] ==> blocks'[0].body != [] && blocks'[0].body[0] == Callback(Entered(index)))
    && forall b :: 0 <= b < |blocks| ==>
         && blocks'[b].terminator == blocks[b].terminator
         && |blocks'[b].body| == Shift(b, |blocks[b].body|) + (if blocks[b].terminator.Return? then 1 else 0)
         && (forall i :: 0 <= i < |blocks[b].body| ==> blocks'[b].body[Shift(b, i)] == blocks[b].body[i])
         && (blocks[b].terminator.Return? ==>
               blocks'[b].body[Shift(b, |blocks[b].body|)] == Callback(Left(index)))
  }

  lemma InstrumentedReports(blocks: seq<Block>, index: nat)
    ensures Reports(InstrumentBlocks(blocks, index), blocks, index)
  {
  }

  lemma {:induction false} EndOfBlock(t: Machine, blocks': seq<Block>, blocks: seq<Block>, index: nat, b: nat,
                                      registers: Registers, memory: Memory, fuel: nat)
    requires Reports(blocks', blocks, index) && b < |blocks| && blocks[b].terminator.Return?
    ensures Execute(t, blocks', b, Shift(b, |blocks[b].body|), registers, memory, fuel)
         == if fuel < 2 then Timeout else Done(Read(registers, blocks[b].terminator.value), memory, [Left(index)])
  {
    var i := Shift(b, |blocks[b].body|);
    if fuel >= 2 {
      assert Execute(t, blocks', b, i + 1, registers, memory, fuel - 1)
          == Done(Read(registers, blocks[b].terminator.value), memory, []);
      assert [Left(index)] + [] == [Left(index)];
    }
  }

  lemma AppendPrepend(log: seq<Event>, r: Outcome, end: seq<Event>)
    ensures Append(Prepend(log, r), end) == Prepend(log, Append(r, end))
  {
    if r.Done? {
      assert (log + r.log) + end == log + (r.log + end);
    }
  }

  /** An instruction of the original is found one later in the entry block, and works the same. */
  lemma SameInstruction(t: Machine, s: Machine, blocks': seq<Block>, blocks: seq<Block>, index: nat, b: nat, i: nat)
    requires Instruments(t, s) && Reports(blocks', blocks, index) && b < |blocks| && i < |blocks[b].body|
    ensures |blocks'| == |blocks| && Shift(b, i) < |blocks'[b].body|
    ensures blocks'[b].body[Shift(b, i)] == blocks[b].body[i]
    ensures t.operations == s.operations && t.cells == s.cells
  {
  }

  lemma {:induction false} ExecuteForward(t: Machine, s: Machine, blocks': seq<Block>, blocks: seq<Block>, index: nat,
      b: nat, i: nat, registers: Registers, memory: Memory, fuel: nat)
    requires Instruments(t, s) && EntryNotTargeted(blocks) && Reports(blocks', blocks, index)
    requires b < |blocks| ==> i <= |blocks[b].body|
    requires Execute(s, blocks, b, i, registers, memory, fuel) != Timeout
    ensures Execute(t, blocks', b, Shift(b, i), registers, memory, 2 * fuel)
         == Append(Execute(s, blocks, b, i, registers, memory, fuel), [Left(index)])
    decreases fuel, 0
  {
    hide Instruments;
    assert |blocks'| == |blocks|;
    if b < |blocks| {
      if i == |blocks[b].body| {
        EndForward(t, s, blocks', blocks, index, b, registers, memory, fuel);
      } else if IsCall(blocks[b].body[i]) {
        CallForward(t, s, blocks', blocks, index, b, i, registers, memory, fuel);
      } else {
        StepForward(t, s, blocks', blocks, index, b, i, registers, memory, fuel);
      }
    }
  }

  /** The end of a block. */
  lemma {:induction false} EndForward(t: Machine, s: Machine, blocks': seq<Block>, blocks: seq<Block>, index: nat,
      b: nat, registers: Registers, memory: Memory, fuel: nat)
    requires fuel >= 1 && Instruments(t, s) && EntryNotTargeted(blocks) && Reports(blocks', blocks, index)
    requires b < |blocks|
    requires Execute(s, blocks, b, |blocks[b].body|, registers, memory, fuel) != Timeout
    ensures Execute(t, blocks', b, Shift(b, |blocks[b].body|), registers, memory, 2 * fuel)
         == Append(Execute(s, blocks, b, |blocks[b].body|, registers, memory, fuel), [Left(index)])
    decreases fuel - 1, 3
  {
    hide Instruments;
    var terminator := blocks[b].terminator;
    if terminator.Return? {
      EndOfBlock(t, blocks', blocks, index, b, registers, memory, 2 * fuel);
    } else {
      ContinueForward(t, s, blocks', blocks, index, Target(terminator, registers), 0, registers, memory, fuel);
    }
  }

  /** The step is a report or local. */
  lemma {:induction false} StepForward(t: Machine, s: Machine, blocks': seq<Block>, blocks: seq<Block>, index: nat,
      b: nat, i: nat, registers: Registers, memory: Memory, fuel: nat)
    requires fuel >= 1 && Instruments(t, s) && EntryNotTargeted(blocks) && Reports(blocks', blocks, index)
    requires b < |blocks| && i < |blocks[b].body| && !IsCall(blocks[b].body[i])
    requires Execute(s, blocks, b, i, registers, memory, fuel) != Timeout
    ensures Execute(t, blocks', b, Shift(b, i), registers, memory, 2 * fuel)
         == Append(Execute(s, blocks, b, i, registers, memory, fuel), [Left(index)])
    decreases fuel - 1, 3
  {
    hide Instruments, Reports, EntryNotTargeted, Execute, Invoke, Resume;
    var instr := blocks[b].body[i];
    SameInstruction(t, s, blocks', blocks, index, b, i);
    ExecuteLocal(s, blocks, b, i, registers, memory, fuel);
    ExecuteLocal(t, blocks', b, Shift(b, i), registers, memory, 2 * fuel);
    if instr.Callback? {
      ContinueForward(t, s, blocks', blocks, index, b, i + 1, registers, memory, fuel);
      AppendPrepend([instr.event], Execute(s, blocks, b, i + 1, registers, memory, fuel - 1), [Left(index)]);
    } else {
      var next := Step(s, instr, registers, memory);
      assert Step(t, instr, registers, memory) == next;
      if next.Local? {
        ContinueForward(t, s, blocks', blocks, index, b, i + 1, next.registers, next.memory, fuel);
      }
    }
  }

  /** The step is a call. */
  lemma {:induction false} CallForward(t: Machine, s: Machine, blocks': seq<Block>, blocks: seq<Block>, index: nat,
      b: nat, i: nat, registers: Registers, memory: Memory, fuel: nat)
    requires fuel >= 1 && Instruments(t, s) && EntryNotTargeted(blocks) && Reports(blocks', blocks, index)
    requires b < |blocks| && i < |blocks[b].body| && IsCall(blocks[b].body[i])
    requires Execute(s, blocks, b, i, registers, memory, fuel) != Timeout
    ensures Execute(t, blocks', b, Shift(b, i), registers, memory, 2 * fuel)
         == Append(Execute(s, blocks, b, i, registers, memory, fuel), [Left(index)])
    decreases fuel - 1, 3
  {
    hide Instruments, Reports, EntryNotTargeted, Execute, Invoke, Resume, Step, Callee, ReadAll, Read;
    SameInstruction(t, s, blocks', blocks, index, b, i);
    ExecuteCall(s, blocks, b, i, registers, memory, fuel);
    ExecuteCall(t, blocks', b, Shift(b, i), registers, memory, 2 * fuel);
    var instr := blocks[b].body[i];
    var callee := Callee(instr, registers);
    if callee != [] {
      var args := ReadAll(registers, instr.args);
      var r := Invoke(s, callee[0], args, memory, fuel - 1);
      InvokeForward(t, s, callee[0], args, memory, fuel - 1);
      if r.Done? {
        var registers' := registers[instr.dst := r.value];
        ContinueForward(t, s, blocks', blocks, index, b, i + 1, registers', r.memory, fuel);
        AppendPrepend(r.log, Execute(s, blocks, b, i + 1, registers', r.memory, fuel - 1), [Left(index)]);
      }
    }
  }

  /** One step later: the instrumented program has fuel to spare. */
  lemma {:induction false} ContinueForward(t: Machine, s: Machine, blocks': seq<Block>, blocks: seq<Block>, index: nat,
      b: nat, i: nat, registers: Registers, memory: Memory, fuel: nat)
    requires fuel >= 1 && Instruments(t, s) && EntryNotTargeted(blocks) && Reports(blocks', blocks, index)
    requires b < |blocks| ==> i <= |blocks[b].body|
    requires Execute(s, blocks, b, i, registers, memory, fuel - 1) != Timeout
    ensures Execute(t, blocks', b, Shift(b, i), registers, memory, 2 * fuel - 1)
         == Append(Execute(s, blocks, b, i, registers, memory, fuel - 1), [Left(index)])
    decreases fuel - 1, 1
  {
    ExecuteForward(t, s, blocks', blocks, index, b, i, registers, memory, fuel - 1);
    ExecuteMonotone(t, blocks', b, Shift(b, i), registers, memory, 2 * (fuel - 1), 2 * fuel - 1);
  }

  lemma {:induction false} InvokeForward(t: Machine, s: Machine, name: string, args: seq<Value>, memory: Memory,
                                         fuel: nat)
    requires Instruments(t, s)
    requires Invoke(s, name, args, memory, fuel) != Timeout
    ensures Invoke(t, name, args, memory, 2 * fuel + 1) == Invoke(s, name, args, memory, fuel)
    decreases fuel, 1
  {
    if Callable(s, name, args) {
      var blocks := s.functions[name].blocks;
      var index := s.traced[name];
      InstrumentedReports(blocks, index);
      ExecuteForward(t, s, InstrumentBlocks(blocks, index), blocks, index, 0, 0, ParameterRegisters(args), memory,
                     fuel);
    }
  }

  lemma {:induction false} ExecuteBackward(t: Machine, s: Machine, blocks': seq<Block>, blocks: seq<Block>, index: nat,
      b: nat, i: nat, registers: Registers, memory: Memory, fuel: nat)
    requires Instruments(t, s) && EntryNotTargeted(blocks) && Reports(blocks', blocks, index)
    requires b < |blocks| ==> i <= |blocks[b].body|
    requires Execute(t, blocks', b, Shift(b, i), registers, memory, fuel) != Timeout
    ensures Execute(s, blocks, b, i, registers, memory, fuel) != Timeout
    ensures Execute(t, blocks', b, Shift(b, i), registers, memory, fuel)
         == Append(Execute(s, blocks, b, i, registers, memory, fuel), [Left(index)])
    decreases fuel, 0
  {
    hide Instruments;
    assert |blocks'| == |blocks|;
    if b < |blocks| {
      if i == |blocks[b].body| {
        EndBackward(t, s, blocks', blocks, index, b, registers, memory, fuel);
      } else if IsCall(blocks[b].body[i]) {
        CallBackward(t, s, blocks', blocks, index, b, i, registers, memory, fuel);
      } else {
        StepBackward(t, s, blocks', blocks, index, b, i, registers, memory, fuel);
      }
    }
  }

  /** The end of a block. */
  lemma {:induction false} EndBackward(t: Machine, s: Machine, blocks': seq<Block>, blocks: seq<Block>, index: nat,
      b: nat, registers: Registers, memory: Memory, fuel: nat)
    requires fuel >= 1 && Instruments(t, s) && EntryNotTargeted(blocks) && Reports(blocks', blocks, index)
    requires b < |blocks|
    requires Execute(t, blocks', b, Shift(b, |blocks[b].body|), registers, memory, fuel) != Timeout
    ensures Execute(s, blocks, b, |blocks[b].body|, registers, memory, fuel) != Timeout
    ensures Execute(t, blocks', b, Shift(b, |blocks[b].body|), registers, memory, fuel)
         == Append(Execute(s, blocks, b, |blocks[b].body|, registers, memory, fuel), [Left(index)])
    decreases fuel - 1, 3
  {
    hide Instruments;
    var terminator := blocks[b].terminator;
    if terminator.Return? {
      EndOfBlock(t, blocks', blocks, index, b, registers, memory, fuel);
    } else {
      ExecuteBackward(t, s, blocks', blocks, index, Target(terminator, registers), 0, registers, memory, fuel - 1);
    }
  }

  /** The step is a report or local. */
  lemma {:induction false} StepBackward(t: Machine, s: Machine, blocks': seq<Block>, blocks: seq<Block>, index: nat,
      b: nat, i: nat, registers: Registers, memory: Memory, fuel: nat)
    requires fuel >= 1 && Instruments(t, s) && EntryNotTargeted(blocks) && Reports(blocks', blocks, index)
    requires b < |blocks| && i < |blocks[b].body| && !IsCall(blocks[b].body[i])
    requires Execute(t, blocks', b, Shift(b, i), registers, memory, fuel) != Timeout
    ensures Execute(s, blocks, b, i, registers, memory, fuel) != Timeout
    ensures Execute(t, blocks', b, Shift(b, i), registers, memory, fuel)
         == Append(Execute(s, blocks, b, i, registers, memory, fuel), [Left(index)])
    decreases fuel - 1, 3
  {
    hide Instruments, Reports, EntryNotTargeted, Execute, Invoke, Resume;
    var instr := blocks[b].body[i];
    SameInstruction(t, s, blocks', blocks, index, b, i);
    ExecuteLocal(s, blocks, b, i, registers, memory, fuel);
    ExecuteLocal(t, blocks', b, Shift(b, i), registers, memory, fuel);
    if instr.Callback? {
      ExecuteBackward(t, s, blocks', blocks, index, b, i + 1, registers, memory, fuel - 1);
      AppendPrepend([instr.event], Execute(s, blocks, b, i + 1, registers, memory, fuel - 1), [Left(index)]);
    } else {
      var next := Step(s, instr, registers, memory);
      assert Step(t, instr, registers, memory) == next;
      if next.Local? {
        ExecuteBackward(t, s, blocks', blocks, index, b, i + 1, next.registers, next.memory, fuel - 1);
      }
    }
  }

  /** The step is a call. */
  lemma {:induction false} CallBackward(t: Machine, s: Machine, blocks': seq<Block>, blocks: seq<Block>, index: nat,
      b: nat, i: nat, registers: Registers, memory: Memory, fuel: nat)
    requires fuel >= 1 && Instruments(t, s) && EntryNotTargeted(blocks) && Reports(blocks', blocks, index)
    requires b < |blocks| && i < |blocks[b].body| && IsCall(blocks[b].body[i])
    requires Execute(t, blocks', b, Shift(b, i), registers, memory, fuel) != Timeout
    ensures Execute(s, blocks, b, i, registers, memory, fuel) != Timeout
    ensures Execute(t, blocks', b, Shift(b, i), registers, memory, fuel)
         == Append(Execute(s, blocks, b, i, registers, memory, fuel), [Left(index)])
    decreases fuel - 1, 3
  {
    hide Instruments, Reports, EntryNotTargeted, Execute, Invoke, Resume, Step, Callee, ReadAll, Read;
    SameInstruction(t, s, blocks', blocks, index, b, i);
    ExecuteCall(s, blocks, b, i, registers, memory, fuel);
    ExecuteCall(t, blocks', b, Shift(b, i), registers, memory, fuel);
    var instr := blocks[b].body[i];
    var callee := Callee(instr, registers);
    if callee != [] {
      var args := ReadAll(registers, instr.args);
      var r := Invoke(t, callee[0], args, memory, fuel - 1);
      InvokeBackward(t, s, callee[0], args, memory, fuel - 1);
      if r.Done? {
        var registers' := registers[instr.dst := r.value];
        ExecuteBackward(t, s, blocks', blocks, index, b, i + 1, registers', r.memory, fuel - 1);
        AppendPrepend(r.log, Execute(s, blocks, b, i + 1, registers', r.memory, fuel - 1), [Left(index)]);
      }
    }
  }

  lemma {:induction false} InvokeBackward(t: Machine, s: Machine, name: string, args: seq<Value>, memory: Memory,
                                          fuel: nat)
    requires Instruments(t, s)
    requires Invoke(t, name, args, memory, fuel) != Timeout
    ensures Invoke(s, name, args, memory, fuel) == Invoke(t, name, args, memory, fuel)
    decreases fuel, 1
  {
    if Callable(s, name, args) {
      var blocks := s.functions[name].blocks;
      var index := s.traced[name];
      InstrumentedReports(blocks, index);
      ExecuteBackward(t, s, InstrumentBlocks(blocks, index), blocks, index, 0, 0, ParameterRegisters(args), memory,
                      fuel - 1);
      ExecuteMonotone(s, blocks, 0, 0, ParameterRegisters(args), memory, fuel - 1, fuel);
    }
  }

  /** An instrumented program yields what the original yields, and its callbacks report exactly
      the calls and returns of the original run, whether it returns, traps or diverges. */
  lemma {:induction false} InstrumentationReportsCalls(t: Machine, s: Machine, name: string, args: seq<Value>,
                                                       memory: Memory, r: Outcome)
    requires Instruments(t, s)
    ensures Yields(t, name, args, memory, r) <==> Yields(s, name, args, memory, r)
  {
    if Yields(s, name, args, memory, r) {
      var n: nat :| Invoke(s, name, args, memory, n) == r;
      InvokeForward(t, s, name, args, memory, n);
    }
    if Yields(t, name, args, memory, r) {
      var n: nat :| Invoke(t, name, args, memory, n) == r;
      InvokeBackward(t, s, name, args, memory, n);
    }
  }

  // ---- Reports are bracketed -----------------------------------------------------------------

  /** The calls still open after `log`, or nothing if `log` leaves a function that is not on top. */
  function OpenCalls(stack: seq<nat>, log: seq<Event>): (open: seq<seq<nat>>)
    ensures |open| <= 1
    decreases |log|
  {
    if log == [] then [stack]
    else
      match log[0]
      case Entered(index) => OpenCalls(stack + [index], log[1..])
      case Left(index) =>
        if stack != [] && stack[|stack| - 1] == index then OpenCalls(stack[..|stack| - 1], log[1..]) else []
  }

  /** `log` closes what it opens, and nothing else. */
  ghost predicate Bracketed(log: seq<Event>) {
    forall stack :: OpenCalls(stack, log) == [stack]
  }

  /** `log` leaves exactly the calls `pending` open, on any stack. */
  ghost predicate LeavesOpen(log: seq<Event>, pending: seq<nat>) {
    forall stack :: OpenCalls(stack, log) == [stack + pending]
  }

  lemma {:induction false} OpenCallsAppend(stack: seq<nat>, log: seq<Event>, more: seq<Event>)
    ensures OpenCalls(stack, log + more)
         == if OpenCalls(stack, log) == [] then [] else OpenCalls(OpenCalls(stack, log)[0], more)
    decreases |log|
  {
    if log == [] {
      assert log + more == more;
    } else {
      assert (log + more)[1..] == log[1..] + more;
      match log[0]
      case Entered(index) => OpenCallsAppend(stack + [index], log[1..], more);
      case Left(index) =>
        if stack != [] && stack[|stack| - 1] == index {
          OpenCallsAppend(stack[..|stack| - 1], log[1..], more);
        }
    }
  }

  lemma BracketedAppend(log: seq<Event>, more: seq<Event>)
    requires Bracketed(log)
    ensures Bracketed(more) ==> Bracketed(log + more)
    ensures forall pending :: LeavesOpen(more, pending) ==> LeavesOpen(log + more, pending)
  {
    forall stack: seq<nat> ensures OpenCalls(stack, log + more) == OpenCalls(stack, more) {
      OpenCallsAppend(stack, log, more);
    }
  }

  lemma EmptyBracketed()
    ensures Bracketed([]) && LeavesOpen([], [])
  {
    forall stack: seq<nat> ensures OpenCalls(stack, []) == [stack + []] {
      assert stack + [] == stack;
    }
  }

  lemma CallBracketed(index: nat, log: seq<Event>)
    requires Bracketed(log)
    ensures Bracketed([Entered(index)] + (log + [Left(index)]))
  {
    forall stack: seq<nat> ensures OpenCalls(stack, [Entered(index)] + (log + [Left(index)])) == [stack] {
      var call := [Entered(index)] + (log + [Left(index)]);
      assert call[1..] == log + [Left(index)];
      OpenCallsAppend(stack + [index], log, [Left(index)]);
      assert (stack + [index])[..|stack|] == stack;
      assert OpenCalls(stack + [index], [Left(index)]) == OpenCalls(stack, []);
    }
  }

  lemma CallLeavesOpen(index: nat, log: seq<Event>, pending: seq<nat>)
    requires LeavesOpen(log, pending)
    ensures LeavesOpen([Entered(index)] + log, [index] + pending)
  {
    forall stack: seq<nat> ensures OpenCalls(stack, [Entered(index)] + log) == [stack + ([index] + pending)] {
      assert ([Entered(index)] + log)[1..] == log;
      assert (stack + [index]) + pending == stack + ([index] + pending);
    }
  }

  /** Every event of `log` carries one of the given numbers. */
  predicate Numbered(log: seq<Event>, indices: set<nat>) {
    forall k :: 0 <= k < |log| ==> log[k].index in indices
  }

  /** A run that returns closes all its calls; one that traps leaves `pending` open. */
  ghost predicate WellLogged(r: Outcome, indices: set<nat>, pending: seq<nat>) {
    && (r.Done? ==> Bracketed(r.log) && Numbered(r.log, indices))
    && (r.Trap? ==> LeavesOpen(r.log, pending) && Numbered(r.log, indices))
  }

  lemma PrependWellLogged(log: seq<Event>, r: Outcome, indices: set<nat>, pending: seq<nat>)
    requires Bracketed(log) && Numbered(log, indices) && WellLogged(r, indices, pending)
    ensures WellLogged(Prepend(log, r), indices, pending)
  {
    if !r.Timeout? {
      BracketedAppend(log, r.log);
    }
  }

  /** The traced functions that have been called and have not returned when a call stops. */
  function Pending(m: Machine, name: string, args: seq<Value>, memory: Memory, fuel: nat): seq<nat>
    decreases fuel, 1
  {
    if !Callable(m, name, args) then []
    else
      (if name in m.traced then [m.traced[name]] else [])
      + PendingFrom(m, m.functions[name].blocks, 0, 0, ParameterRegisters(args), memory, fuel)
  }

  function PendingFrom(m: Machine, blocks: seq<Block>, b: nat, i: nat,
                       registers: Registers, memory: Memory, fuel: nat): seq<nat>
    decreases fuel, 0
  {
    if fuel == 0 || b >= |blocks| then []
    else if i >= |blocks[b].body| then
      if blocks[b].terminator.Return? then []
      else PendingFrom(m, blocks, Target(blocks[b].terminator, registers), 0, registers, memory, fuel - 1)
    else
      var instr := blocks[b].body[i];
      if instr.Callback? then PendingFrom(m, blocks, b, i + 1, registers, memory, fuel - 1)
      else if IsCall(instr) then
        var callee := Callee(instr, registers);
        if callee == [] then []
        else
          var args := ReadAll(registers, instr.args);
          match Invoke(m, callee[0], args, memory, fuel - 1)
          case Done(value, memory', _) =>
            PendingFrom(m, blocks, b, i + 1, registers[instr.dst := value], memory', fuel - 1)
          case _ => Pending(m, callee[0], args, memory, fuel - 1)
      else
        match Step(m, instr, registers, memory)
        case Stuck => []
        case Local(registers', memory') => PendingFrom(m, blocks, b, i + 1, registers', memory', fuel - 1)
  }

  /** No callbacks of its own. */
  predicate Unreported(functions: Module) {
    forall f, b, i :: f in functions && 0 <= b < |functions[f].blocks| && 0 <= i < |functions[f].blocks[b].body| ==>
      !functions[f].blocks[b].body[i].Callback?
  }

  lemma {:induction false} ExecuteBracketed(s: Machine, f: string, b: nat, i: nat,
                                            registers: Registers, memory: Memory, fuel: nat)
    requires Unreported(s.functions) && f in s.functions
    ensures WellLogged(Execute(s, s.functions[f].blocks, b, i, registers, memory, fuel), s.traced.Values,
                       PendingFrom(s, s.functions[f].blocks, b, i, registers, memory, fuel))
    decreases fuel, 0
  {
    hide Bracketed, LeavesOpen, Pending, Invoke;
    var blocks := s.functions[f].blocks;
    EmptyBracketed();
    if fuel > 0 && b < |blocks| {
      if i >= |blocks[b].body| {
        var terminator := blocks[b].terminator;
        if !terminator.Return? {
          ExecuteBracketed(s, f, Target(terminator, registers), 0, registers, memory, fuel - 1);
        }
      } else {
        var instr := blocks[b].body[i];
        if IsCall(instr) {
          var callee := Callee(instr, registers);
          if callee != [] {
            var args := ReadAll(registers, instr.args);
            InvokeBracketed(s, callee[0], args, memory, fuel - 1);
            var r := Invoke(s, callee[0], args, memory, fuel - 1);
            if r.Done? {
              var registers' := registers[instr.dst := r.value];
              ExecuteBracketed(s, f, b, i + 1, registers', r.memory, fuel - 1);
              PrependWellLogged(r.log, Execute(s, blocks, b, i + 1, registers', r.memory, fuel - 1), s.traced.Values,
                                PendingFrom(s, blocks, b, i + 1, registers', r.memory, fuel - 1));
            }
          }
        } else {
          var next := Step(s, instr, registers, memory);
          if next.Local? {
            ExecuteBracketed(s, f, b, i + 1, next.registers, next.memory, fuel - 1);
          }
        }
      }
    }
  }

  /** The record of a run that returns opens and closes every call in order and leaves the call
      stack as it was; the record of a run that traps leaves open exactly the pending calls. */
  lemma {:induction false} InvokeBracketed(s: Machine, name: string, args: seq<Value>, memory: Memory, fuel: nat)
    requires Unreported(s.functions)
    ensures WellLogged(Invoke(s, name, args, memory, fuel), s.traced.Values, Pending(s, name, args, memory, fuel))
    decreases fuel, 1
  {
    EmptyBracketed();
    if Callable(s, name, args) {
      var r := Execute(s, s.functions[name].blocks, 0, 0, ParameterRegisters(args), memory, fuel);
      var pending := PendingFrom(s, s.functions[name].blocks, 0, 0, ParameterRegisters(args), memory, fuel);
      ExecuteBracketed(s, name, 0, 0, ParameterRegisters(args), memory, fuel);
      assert [] + pending == pending;
      if name in s.traced {
        if r.Done? {
          CallBracketed(s.traced[name], r.log);
        } else if r.Trap? {
          CallLeavesOpen(s.traced[name], r.log, pending);
        }
      }
    }
  }

  /** Every instrumented run that returns reports a bracketed trace of numbered functions; one that
      traps reports a trace that leaves open exactly the calls that are pending in the original. */
  lemma {:induction false} InstrumentedBracketed(t: Machine, s: Machine, name: string, args: seq<Value>,
                                                 memory: Memory, r: Outcome)
    requires Instruments(t, s) && Unreported(s.functions) && Yields(t, name, args, memory, r)
    ensures r.Done? ==> Bracketed(r.log) && Numbered(r.log, s.traced.Values)
    ensures r.Trap? ==>
      && Numbered(r.log, s.traced.Values)
      && exists fuel :: Invoke(s, name, args, memory, fuel) == r
                        && LeavesOpen(r.log, Pending(s, name, args, memory, fuel))
  {
    InstrumentationReportsCalls(t, s, name, args, memory, r);
    var n: nat :| Invoke(s, name, args, memory, n) == r;
    InvokeBracketed(s, name, args, memory, n);
  }
}
