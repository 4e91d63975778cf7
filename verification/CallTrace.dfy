/**
 The online half of the dynamic call tree: every entered function writes its parent, or itself
 if the call stack is empty, into a shared array.
 */
module CallTrace {
  import opened IR
  import C = Callbacks

  datatype State = State(mapping: seq<nat>, stack: seq<nat>)

  function Top(stack: seq<nat>): nat
    requires stack != []
  {
    stack[|stack| - 1]
  }

  function Enter(s: State, f: nat): State
    requires 0 < f < |s.mapping|
  {
    var mapping :=
      if s.stack == [] then s.mapping[f := f]
      else if s.mapping[f] == 0 then s.mapping[f := Top(s.stack)]
      else s.mapping;
    State(mapping, s.stack + [f])
  }

  function Leave(s: State): State
    requires s.stack != []
  {
    s.(stack := s.stack[..|s.stack| - 1])
  }

  /** The memory shared between the test process and Mull, and the call stack of the process. */
  class InstrumentationInfo {
    const callTreeMapping: array<nat>
    var callstack: seq<nat>

    constructor (functions: nat)
      requires functions > 1
      ensures fresh(callTreeMapping) && callTreeMapping.Length == functions
      ensures View() == State(seq(functions, _ => 0), [])
    {
      callTreeMapping := new nat[functions](_ => 0);
      callstack := [];
      new;
      assert callTreeMapping[..] == seq(functions, _ => 0);
    }

    function View(): State
      reads this, callTreeMapping
    {
      State(callTreeMapping[..], callstack)
    }

    method EnterFunction(functionIndex: nat)
      requires 0 < functionIndex < callTreeMapping.Length
      modifies this`callstack, callTreeMapping
      ensures View() == Enter(old(View()), functionIndex)
    {
      if callstack == [] {
        callTreeMapping[functionIndex] := functionIndex;
      } else if callTreeMapping[functionIndex] == 0 {
        var parent := Top(callstack);
        callTreeMapping[functionIndex] := parent;
      }
      callstack := callstack + [functionIndex];
    }

    method LeaveFunction(functionIndex: nat)
      requires functionIndex != 0 && callstack != []
      modifies this`callstack
      ensures View() == Leave(old(View()))
    {
      callstack := callstack[..|callstack| - 1];
    }
  }

  // ---- Traces -------------------------------------------------------------------------------

  /** Enters stay within the array and leaves find a function to leave. */
  predicate Legal(n: nat, log: seq<Event>)
    decreases |log|, 0
  {
    log == [] ||
    var (before, event) := (log[..|log| - 1], log[|log| - 1]);
    && Legal(n, before)
    && match event
       case Entered(f) => 0 < f < n
       case Left(f) => 0 < f && Run(n, before).stack != []
  }

  /** The state after a legal trace, from an array of n zeros and an empty stack. */
  function Run(n: nat, log: seq<Event>): (s: State)
    requires Legal(n, log)
    ensures |s.mapping| == n
    decreases |log|, 1
  {
    if log == [] then State(seq(n, _ => 0), [])
    else
      var s := Run(n, log[..|log| - 1]);
      match log[|log| - 1]
      case Entered(f) => Enter(s, f)
      case Left(_) => Leave(s)
  }

  predicate HasEntered(log: seq<Event>, f: nat) {
    Entered(f) in log
  }

  /** The position of the first entry of `f`. */
  function First(log: seq<Event>, f: nat): (k: nat)
    requires HasEntered(log, f)
    ensures k < |log| && log[k] == Entered(f) && Entered(f) !in log[..k]
    decreases |log|
  {
    if Entered(f) in log[..|log| - 1] then First(log[..|log| - 1], f) else |log| - 1
  }

  lemma LegalPrefix(n: nat, log: seq<Event>, k: nat)
    requires Legal(n, log) && k <= |log|
    ensures Legal(n, log[..k])
    decreases |log|
  {
    if k < |log| {
      LegalPrefix(n, log[..|log| - 1], k);
      assert log[..|log| - 1][..k] == log[..k];
    } else {
      assert log[..k] == log;
    }
  }

  /** The stack at the moment of event `k`. */
  function StackAt(n: nat, log: seq<Event>, k: nat): seq<nat>
    requires Legal(n, log) && k <= |log|
  {
    LegalPrefix(n, log, k);
    Run(n, log[..k]).stack
  }

  /** `f` was entered at some moment with an empty call stack. */
  predicate RootEntered(n: nat, log: seq<Event>, f: nat)
    requires Legal(n, log)
  {
    exists k :: 0 <= k < |log| && log[k] == Entered(f) && StackAt(n, log, k) == []
  }

  /** What the entry of `f` should be: zero if it was never entered, `f` if it ever was the first of
      a chain, and otherwise its caller at its first entry. */
  function ExpectedParent(n: nat, log: seq<Event>, f: nat): nat
    requires Legal(n, log)
  {
    if !HasEntered(log, f) then 0
    else if RootEntered(n, log, f) then f
    else
      var stack := StackAt(n, log, First(log, f));
      assert stack != [] by { assert log[First(log, f)] == Entered(f); }
      Top(stack)
  }

  lemma {:induction false} StackAtPrefix(n: nat, log: seq<Event>, k: nat)
    requires Legal(n, log) && log != [] && k < |log|
    ensures Legal(n, log[..|log| - 1])
    ensures StackAt(n, log, k) == StackAt(n, log[..|log| - 1], k)
  {
    LegalPrefix(n, log, |log| - 1);
    assert log[..|log| - 1][..k] == log[..k];
  }

  lemma {:induction false} RootEnteredSnoc(n: nat, log: seq<Event>, f: nat)
    requires Legal(n, log) && log != []
    ensures Legal(n, log[..|log| - 1])
    ensures RootEntered(n, log, f)
       <==> RootEntered(n, log[..|log| - 1], f)
            || (log[|log| - 1] == Entered(f) && Run(n, log[..|log| - 1]).stack == [])
  {
    var before := log[..|log| - 1];
    forall k | 0 <= k < |log| ensures StackAt(n, log, k) == StackAt(n, before, k) {
      StackAtPrefix(n, log, k);
    }
    assert before[..|before|] == before;
    if RootEntered(n, before, f) {
      var k :| 0 <= k < |before| && before[k] == Entered(f) && StackAt(n, before, k) == [];
      assert log[k] == Entered(f);
    }
    if log[|log| - 1] == Entered(f) && Run(n, before).stack == [] {
      assert StackAt(n, log, |log| - 1) == [];
    }
  }

  /** The array after a trace holds exactly the expected parents. */
  lemma {:induction false} MappingIsExpected(n: nat, log: seq<Event>, f: nat)
    requires Legal(n, log) && f < n
    ensures Run(n, log).mapping[f] == ExpectedParent(n, log, f)
    decreases |log|
  {
    if log != [] {
      var before := log[..|log| - 1];
      MappingIsExpected(n, before, f);
      RootEnteredSnoc(n, log, f);
      assert log == before + [log[|log| - 1]];
      assert before[..|before|] == before;
      if HasEntered(before, f) {
        StackAtPrefix(n, log, First(before, f));
        EntriesAreEntered(n, before);
      }
    }
  }

  lemma {:induction false} StackPositive(n: nat, log: seq<Event>)
    requires Legal(n, log)
    ensures forall k :: 0 <= k < |Run(n, log).stack| ==> 0 < Run(n, log).stack[k] < n
    decreases |log|
  {
    if log != [] {
      StackPositive(n, log[..|log| - 1]);
    }
  }

  lemma {:induction false} EntryIsEntered(n: nat, log: seq<Event>, f: nat)
    requires Legal(n, log)
    ensures HasEntered(log, f) ==> 0 < f < n
    ensures f < n ==> (HasEntered(log, f) <==> Run(n, log).mapping[f] != 0)
    ensures f in Run(n, log).stack ==> 0 < f < n && HasEntered(log, f)
    decreases |log|
  {
    if log != [] {
      var before, last := log[..|log| - 1], log[|log| - 1];
      EntryIsEntered(n, before, f);
      StackPositive(n, before);
      assert log == before + [last];
      assert HasEntered(log, f) <==> HasEntered(before, f) || last == Entered(f);
    }
  }

  lemma EntriesAreEntered(n: nat, log: seq<Event>)
    requires Legal(n, log)
    ensures forall f :: 0 <= f < n && HasEntered(log, f) ==> 0 < f && Run(n, log).mapping[f] != 0
    ensures forall f :: 0 <= f < n && Run(n, log).mapping[f] != 0 ==> HasEntered(log, f)
    ensures forall f :: f in Run(n, log).stack ==> 0 < f < n && HasEntered(log, f)
  {
    hide *;
    forall f: nat
      ensures HasEntered(log, f) ==> 0 < f < n
      ensures f < n ==> (HasEntered(log, f) <==> Run(n, log).mapping[f] != 0)
      ensures f in Run(n, log).stack ==> 0 < f < n && HasEntered(log, f)
    {
      EntryIsEntered(n, log, f);
    }
  }

  /** Every stacked function was entered before now. */
  lemma StackEnteredBefore(n: nat, log: seq<Event>, k: nat, g: nat)
    requires Legal(n, log) && k <= |log| && g in StackAt(n, log, k)
    ensures 0 < g < n && HasEntered(log, g) && First(log, g) < k
  {
    LegalPrefix(n, log, k);
    EntriesAreEntered(n, log[..k]);
    var p := First(log[..k], g);
    assert log[p] == Entered(g);
    FirstIsLeast(log, g, p);
  }

  lemma {:induction false} FirstIsLeast(log: seq<Event>, f: nat, k: nat)
    requires k < |log| && log[k] == Entered(f)
    ensures First(log, f) <= k
  {
    var before := log[..First(log, f)];
    assert forall j :: 0 <= j < |before| ==> before[j] == log[j];
  }

  // ---- The array is a forest -----------------------------------------------------------------

  /** The entries form chains that end in self-mapped roots: every parent has an entry itself and
      ranks strictly below its children. */
  ghost predicate Forest(mapping: seq<nat>, rank: seq<nat>) {
    && |rank| == |mapping| && |mapping| > 0 && mapping[0] == 0
    && forall f: nat {:trigger IsEntered(mapping, f)} :: IsEntered(mapping, f) ==>
         && mapping[f] < |mapping| && mapping[mapping[f]] != 0
         && (mapping[f] == f || rank[mapping[f]] < rank[f])
  }

  predicate IsEntered(m: seq<nat>, f: nat) {
    f < |m| && m[f] != 0
  }

  function FirstEntries(n: nat, log: seq<Event>): (rank: seq<nat>)
    ensures |rank| == n
  {
    seq(n, f requires 0 <= f < n => if HasEntered(log, f) then First(log, f) else 0)
  }

  /** After any legal trace, with recursion and repeated roots, an entry is nonzero exactly for the
      functions that were entered, and the order of first entries is a rank that makes the array a
      forest. */
  lemma {:induction false} TraceForest(n: nat, log: seq<Event>)
    requires Legal(n, log) && n > 0
    ensures Forest(Run(n, log).mapping, FirstEntries(n, log))
    ensures forall f :: 0 <= f < n ==> (Run(n, log).mapping[f] != 0 <==> HasEntered(log, f))
    ensures forall f :: f in Run(n, log).stack ==> f < n && Run(n, log).mapping[f] != 0
  {
    var mapping := Run(n, log).mapping;
    var rank := FirstEntries(n, log);
    EntriesAreEntered(n, log);
    forall f: nat | IsEntered(mapping, f)
      ensures mapping[f] < n && mapping[mapping[f]] != 0 && (mapping[f] == f || rank[mapping[f]] < rank[f])
    {
      MappingIsExpected(n, log, f);
      if !RootEntered(n, log, f) {
        StackEnteredBefore(n, log, First(log, f), mapping[f]);
      }
    }
  }

  // ---- Traces of real runs -------------------------------------------------------------------

  /** As long as a log leaves only functions on top, the state machine's stack is the list of open
      calls, at every moment. */
  lemma {:induction false} StackIsOpenCalls(n: nat, log: seq<Event>)
    requires C.OpenCalls([], log) != []
    requires forall k :: 0 <= k < |log| ==> 0 < log[k].index < n
    ensures Legal(n, log) && Run(n, log).stack == C.OpenCalls([], log)[0]
    decreases |log|
  {
    if log != [] {
      var before := log[..|log| - 1];
      var last := [log[|log| - 1]];
      assert log == before + last;
      C.OpenCallsAppend([], before, last);
      StackIsOpenCalls(n, before);
      var stack := Run(n, before).stack;
      assert last[1..] == [];
    }
  }

  /** A test that runs to its end under instrumentation drives the machine through a legal trace
      that empties the call stack; at every moment before, the stack is the list of open calls. */
  lemma {:induction false} ReturningRun(n: nat, t: Machine, s: Machine, name: string, args: seq<Value>,
                                        memory: Memory, r: Outcome, k: nat)
    requires C.Instruments(t, s) && C.Unreported(s.functions) && Yields(t, name, args, memory, r) && r.Done?
    requires forall i :: i in s.traced.Values ==> 0 < i < n
    requires k <= |r.log|
    ensures Legal(n, r.log) && Run(n, r.log).stack == []
    ensures C.OpenCalls([], r.log[..k]) == [StackAt(n, r.log, k)]
  {
    C.InstrumentedBracketed(t, s, name, args, memory, r);
    var log := r.log;
    assert C.OpenCalls([], log) == [[]];
    StackIsOpenCalls(n, log);
    assert log == log[..k] + log[k..];
    C.OpenCallsAppend([], log[..k], log[k..]);
    StackIsOpenCalls(n, log[..k]);
  }
}
