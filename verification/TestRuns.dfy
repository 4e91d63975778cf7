/**
 A test run: the runner calls every static constructor, then the driver, then the destructors, all in
 one process and with one call stack. The test body is called by the driver, or by anything else.
 */
module TestRuns {
  import opened IR
  import opened CallTrace
  import C = Callbacks

  datatype TopLevelCall = TopLevelCall(name: string, args: seq<Value>)

  /** The memory in which call `k` starts. */
  function MemoryBefore(memory: Memory, outcomes: seq<Outcome>, k: nat): Memory
    requires k <= |outcomes|
  {
    if k > 0 && outcomes[k - 1].Done? then outcomes[k - 1].memory else memory
  }

  /** The calls return one after the other, each one started in the memory that the last one left. */
  ghost predicate Returns(m: Machine, calls: seq<TopLevelCall>, memory: Memory, outcomes: seq<Outcome>) {
    && |outcomes| == |calls|
    && forall k :: 0 <= k < |calls| ==> CallReturns(m, calls, memory, outcomes, k)
  }

  ghost predicate CallReturns(m: Machine, calls: seq<TopLevelCall>, memory: Memory, outcomes: seq<Outcome>, k: nat)
    requires k < |calls| == |outcomes|
  {
    outcomes[k].Done? && Yields(m, calls[k].name, calls[k].args, MemoryBefore(memory, outcomes, k), outcomes[k])
  }

  /** A run of some calls and then others is a run of the first ones and one of the others that starts in
      the memory they leave. */
  lemma {:induction false} ReturnsSplit(m: Machine, calls: seq<TopLevelCall>, more: seq<TopLevelCall>, memory: Memory,
                                        outcomes: seq<Outcome>, more': seq<Outcome>)
    requires |outcomes| == |calls| && forall k :: 0 <= k < |calls| ==> outcomes[k].Done?
    ensures Returns(m, calls + more, memory, outcomes + more')
       <==> && Returns(m, calls, memory, outcomes)
            && Returns(m, more, if outcomes == [] then memory else outcomes[|outcomes| - 1].memory, more')
  {
    hide CallReturns;
    var start := if outcomes == [] then memory else outcomes[|outcomes| - 1].memory;
    if |more'| == |more| && exists k :: 0 <= k < |more'| && !more'[k].Done? {
      var k :| 0 <= k < |more'| && !more'[k].Done?;
      NotReturned(m, more, start, more', k);
      NotReturned(m, calls + more, memory, outcomes + more', |calls| + k);
    } else if |more'| == |more| {
      forall i | 0 <= i < |calls + more|
        ensures CallReturns(m, calls + more, memory, outcomes + more', i)
           <==> if i < |calls| then CallReturns(m, calls, memory, outcomes, i)
                else CallReturns(m, more, start, more', i - |calls|)
      {
        CallOfSplit(m, calls, more, memory, outcomes, more', i);
      }
      forall k | 0 <= k < |more|
        ensures CallReturns(m, more, start, more', k)
           <==> CallReturns(m, calls + more, memory, outcomes + more', |calls| + k)
      {
        CallOfSplit(m, calls, more, memory, outcomes, more', |calls| + k);
      }
    }
  }

  lemma NotReturned(m: Machine, calls: seq<TopLevelCall>, memory: Memory, outcomes: seq<Outcome>, k: nat)
    requires k < |calls| == |outcomes| && !outcomes[k].Done?
    ensures !Returns(m, calls, memory, outcomes)
  {
    assert !CallReturns(m, calls, memory, outcomes, k);
  }

  lemma CallOfSplit(m: Machine, calls: seq<TopLevelCall>, more: seq<TopLevelCall>, memory: Memory,
                    outcomes: seq<Outcome>, more': seq<Outcome>, i: nat)
    requires |outcomes| == |calls| && |more'| == |more| && i < |calls + more|
    requires forall outcome :: outcome in outcomes + more' ==> outcome.Done?
    ensures CallReturns(m, calls + more, memory, outcomes + more', i)
       <==> if i < |calls| then CallReturns(m, calls, memory, outcomes, i)
            else CallReturns(m, more, if outcomes == [] then memory else outcomes[|outcomes| - 1].memory, more',
                             i - |calls|)
  {
    hide Yields;
    var all := outcomes + more';
    var start := if outcomes == [] then memory else outcomes[|outcomes| - 1].memory;
    assert i < |calls| ==> (calls + more)[i] == calls[i] && all[i] == outcomes[i];
    assert i >= |calls| ==> (calls + more)[i] == more[i - |calls|] && all[i] == more'[i - |calls|];
    assert 0 < i <= |calls| ==> all[i - 1] == outcomes[i - 1];
    assert i > |calls| ==> all[i - 1] == more'[i - |calls| - 1];
    assert MemoryBefore(memory, all, i)
        == if i < |calls| then MemoryBefore(memory, outcomes, i) else MemoryBefore(start, more', i - |calls|);
  }

  /** One call starts in the given memory. */
  lemma OneCall(m: Machine, call: TopLevelCall, memory: Memory, outcome: Outcome)
    ensures Returns(m, [call], memory, [outcome])
       <==> outcome.Done? && Yields(m, call.name, call.args, memory, outcome)
  {
    assert Returns(m, [call], memory, [outcome]) <==> CallReturns(m, [call], memory, [outcome], 0);
  }

  /** The events of all calls. */
  function LogOf(outcomes: seq<Outcome>): seq<Event> {
    if outcomes == [] then []
    else
      var last := outcomes[|outcomes| - 1];
      LogOf(outcomes[..|outcomes| - 1]) + (if last.Done? then last.log else [])
  }

  /** The events of earlier calls come first. */
  lemma {:induction false} LogOfSplit(outcomes: seq<Outcome>, more: seq<Outcome>)
    ensures LogOf(outcomes + more) == LogOf(outcomes) + LogOf(more)
  {
    hide LogOf;
    if more == [] {
      LogOfSnoc([], Timeout);
      assert outcomes + more == outcomes;
    } else {
      var (before, last) := (more[..|more| - 1], more[|more| - 1]);
      LogOfSplit(outcomes, before);
      LogOfSnoc(outcomes + before, last);
      LogOfSnoc(before, last);
      assert outcomes + more == (outcomes + before) + [last] && more == before + [last];
    }
  }

  lemma LogOfSnoc(outcomes: seq<Outcome>, last: Outcome)
    ensures LogOf(outcomes + [last]) == LogOf(outcomes) + (if last.Done? then last.log else [])
    ensures LogOf([]) == []
  {
    assert (outcomes + [last])[..|outcomes|] == outcomes;
  }

  /** The calls of a test: constructors without arguments, the driver, and whatever was registered to be
      run at the end. */
  function TestCalls(constructors: seq<string>, driver: TopLevelCall, destructors: seq<TopLevelCall>)
    : (calls: seq<TopLevelCall>)
    ensures |calls| == |constructors| + 1 + |destructors| && calls[|constructors|] == driver
    ensures forall k :: 0 <= k < |constructors| ==> calls[k] == TopLevelCall(constructors[k], [])
    ensures forall k :: 0 <= k < |destructors| ==> calls[|constructors| + 1 + k] == destructors[k]
  {
    seq(|constructors|, k requires 0 <= k < |constructors| => TopLevelCall(constructors[k], [])) + [driver]
    + destructors
  }

  /** An instrumented run returns if and only if the original one does, with the same outcomes and with
      the calls and returns of the original as its events. */
  lemma {:induction false} InstrumentedReturns(t: Machine, s: Machine, calls: seq<TopLevelCall>, memory: Memory,
                                               outcomes: seq<Outcome>)
    requires C.Instruments(t, s)
    ensures Returns(t, calls, memory, outcomes) <==> Returns(s, calls, memory, outcomes)
  {
    hide C.Instruments, Yields;
    if |outcomes| == |calls| {
      forall k | 0 <= k < |calls|
        ensures CallReturns(t, calls, memory, outcomes, k) <==> CallReturns(s, calls, memory, outcomes, k)
      {
        var start := MemoryBefore(memory, outcomes, k);
        C.InstrumentationReportsCalls(t, s, calls[k].name, calls[k].args, start, outcomes[k]);
      }
    }
  }

  /** The events of any number of returning calls close what they open. */
  lemma {:induction false} LogIsBracketed(t: Machine, s: Machine, calls: seq<TopLevelCall>, memory: Memory,
                                          outcomes: seq<Outcome>)
    requires C.Instruments(t, s) && C.Unreported(s.functions) && Returns(t, calls, memory, outcomes)
    ensures C.Bracketed(LogOf(outcomes)) && C.Numbered(LogOf(outcomes), s.traced.Values)
    decreases |calls|
  {
    hide C.Instruments, C.Unreported, Yields, C.Bracketed;
    if calls == [] {
      C.EmptyBracketed();
    } else {
      var n := |calls| - 1;
      assert CallReturns(t, calls, memory, outcomes, n);
      C.InstrumentedBracketed(t, s, calls[n].name, calls[n].args, MemoryBefore(memory, outcomes, n), outcomes[n]);
      ReturnsPrefix(t, calls, memory, outcomes);
      LogIsBracketed(t, s, calls[..n], memory, outcomes[..n]);
      C.BracketedAppend(LogOf(outcomes[..n]), outcomes[n].log);
    }
  }

  lemma ReturnsPrefix(m: Machine, calls: seq<TopLevelCall>, memory: Memory, outcomes: seq<Outcome>)
    requires Returns(m, calls, memory, outcomes) && calls != []
    ensures Returns(m, calls[..|calls| - 1], memory, outcomes[..|calls| - 1])
  {
    hide Yields;
    var calls', outcomes' := calls[..|calls| - 1], outcomes[..|calls| - 1];
    forall k | 0 <= k < |calls'| ensures CallReturns(m, calls', memory, outcomes', k) {
      assert CallReturns(m, calls, memory, outcomes, k);
    }
  }

  /** What a run leaves: an empty call stack and an array that is a forest. */
  ghost predicate LeavesForest(n: nat, log: seq<Event>) {
    && Legal(n, log) && Run(n, log).stack == []
    && Forest(Run(n, log).mapping, FirstEntries(n, log))
  }

  /** Events of listed functions, each of which closes only the innermost open call. */
  ghost predicate Disciplined(n: nat, log: seq<Event>) {
    C.OpenCalls([], log) != [] && forall k :: 0 <= k < |log| ==> 0 < log[k].index < n
  }

  lemma BracketedLeavesForest(n: nat, log: seq<Event>)
    requires n > 0 && C.Bracketed(log) && forall k :: 0 <= k < |log| ==> 0 < log[k].index < n
    ensures LeavesForest(n, log) && Disciplined(n, log) && C.OpenCalls([], log) == [[]]
  {
    hide Forest;
    assert C.OpenCalls([], log) == [[]];
    StackIsOpenCalls(n, log);
    TraceForest(n, log);
  }

  /** A run made of any number of calls that return is legal, empties the stack and leaves a forest. */
  lemma {:induction false} InstrumentedRun(n: nat, t: Machine, s: Machine, calls: seq<TopLevelCall>, memory: Memory,
                                           outcomes: seq<Outcome>)
    requires C.Instruments(t, s) && C.Unreported(s.functions) && Returns(t, calls, memory, outcomes)
    requires n > 0 && forall i :: i in s.traced.Values ==> 0 < i < n
    ensures LeavesForest(n, LogOf(outcomes)) && Disciplined(n, LogOf(outcomes))
    ensures C.OpenCalls([], LogOf(outcomes)) == [[]]
  {
    hide C.Instruments, C.Unreported, Returns, C.Bracketed, LeavesForest, Disciplined;
    LogIsBracketed(t, s, calls, memory, outcomes);
    BracketedLeavesForest(n, LogOf(outcomes));
  }
}
