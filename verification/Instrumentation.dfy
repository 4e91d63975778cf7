/**
 Numbering of the instrumented functions: `RecordFunctions` lists the defined functions of every
 module and remembers where a module starts, `InsertCallbacks` counts the defined functions of one
 module again, and the offset is added when a callback runs. The two counts have to agree.
 */
module Instrumentations {
  import opened Wrappers
  import opened IR
  import C = Callbacks

  /** A function as the listing refers to it. `name` stands for its identity: an internal function, whose
      name other modules may use as well, has that of its module in it. */
  datatype Symbol = Symbol(name: string, function_: Function)

  datatype BitcodeModule = BitcodeModule(identifier: string, symbols: seq<Symbol>)

  predicate IsDeclaration(s: Symbol) {
    s.function_.blocks == []
  }

  /** The defined functions of a module, in order. */
  function Definitions(symbols: seq<Symbol>): (ds: seq<Symbol>)
    ensures forall k :: 0 <= k < |ds| ==> !IsDeclaration(ds[k])
  {
    if symbols == [] then []
    else
      var (before, last) := (symbols[..|symbols| - 1], symbols[|symbols| - 1]);
      Definitions(before) + (if IsDeclaration(last) then [] else [last])
  }

  /** They are the symbols at exactly the positions of definitions, in order. */
  lemma {:induction false} DefinitionsInOrder(symbols: seq<Symbol>) returns (positions: seq<nat>)
    ensures |positions| == |Definitions(symbols)|
    ensures forall j, k :: 0 <= j < k < |positions| ==> positions[j] < positions[k]
    ensures forall k :: 0 <= k < |positions| ==>
      positions[k] < |symbols| && Definitions(symbols)[k] == symbols[positions[k]]
    ensures forall i :: 0 <= i < |symbols| ==> (i in positions <==> !IsDeclaration(symbols[i]))
  {
    positions := [];
    if symbols != [] {
      var n := |symbols| - 1;
      positions := DefinitionsInOrder(symbols[..n]);
      forall i | 0 <= i < n ensures i in positions <==> !IsDeclaration(symbols[i]) {
        assert symbols[..n][i] == symbols[i];
      }
      assert n !in positions;
      if !IsDeclaration(symbols[n]) {
        positions := positions + [n];
      }
    }
  }

  /** The defined functions of a program, module by module. */
  function AllDefinitions(modules: seq<BitcodeModule>): (ds: seq<Symbol>)
    ensures forall k :: 0 <= k < |ds| ==> !IsDeclaration(ds[k])
  {
    if modules == [] then []
    else AllDefinitions(modules[..|modules| - 1]) + Definitions(modules[|modules| - 1].symbols)
  }

  /** The name stays, and declarations stay as they are. */
  predicate Keeps(s: Symbol, s': Symbol) {
    s'.name == s.name && (IsDeclaration(s) ==> s' == s)
  }

  function WithCallbacks(s: Symbol, index: nat): Symbol {
    s.(function_ := s.function_.(blocks := C.InstrumentBlocks(s.function_.blocks, index)))
  }

  /** The same functions with callbacks, numbered from `first` on. */
  function Instrumented(ds: seq<Symbol>, first: nat): (result: seq<Symbol>)
    ensures |result| == |ds|
    ensures forall k :: 0 <= k < |ds| ==> result[k] == WithCallbacks(ds[k], first + k)
  {
    seq(|ds|, k requires 0 <= k < |ds| => WithCallbacks(ds[k], first + k))
  }

  lemma InstrumentedAppend(ds: seq<Symbol>, more: seq<Symbol>, first: nat)
    ensures Instrumented(ds + more, first) == Instrumented(ds, first) + Instrumented(more, first + |ds|)
  {
  }

  lemma CallbacksNext(symbols: seq<Symbol>, i: nat, done: seq<Symbol>, first: nat, next: Symbol)
    requires i < |symbols| && Definitions(done) == Instrumented(Definitions(symbols[..i]), first)
    requires next == if IsDeclaration(symbols[i]) then symbols[i]
                     else WithCallbacks(symbols[i], first + |Definitions(symbols[..i])|)
    ensures Definitions(done + [next]) == Instrumented(Definitions(symbols[..i + 1]), first)
    ensures |Definitions(symbols[..i + 1])|
         == |Definitions(symbols[..i])| + (if IsDeclaration(symbols[i]) then 0 else 1)
  {
    assert symbols[..i + 1][..i] == symbols[..i] && (done + [next])[..|done|] == done;
  }

  /** The recorded functions: entry 0 is the phony root. */
  function Listing(ds: seq<Symbol>): (names: seq<Option<string>>)
    ensures |names| == |ds| + 1 && names[0] == None
    ensures forall k :: 0 <= k < |ds| ==> names[k + 1] == Some(ds[k].name)
  {
    [None] + seq(|ds|, k requires 0 <= k < |ds| => Some(ds[k].name))
  }

  lemma ListingStart(recorded: seq<Symbol>, symbols: seq<Symbol>)
    ensures Listing(recorded + Definitions(symbols[..0])) == Listing(recorded)
  {
    assert recorded + [] == recorded;
  }

  lemma ListingNext(recorded: seq<Symbol>, symbols: seq<Symbol>, i: nat)
    requires i < |symbols|
    ensures Listing(recorded + Definitions(symbols[..i + 1]))
         == Listing(recorded + Definitions(symbols[..i]))
            + (if IsDeclaration(symbols[i]) then [] else [Some(symbols[i].name)])
  {
    assert symbols[..i + 1][..i] == symbols[..i];
  }

  class Instrumentation {
    var functions: seq<Option<string>>
    var functionOffsetMapping: map<string, nat>

    constructor ()
      ensures functions == Listing([]) && functionOffsetMapping == map[]
    {
      functions := [None];
      functionOffsetMapping := map[];
    }

    method RecordFunctions(originalModule: BitcodeModule, ghost recorded: seq<Symbol>)
      requires functions == Listing(recorded)
      modifies this
      ensures functions == Listing(recorded + Definitions(originalModule.symbols))
      ensures functionOffsetMapping == old(functionOffsetMapping)[originalModule.identifier := |recorded| + 1]
    {
      hide Definitions, Listing;
      var symbols := originalModule.symbols;
      ListingStart(recorded, symbols);
      functionOffsetMapping := functionOffsetMapping[originalModule.identifier := |functions|];
      for i := 0 to |symbols|
        invariant functions == Listing(recorded + Definitions(symbols[..i]))
        invariant functionOffsetMapping == old(functionOffsetMapping)[originalModule.identifier := |recorded| + 1]
      {
        ListingNext(recorded, symbols, i);
        if !IsDeclaration(symbols[i]) {
          functions := functions + [Some(symbols[i].name)];
        }
      }
      assert symbols[..|symbols|] == symbols;
    }

    /** Every defined function reports its number in the listing, everything else stays. */
    method InsertCallbacks(originalModule: BitcodeModule) returns (instrumentedModule: BitcodeModule)
      requires originalModule.identifier in functionOffsetMapping
      ensures instrumentedModule.identifier == originalModule.identifier
      ensures Definitions(instrumentedModule.symbols)
           == Instrumented(Definitions(originalModule.symbols), functionOffsetMapping[originalModule.identifier])
      ensures |instrumentedModule.symbols| == |originalModule.symbols|
      ensures forall i :: 0 <= i < |originalModule.symbols| ==>
        Keeps(originalModule.symbols[i], instrumentedModule.symbols[i])
    {
      var symbols := originalModule.symbols;
      var offset := functionOffsetMapping[originalModule.identifier];
      var index, result := 0, [];
      for i := 0 to |symbols|
        invariant |result| == i && index == |Definitions(symbols[..i])|
        invariant Definitions(result) == Instrumented(Definitions(symbols[..i]), offset)
        invariant forall j :: 0 <= j < i ==> Keeps(symbols[j], result[j])
      {
        var symbol := symbols[i];
        if !IsDeclaration(symbol) {
          var f := C.InjectCallbacks(symbol.function_, offset + index);
          symbol := symbol.(function_ := f);
          index := index + 1;
        }
        assert symbol == if IsDeclaration(symbols[i]) then symbols[i]
                         else WithCallbacks(symbols[i], offset + |Definitions(symbols[..i])|);
        CallbacksNext(symbols, i, result, offset, symbol);
        result := result + [symbol];
      }
      assert symbols[..|symbols|] == symbols;
      instrumentedModule := originalModule.(symbols := result);
    }

    /** The first loop of the instrumented compilation: of modules with one identifier the last counts. */
    method RecordProgram(modules: seq<BitcodeModule>)
      requires functions == Listing([])
      modifies this
      ensures functions == Listing(AllDefinitions(modules))
      ensures HaveOffsets(functionOffsetMapping, modules)
    {
      for j := 0 to |modules|
        invariant functions == Listing(AllDefinitions(modules[..j]))
        invariant HaveOffsets(functionOffsetMapping, modules[..j])
      {
        assert modules[..j + 1][..j] == modules[..j];
        ghost var before := functionOffsetMapping;
        RecordFunctions(modules[j], AllDefinitions(modules[..j]));
        OffsetsNext(before, modules[..j + 1]);
      }
      assert modules[..|modules|] == modules;
    }

    /** All modules are recorded before the first is instrumented. The function listed at `k` is the one
        that reports `k`, whichever module it is from, if and only if no module that defines functions
        has its offset overwritten by another one. */
    method InstrumentProgram(modules: seq<BitcodeModule>) returns (instrumented: seq<BitcodeModule>)
      requires functions == Listing([])
      modifies this
      ensures functions == Listing(AllDefinitions(modules))
      ensures |instrumented| == |modules| && AllDefinitions(instrumented) == Reported(modules, |modules|)
      ensures AllDefinitions(instrumented) == Instrumented(AllDefinitions(modules), 1) <==> LastDefines(modules)
    {
      RecordProgram(modules);
      instrumented := [];
      for j := 0 to |modules|
        invariant |instrumented| == j && AllDefinitions(instrumented) == Reported(modules, j)
        invariant functions == Listing(AllDefinitions(modules)) && HaveOffsets(functionOffsetMapping, modules)
      {
        var next := InsertCallbacks(modules[j]);
        assert (instrumented + [next])[..j] == instrumented;
        instrumented := instrumented + [next];
      }
      ReportedIsListed(modules);
    }
  }

  /** The last module with the identifier, if there is one. */
  function LastOf(modules: seq<BitcodeModule>, identifier: string): (j: nat)
    ensures (exists i :: 0 <= i < |modules| && modules[i].identifier == identifier) ==>
      j < |modules| && modules[j].identifier == identifier
    ensures forall i :: 0 <= i < |modules| && modules[i].identifier == identifier ==> i <= j
  {
    if modules == [] then 0
    else if modules[|modules| - 1].identifier == identifier then |modules| - 1
    else LastOf(modules[..|modules| - 1], identifier)
  }

  /** The offset at which the functions of module j are numbered. */
  function Offset(modules: seq<BitcodeModule>, j: nat): nat
    requires j < |modules|
  {
    |AllDefinitions(modules[..LastOf(modules, modules[j].identifier)])| + 1
  }

  predicate HaveOffsets(offsets: map<string, nat>, modules: seq<BitcodeModule>) {
    forall j :: 0 <= j < |modules| ==>
      modules[j].identifier in offsets && offsets[modules[j].identifier] == Offset(modules, j)
  }

  lemma OffsetNext(modules: seq<BitcodeModule>, j: nat)
    requires j < |modules|
    ensures var last := |modules| - 1;
      && (modules[j].identifier == modules[last].identifier ==>
            Offset(modules, j) == |AllDefinitions(modules[..last])| + 1)
      && (modules[j].identifier != modules[last].identifier ==>
            j < last && modules[..last][j] == modules[j] && Offset(modules[..last], j) == Offset(modules, j))
  {
    hide AllDefinitions;
    var before := modules[..|modules| - 1];
    if modules[j].identifier != modules[|modules| - 1].identifier {
      assert before[j] == modules[j];
      var k := LastOf(before, modules[j].identifier);
      assert before[..k] == modules[..k];
    }
  }

  lemma OffsetsNext(offsets: map<string, nat>, modules: seq<BitcodeModule>)
    requires modules != [] && HaveOffsets(offsets, modules[..|modules| - 1])
    ensures var last := |modules| - 1;
      HaveOffsets(offsets[modules[last].identifier := |AllDefinitions(modules[..last])| + 1], modules)
  {
    hide AllDefinitions, Offset;
    forall j | 0 <= j < |modules|
      ensures modules[j].identifier == modules[|modules| - 1].identifier ==>
        Offset(modules, j) == |AllDefinitions(modules[..|modules| - 1])| + 1
      ensures modules[j].identifier != modules[|modules| - 1].identifier ==>
        modules[j].identifier in offsets && offsets[modules[j].identifier] == Offset(modules, j)
    {
      OffsetNext(modules, j);
    }
  }

  /** Of modules with one identifier only the last defines functions. */
  predicate LastDefines(modules: seq<BitcodeModule>) {
    forall i, j :: 0 <= i < j < |modules| && modules[i].identifier == modules[j].identifier ==>
      Definitions(modules[i].symbols) == []
  }

  /** The instrumented functions of the first n modules. */
  function Reported(modules: seq<BitcodeModule>, n: nat): (ds: seq<Symbol>)
    requires n <= |modules|
    ensures |ds| == |AllDefinitions(modules[..n])|
  {
    if n == 0 then []
    else
      assert modules[..n][..n - 1] == modules[..n - 1];
      Reported(modules, n - 1) + Instrumented(Definitions(modules[n - 1].symbols), Offset(modules, n - 1))
  }

  lemma {:induction false} DefinitionsGrow(modules: seq<BitcodeModule>, i: nat, j: nat)
    requires i <= j <= |modules|
    ensures AllDefinitions(modules[..i]) <= AllDefinitions(modules[..j])
    ensures i < j ==>
      |AllDefinitions(modules[..i])| + |Definitions(modules[i].symbols)| <= |AllDefinitions(modules[..j])|
    decreases j
  {
    if i < j {
      assert modules[..j][..j - 1] == modules[..j - 1];
      DefinitionsGrow(modules, i, j - 1);
    }
  }

  lemma {:induction false} ReportedPrefix(modules: seq<BitcodeModule>, i: nat, j: nat)
    requires i <= j <= |modules|
    ensures Reported(modules, i) <= Reported(modules, j)
    decreases j
  {
    hide AllDefinitions, Definitions, Offset, Instrumented;
    if i < j {
      ReportedPrefix(modules, i, j - 1);
    }
  }

  lemma CallbacksTell(s: Symbol, index: nat, index': nat)
    requires !IsDeclaration(s) && WithCallbacks(s, index) == WithCallbacks(s, index')
    ensures index == index'
  {
    var blocks := s.function_.blocks;
    assert C.InstrumentBlock(blocks[0], 0, index) == C.InstrumentBlock(blocks[0], 0, index');
    assert C.InstrumentBlock(blocks[0], 0, index).body[0] == Callback(Entered(index));
    assert C.InstrumentBlock(blocks[0], 0, index').body[0] == Callback(Entered(index'));
  }

  lemma {:induction false} FirstOfModule(modules: seq<BitcodeModule>, i: nat)
    requires i < |modules| && Definitions(modules[i].symbols) != []
    ensures var (ds, q) := (Definitions(modules[i].symbols), |AllDefinitions(modules[..i])|);
      && q < |AllDefinitions(modules)| == |Reported(modules, |modules|)|
      && AllDefinitions(modules)[q] == ds[0]
      && Reported(modules, |modules|)[q] == WithCallbacks(ds[0], Offset(modules, i))
  {
    hide Offset, Definitions, WithCallbacks;
    assert modules[..|modules|] == modules && modules[..i + 1][..i] == modules[..i];
    ReportedPrefix(modules, i + 1, |modules|);
    DefinitionsGrow(modules, i + 1, |modules|);
  }

  /** If the offset of a module with functions was overwritten, its first function reports a wrong number. */
  lemma {:induction false} OverwrittenReports(modules: seq<BitcodeModule>, i: nat, j: nat)
    requires i < j < |modules| && modules[i].identifier == modules[j].identifier
    requires Definitions(modules[i].symbols) != []
    ensures Reported(modules, |modules|) != Instrumented(AllDefinitions(modules), 1)
  {
    hide Reported, WithCallbacks, AllDefinitions;
    var (d, q) := (Definitions(modules[i].symbols)[0], |AllDefinitions(modules[..i])|);
    FirstOfModule(modules, i);
    DefinitionsGrow(modules, i, LastOf(modules, modules[i].identifier));
    if WithCallbacks(d, Offset(modules, i)) == WithCallbacks(d, q + 1) {
      CallbacksTell(d, Offset(modules, i), q + 1);
    }
  }

  lemma OwnOffset(modules: seq<BitcodeModule>, j: nat)
    requires j < |modules| && LastDefines(modules) && Definitions(modules[j].symbols) != []
    ensures Offset(modules, j) == |AllDefinitions(modules[..j])| + 1
  {
    hide AllDefinitions, Definitions;
    assert LastOf(modules, modules[j].identifier) == j;
  }

  lemma {:induction false} InOrder(modules: seq<BitcodeModule>, n: nat)
    requires n <= |modules| && LastDefines(modules)
    ensures Reported(modules, n) == Instrumented(AllDefinitions(modules[..n]), 1)
  {
    hide LastDefines, Offset, Definitions;
    if n > 0 {
      InOrder(modules, n - 1);
      var (before, ds) := (AllDefinitions(modules[..n - 1]), Definitions(modules[n - 1].symbols));
      assert modules[..n][..n - 1] == modules[..n - 1];
      InstrumentedAppend(before, ds, 1);
      if ds != [] {
        OwnOffset(modules, n - 1);
      }
    }
  }

  lemma {:induction false} ReportedIsListed(modules: seq<BitcodeModule>)
    ensures Reported(modules, |modules|) == Instrumented(AllDefinitions(modules), 1) <==> LastDefines(modules)
  {
    assert modules[..|modules|] == modules;
    if LastDefines(modules) {
      InOrder(modules, |modules|);
    } else {
      var i, j :| 0 <= i < j < |modules| && modules[i].identifier == modules[j].identifier
                  && Definitions(modules[i].symbols) != [];
      OverwrittenReports(modules, i, j);
    }
  }

  // ---- From the listing to the reports ------------------------------------------------------------

  predicate DistinctlyNamed(ds: seq<Symbol>) {
    forall j, k :: 0 <= j < k < |ds| ==> ds[j].name != ds[k].name
  }

  /** The linked program. */
  function Link(ds: seq<Symbol>): Module {
    if ds == [] then map[]
    else Link(ds[..|ds| - 1])[ds[|ds| - 1].name := ds[|ds| - 1].function_]
  }

  /** The position of every function in the listing. */
  function Numbering(ds: seq<Symbol>): map<string, nat> {
    if ds == [] then map[]
    else Numbering(ds[..|ds| - 1])[ds[|ds| - 1].name := |ds|]
  }

  lemma {:induction false} LinkAt(ds: seq<Symbol>, k: nat)
    requires DistinctlyNamed(ds) && k < |ds|
    ensures ds[k].name in Link(ds) && Link(ds)[ds[k].name] == ds[k].function_
    ensures ds[k].name in Numbering(ds) && Numbering(ds)[ds[k].name] == k + 1
  {
    if k < |ds| - 1 {
      LinkAt(ds[..|ds| - 1], k);
    }
  }

  lemma {:induction false} LinkedFrom(ds: seq<Symbol>, name: string) returns (k: nat)
    requires name in Link(ds) || name in Numbering(ds)
    ensures k < |ds| && ds[k].name == name
  {
    if ds[|ds| - 1].name == name {
      k := |ds| - 1;
    } else {
      k := LinkedFrom(ds[..|ds| - 1], name);
    }
  }

  /** The modules by their identifiers. */
  function ModuleParts(modules: seq<BitcodeModule>): (parts: map<string, Module>)
    ensures forall id :: id in parts ==> exists j :: 0 <= j < |modules| && modules[j].identifier == id
  {
    if modules == [] then map[]
    else
      var (before, last) := (modules[..|modules| - 1], modules[|modules| - 1]);
      ModuleParts(before)[last.identifier := Link(Definitions(last.symbols))]
  }

  lemma {:induction false} LinkAppend(ds: seq<Symbol>, more: seq<Symbol>)
    ensures Link(ds + more) == Link(ds) + Link(more)
  {
    if more == [] {
      assert ds + more == ds;
    } else {
      assert (ds + more)[..|ds + more| - 1] == ds + more[..|more| - 1];
      LinkAppend(ds, more[..|more| - 1]);
    }
  }

  lemma {:induction false} NothingBefore(modules: seq<BitcodeModule>, id: string)
    requires forall i :: 0 <= i < |modules| && modules[i].identifier == id ==> Definitions(modules[i].symbols) == []
    ensures id in ModuleParts(modules) ==> ModuleParts(modules)[id] == map[]
  {
    if modules != [] && modules[|modules| - 1].identifier != id {
      NothingBefore(modules[..|modules| - 1], id);
    }
  }

  lemma NamesApart(ds: seq<Symbol>, more: seq<Symbol>, j: nat, k: nat)
    requires DistinctlyNamed(ds + more) && j < |ds| && k < |more|
    ensures ds[j].name != more[k].name
  {
    assert ds[j] == (ds + more)[j] && more[k] == (ds + more)[|ds| + k];
  }

  lemma LinkedApart(ds: seq<Symbol>, more: seq<Symbol>)
    requires DistinctlyNamed(ds + more)
    ensures DistinctlyNamed(ds) && Link(ds).Keys !! Link(more).Keys
  {
    forall j, k | 0 <= j < k < |ds| ensures ds[j].name != ds[k].name {
      assert ds[j] == (ds + more)[j] && ds[k] == (ds + more)[k];
    }
    forall f | f in Link(ds) ensures f !in Link(more) {
      if f in Link(more) {
        var j := LinkedFrom(ds, f);
        var k := LinkedFrom(more, f);
        NamesApart(ds, more, j, k);
      }
    }
  }

  /** Linking the listed functions one after the other is linking the modules. */
  lemma {:induction false} LinkLinks(modules: seq<BitcodeModule>)
    requires DistinctlyNamed(AllDefinitions(modules)) && LastDefines(modules)
    ensures Links(Link(AllDefinitions(modules)), ModuleParts(modules))
  {
    if modules != [] {
      hide DistinctlyNamed, Link;
      var (before, last) := (modules[..|modules| - 1], modules[|modules| - 1]);
      var (ds, more) := (AllDefinitions(before), Definitions(last.symbols));
      LinkedApart(ds, more);
      LinkAppend(ds, more);
      LinkLinks(before);
      NothingBefore(before, last.identifier);
      LinksNext(Link(ds), ModuleParts(before), last.identifier, Link(more));
    }
  }

  lemma LinksNext(whole: Module, parts: map<string, Module>, id: string, more: Module)
    requires Links(whole, parts) && whole.Keys !! more.Keys && (id in parts ==> parts[id] == map[])
    ensures Links(whole + more, parts[id := more])
  {
    var parts' := parts[id := more];
    forall f | f in whole + more ensures exists id' :: id' in parts' && f in parts'[id'] {
      if f in more {
        assert f in parts'[id];
      } else {
        var id' :| id' in parts && f in parts[id'];
        assert f in parts'[id'];
      }
    }
  }

  lemma NumbersInListing(ds: seq<Symbol>)
    requires DistinctlyNamed(ds)
    ensures forall i :: i in Numbering(ds).Values ==> 0 < i < |ds| + 1
  {
    forall i | i in Numbering(ds).Values ensures 0 < i < |ds| + 1 {
      var name :| name in Numbering(ds) && Numbering(ds)[name] == i;
      var k := LinkedFrom(ds, name);
      LinkAt(ds, k);
    }
  }

  lemma DistinctlyStill(ds: seq<Symbol>, ds': seq<Symbol>)
    requires DistinctlyNamed(ds) && ds' == Instrumented(ds, 1)
    ensures DistinctlyNamed(ds')
  {
  }

  lemma DefinitionInstrumented(ds: seq<Symbol>, ds': seq<Symbol>, f: string) returns (k: nat)
    requires DistinctlyNamed(ds) && ds' == Instrumented(ds, 1)
    requires f in Link(ds) || f in Link(ds') || f in Numbering(ds)
    ensures f in Link(ds) && f in Link(ds') && f in Numbering(ds)
    ensures Link(ds')[f] == Link(ds)[f].(blocks := C.InstrumentBlocks(Link(ds)[f].blocks, Numbering(ds)[f]))
    ensures k < |ds| && ds[k].function_ == Link(ds)[f]
  {
    hide Link, Numbering, DistinctlyNamed;
    DistinctlyStill(ds, ds');
    if f in Link(ds') {
      k := LinkedFrom(ds', f);
    } else {
      k := LinkedFrom(ds, f);
    }
    LinkAt(ds, k);
    LinkAt(ds', k);
  }

  /** The linked instrumented modules report as the interpreter traces the linked original modules
      under the listing's numbers. */
  lemma ListingInstruments(ds: seq<Symbol>, ds': seq<Symbol>, t: Machine, s: Machine)
    requires DistinctlyNamed(ds) && ds' == Instrumented(ds, 1)
    requires forall k :: 0 <= k < |ds| ==> !IsDeclaration(ds[k]) && C.EntryNotTargeted(ds[k].function_.blocks)
    requires s.functions == Link(ds) && s.traced == Numbering(ds)
    requires t == s.(functions := Link(ds'), traced := map[])
    ensures C.Instruments(t, s)
  {
    forall f | f in Link(ds) || f in Link(ds') || f in Numbering(ds)
      ensures f in Link(ds) && f in Link(ds') && f in Numbering(ds)
      ensures Link(ds)[f].blocks != [] && C.EntryNotTargeted(Link(ds)[f].blocks)
      ensures Link(ds')[f] == Link(ds)[f].(blocks := C.InstrumentBlocks(Link(ds)[f].blocks, Numbering(ds)[f]))
    {
      var k := DefinitionInstrumented(ds, ds', f);
    }
    SameKeys(Link(ds), Link(ds'), Numbering(ds));
  }

  lemma SameKeys(p: Module, q: Module, numbers: map<string, nat>)
    requires forall f :: f in p || f in q || f in numbers ==> f in p && f in q && f in numbers && p[f].blocks != []
    ensures p.Keys == q.Keys && numbers.Keys == C.Defined(p)
  {
  }
}
