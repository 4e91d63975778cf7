/**
 The offline half of the dynamic call tree: a recursive builder that consumes the mapping and
 grows a tree of heap nodes.
 */
module CallTreeBuilder {
  import opened Wrappers
  import opened CallTrace
  import opened CallForest

  // ---- The builder on values -----------------------------------------------------------------

  /** What is left of the mapping, and the children attached so far to each function's node. */
  datatype Progress = Progress(mapping: seq<nat>, kids: seq<seq<nat>>)

  /** A function is done when its entry was consumed; only done functions have children. */
  ghost predicate Partial(m: seq<nat>, s: Progress) {
    && |s.mapping| == |s.kids| == |m|
    && (forall f :: 0 <= f < |m| ==> s.mapping[f] == m[f] || s.mapping[f] == 0)
    && (forall f :: 0 <= f < |m| && s.mapping[f] != 0 ==> s.kids[f] == [])
  }

  /** The recursion of fillInCallTree: the parent first, then the node, then its entry is cleared. */
  ghost function Fill(m: seq<nat>, rank: seq<nat>, s: Progress, f: nat): (s': Progress)
    requires Forest(m, rank) && Partial(m, s) && f < |m|
    ensures Partial(m, s') && s'.mapping[f] == 0
    ensures forall g :: 0 <= g < |m| && s'.mapping[g] != s.mapping[g] ==> f != 0 && rank[g] <= rank[f]
    ensures forall g :: 0 <= g < |m| && s.mapping[g] == 0 ==> s'.mapping[g] == 0
    decreases if f == 0 then 0 else rank[f] + 1
  {
    if s.mapping[f] == 0 then s
    else
      assert IsEntered(m, f);
      var p := Parent(m, f);
      var s1 := Fill(m, rank, s, p);
      Attach(s1, p, f)
  }

  function Attach(s: Progress, p: nat, f: nat): Progress
    requires p < |s.kids| && f < |s.mapping|
  {
    Progress(s.mapping[f := 0], s.kids[p := s.kids[p] + [f]])
  }

  /** The loop of createCallTree over the first `d` indices. */
  ghost function FillUpTo(m: seq<nat>, rank: seq<nat>, d: nat): (s: Progress)
    requires Forest(m, rank) && d <= |m|
    ensures Partial(m, s)
    ensures forall f :: 0 <= f < d ==> s.mapping[f] == 0
  {
    if d == 0 then Progress(m, seq(|m|, _ => [])) else Fill(m, rank, FillUpTo(m, rank, d - 1), d - 1)
  }

  ghost predicate IsDone(m: seq<nat>, s: Progress, f: nat)
    requires |s.mapping| == |m|
  {
    IsEntered(m, f) && s.mapping[f] == 0
  }

  /** Exactly the done functions are listed under their parents, parents first. */
  ghost predicate Members(m: seq<nat>, s: Progress)
    requires Partial(m, s)
  {
    && (forall p, k :: 0 <= p < |m| && 0 <= k < |s.kids[p]| ==>
          IsDone(m, s, s.kids[p][k]) && Parent(m, s.kids[p][k]) == p)
    && (forall f :: IsDone(m, s, f) ==>
          && Parent(m, f) < |m|
          && f in s.kids[Parent(m, f)]
          && (Parent(m, f) == 0 || IsDone(m, s, Parent(m, f))))
  }

  ghost predicate OrderedLists(m: seq<nat>, rank: seq<nat>, s: Progress)
    requires Forest(m, rank) && Partial(m, s)
  {
    forall p :: 0 <= p < |m| ==> Ordered(m, rank, p, s.kids[p])
  }

  ghost predicate Listed(m: seq<nat>, rank: seq<nat>, s: Progress)
    requires Forest(m, rank) && Partial(m, s)
  {
    Members(m, s) && OrderedLists(m, rank, s)
  }

  /** The builder works on index `d`: smaller subtrees are done, larger ones untouched. */
  ghost predicate Working(m: seq<nat>, rank: seq<nat>, s: Progress, d: nat)
    requires Forest(m, rank) && Partial(m, s)
  {
    forall f :: IsEntered(m, f) ==>
      if IsDone(m, s, f) then Smallest(m, rank, f) <= d else Smallest(m, rank, f) >= d
  }

  lemma OrderedSnoc(m: seq<nat>, rank: seq<nat>, p: nat, cs: seq<nat>, f: nat)
    requires Forest(m, rank) && Ordered(m, rank, p, cs) && IsEntered(m, f) && Parent(m, f) == p
    requires forall k :: 0 <= k < |cs| ==> Smallest(m, rank, cs[k]) < Smallest(m, rank, f)
    ensures Ordered(m, rank, p, cs + [f])
  {
  }

  /** Whatever was attached before a node on the chain of `d` has a smaller index below it. */
  lemma EarlierSibling(m: seq<nat>, rank: seq<nat>, s: Progress, d: nat, f: nat, c: nat)
    requires Forest(m, rank) && Partial(m, s) && Working(m, rank, s, d)
    requires IsEntered(m, d) && IsEntered(m, f) && Above(m, rank, f, d) && !IsDone(m, s, f)
    requires IsDone(m, s, c) && Parent(m, c) == Parent(m, f)
    ensures Smallest(m, rank, c) < Smallest(m, rank, f) == d
  {
    SmallestFacts(m, rank, f, d);
    SmallestFacts(m, rank, c, d);
    if Smallest(m, rank, c) == d {
      SiblingsApart(m, rank, c, f, d);
    }
  }

  lemma AttachMembers(m: seq<nat>, s: Progress, f: nat)
    requires Partial(m, s) && Members(m, s) && 0 < f && IsEntered(m, f) && !IsDone(m, s, f)
    requires Parent(m, f) < |m| && (Parent(m, f) == 0 || IsDone(m, s, Parent(m, f))) && m[0] == 0
    requires forall g :: IsEntered(m, g) ==> Parent(m, g) < |m|
    ensures var s' := Attach(s, Parent(m, f), f);
      && Partial(m, s') && Members(m, s')
      && forall g :: IsDone(m, s', g) <==> IsDone(m, s, g) || g == f
  {
    var p := Parent(m, f);
    var s' := Attach(s, p, f);
    forall g | IsDone(m, s', g) ensures g in s'.kids[Parent(m, g)] {
      if g == f {
        assert s'.kids[p][|s.kids[p]|] == f;
      } else if Parent(m, g) == p {
        var k :| 0 <= k < |s.kids[p]| && s.kids[p][k] == g;
        assert s'.kids[p][k] == g;
      }
    }
  }

  lemma {:induction false} AttachOrdered(m: seq<nat>, rank: seq<nat>, s: Progress, d: nat, f: nat)
    requires Forest(m, rank) && Partial(m, s) && Listed(m, rank, s) && Working(m, rank, s, d)
    requires IsEntered(m, d) && 0 < f && IsEntered(m, f) && Above(m, rank, f, d) && !IsDone(m, s, f)
    requires Partial(m, Attach(s, Parent(m, f), f))
    ensures OrderedLists(m, rank, Attach(s, Parent(m, f), f))
  {
    var p := Parent(m, f);
    forall k | 0 <= k < |s.kids[p]| ensures Smallest(m, rank, s.kids[p][k]) < Smallest(m, rank, f) {
      EarlierSibling(m, rank, s, d, f, s.kids[p][k]);
    }
    OrderedSnoc(m, rank, p, s.kids[p], f);
  }

  /** Attaching a node on the chain of `d`, once its parent is there, keeps the lists ordered. */
  lemma {:induction false} AttachListed(m: seq<nat>, rank: seq<nat>, s: Progress, d: nat, f: nat)
    requires Forest(m, rank) && Partial(m, s) && Listed(m, rank, s) && Working(m, rank, s, d)
    requires IsEntered(m, d) && 0 < f && IsEntered(m, f) && Above(m, rank, f, d) && !IsDone(m, s, f)
    requires Parent(m, f) == 0 || IsDone(m, s, Parent(m, f))
    ensures var s' := Attach(s, Parent(m, f), f);
      Partial(m, s') && Listed(m, rank, s') && Working(m, rank, s', d)
  {
    AttachMembers(m, s, f);
    AttachOrdered(m, rank, s, d, f);
    SmallestFacts(m, rank, f, d);
  }

  /** Filling in a function on the chain of `d` keeps the lists ordered. */
  lemma {:induction false} FillListed(m: seq<nat>, rank: seq<nat>, s: Progress, d: nat, f: nat)
    requires Forest(m, rank) && Partial(m, s) && Listed(m, rank, s) && Working(m, rank, s, d) && f < |m|
    requires IsEntered(m, d) && (IsEntered(m, f) ==> Above(m, rank, f, d))
    ensures Listed(m, rank, Fill(m, rank, s, f)) && Working(m, rank, Fill(m, rank, s, f), d)
    decreases if f == 0 then 0 else rank[f] + 1
  {
    if s.mapping[f] != 0 {
      var p := Parent(m, f);
      if p != 0 {
        AboveTransitive(m, rank, p, f, d);
      }
      FillListed(m, rank, s, d, p);
      AttachListed(m, rank, Fill(m, rank, s, p), d, f);
    }
  }

  lemma {:induction false} ChainDone(m: seq<nat>, rank: seq<nat>, s: Progress, a: nat, f: nat)
    requires Forest(m, rank) && Partial(m, s) && Listed(m, rank, s)
    requires IsDone(m, s, f) && Above(m, rank, a, f)
    ensures IsDone(m, s, a)
    decreases rank[f]
  {
    if a != f {
      ChainDone(m, rank, s, a, m[f]);
    }
  }

  /** The functions done before `d` are those with an index below `d` in their subtree. */
  ghost predicate DoneBelow(m: seq<nat>, rank: seq<nat>, s: Progress, d: nat)
    requires Forest(m, rank) && Partial(m, s)
  {
    forall f :: IsEntered(m, f) ==> (IsDone(m, s, f) <==> Smallest(m, rank, f) < d)
  }

  lemma DoneAt(m: seq<nat>, rank: seq<nat>, s: Progress, d: nat, f: nat)
    requires Forest(m, rank) && Partial(m, s) && Listed(m, rank, s) && IsEntered(m, f)
    requires IsDone(m, s, f) ==> Smallest(m, rank, f) <= d
    requires Smallest(m, rank, f) < d ==> IsDone(m, s, f)
    requires IsEntered(m, d) ==> IsDone(m, s, d)
    requires !IsEntered(m, d) && IsDone(m, s, f) ==> Smallest(m, rank, f) < d
    ensures IsDone(m, s, f) <==> Smallest(m, rank, f) < d + 1
  {
    SmallestFacts(m, rank, f, d);
    if Smallest(m, rank, f) == d {
      ChainDone(m, rank, s, f, d);
    }
  }

  lemma {:induction false} FillDoneBelow(m: seq<nat>, rank: seq<nat>, s: Progress, d: nat)
    requires Forest(m, rank) && Partial(m, s) && Listed(m, rank, s) && DoneBelow(m, rank, s, d) && d < |m|
    ensures Listed(m, rank, Fill(m, rank, s, d)) && DoneBelow(m, rank, Fill(m, rank, s, d), d + 1)
  {
    var s' := Fill(m, rank, s, d);
    if m[d] != 0 {
      FillListed(m, rank, s, d, d);
    }
    forall f | IsEntered(m, f) ensures IsDone(m, s', f) <==> Smallest(m, rank, f) < d + 1 {
      DoneAt(m, rank, s', d, f);
    }
  }

  /** After the first `d` indices, the done functions are those with an index below `d` in their
      subtree, and every node lists its children by the smallest index below them. */
  lemma {:induction false} FillUpToListed(m: seq<nat>, rank: seq<nat>, d: nat)
    requires Forest(m, rank) && d <= |m|
    ensures Listed(m, rank, FillUpTo(m, rank, d)) && DoneBelow(m, rank, FillUpTo(m, rank, d), d)
  {
    if d > 0 {
      var s := FillUpTo(m, rank, d - 1);
      FillUpToListed(m, rank, d - 1);
      FillDoneBelow(m, rank, s, d - 1);
      assert FillUpTo(m, rank, d) == Fill(m, rank, s, d - 1);
    } else {
      NothingDone(m, rank, Progress(m, seq(|m|, _ => [])));
    }
  }

  lemma NothingDone(m: seq<nat>, rank: seq<nat>, s: Progress)
    requires Forest(m, rank) && s == Progress(m, seq(|m|, _ => []))
    ensures Partial(m, s) && Listed(m, rank, s) && DoneBelow(m, rank, s, 0)
  {
  }

  // ---- The builder on the heap ---------------------------------------------------------------

  /** `None` is the null function of the phony root. */
  class CallTree {
    const function_: Option<string>
    var level: nat
    var functionsIndex: nat
    var children: seq<CallTree>

    constructor (function_: Option<string>)
      ensures this.function_ == function_ && level == 0 && functionsIndex == 0 && children == []
    {
      this.function_ := function_;
      level, functionsIndex, children := 0, 0, [];
    }
  }

  datatype CallTreeFunction = CallTreeFunction(function_: Option<string>, treeRoot: CallTree?)

  /** The nodes of the listed functions. */
  ghost function NodesOf(nodes: map<nat, CallTree>, cs: seq<nat>): (children: seq<CallTree>)
    requires forall k :: 0 <= k < |cs| ==> cs[k] in nodes
    ensures |children| == |cs| && forall k :: 0 <= k < |cs| ==> children[k] == nodes[cs[k]]
  {
    seq(|cs|, k requires 0 <= k < |cs| => nodes[cs[k]])
  }

  /** One heap node per done function and one for the phony root, shaped like `s.kids`; a node
      knows its index, so no two functions share one. */
  ghost predicate Heap(m: seq<nat>, rank: seq<nat>, functions: seq<CallTreeFunction>, s: Progress,
                       nodes: map<nat, CallTree>)
    requires Forest(m, rank)
    reads nodes.Values
  {
    && |functions| == |s.kids| == |s.mapping| == |m|
    && 0 in nodes
    && (forall f :: 0 < f < |m| ==> (f in nodes <==> m[f] != 0 && s.mapping[f] == 0))
    && (forall f :: f in nodes ==> f < |m|)
    && (forall f, k :: 0 <= f < |m| && 0 <= k < |s.kids[f]| ==> s.kids[f][k] in nodes)
    && (forall f :: f in nodes ==> NodeAt(m, rank, functions[f], NodesOf(nodes, s.kids[f]), nodes[f], f))
  }

  ghost predicate NodeAt(m: seq<nat>, rank: seq<nat>, function_: CallTreeFunction, children: seq<CallTree>,
                         node: CallTree, f: nat)
    requires Forest(m, rank) && (f == 0 || IsEntered(m, f))
    reads node
  {
    && function_.treeRoot == node && function_.function_ == node.function_
    && node.functionsIndex == f && node.level == Level(m, rank, f) && node.children == children
  }

  /** Hangs the finished node under its parent's. */
  method LinkNode(root: CallTree, node: CallTree, functionIndex: nat, ghost parent: nat,
                  ghost m: seq<nat>, ghost rank: seq<nat>, ghost functions: seq<CallTreeFunction>,
                  ghost s: Progress, ghost nodes: map<nat, CallTree>)
    requires Forest(m, rank) && IsEntered(m, functionIndex) && functionIndex > 0
    requires parent == Parent(m, functionIndex) && parent in nodes && root == nodes[parent]
    requires Heap(m, rank, functions, s, nodes) && functionIndex !in nodes && s.kids[functionIndex] == []
    requires node !in nodes.Values && functions[functionIndex] == CallTreeFunction(node.function_, node)
    requires node.children == []
    modifies node, root
    ensures Heap(m, rank, functions, Attach(s, parent, functionIndex), nodes[functionIndex := node])
  {
    assert Level(m, rank, functionIndex) == Level(m, rank, parent) + 1;
    node.level := root.level + 1;
    node.functionsIndex := functionIndex;
    root.children := root.children + [node];

    ghost var kids' := Attach(s, parent, functionIndex).kids;
    ghost var nodes' := nodes[functionIndex := node];
    forall f | f in nodes'
      ensures NodeAt(m, rank, functions[f], NodesOf(nodes', kids'[f]), nodes'[f], f)
    {
      if f == parent {
        assert NodesOf(nodes', kids'[f]) == NodesOf(nodes, s.kids[f]) + [node];
      } else if f != functionIndex {
        assert nodes[f] != root;
        assert NodesOf(nodes', kids'[f]) == NodesOf(nodes, s.kids[f]);
      }
    }
  }

  /** The heap does not look at functions that have no node. */
  lemma HeapUpdate(m: seq<nat>, rank: seq<nat>, functions: seq<CallTreeFunction>, s: Progress,
                   nodes: map<nat, CallTree>, f: nat, function_: CallTreeFunction)
    requires Forest(m, rank) && Heap(m, rank, functions, s, nodes) && f < |functions| && f !in nodes
    ensures Heap(m, rank, functions[f := function_], s, nodes)
  {
  }

  /** Only the roots of newly done functions were set. */
  ghost predicate Untouched(before: seq<CallTreeFunction>, after: seq<CallTreeFunction>, s: Progress, s': Progress)
    requires |before| == |s.mapping| == |s'.mapping|
  {
    && |after| == |before|
    && (forall f :: 0 <= f < |before| ==> after[f].function_ == before[f].function_)
    && (forall f :: 0 <= f < |before| && s'.mapping[f] == s.mapping[f] ==> after[f] == before[f])
  }

  lemma UntouchedAttach(functions0: seq<CallTreeFunction>, functions1: seq<CallTreeFunction>,
                        functions2: seq<CallTreeFunction>, s: Progress, s1: Progress, p: nat, f: nat, node: CallTree)
    requires |functions0| == |s.mapping| == |s1.mapping| && p < |s1.kids| && f < |functions0|
    requires functions1 == functions0[f := functions0[f].(treeRoot := node)]
    requires Untouched(functions1, functions2, s, s1) && s1.mapping[f] == s.mapping[f] != 0
    ensures Untouched(functions0, functions2, s, Attach(s1, p, f))
    ensures functions2[f] == CallTreeFunction(functions0[f].function_, node)
  {
  }

  /** Looks up the parent's node, hangs the new node under it and clears the entry. */
  method FinishNode(functions: seq<CallTreeFunction>, callTreeMapping: array<nat>, functionIndex: nat, parent: nat,
                    node: CallTree, ghost m: seq<nat>, ghost rank: seq<nat>, ghost s: Progress,
                    ghost nodes: map<nat, CallTree>)
    requires Forest(m, rank) && IsEntered(m, functionIndex) && parent == Parent(m, functionIndex) && parent in nodes
    requires Heap(m, rank, functions, s, nodes) && callTreeMapping[..] == s.mapping
    requires 0 < functionIndex && functionIndex !in nodes && s.kids[functionIndex] == []
    requires functions[functionIndex] == CallTreeFunction(node.function_, node)
    requires node !in nodes.Values && node.children == []
    modifies callTreeMapping, node, nodes[parent]
    ensures callTreeMapping[..] == Attach(s, parent, functionIndex).mapping
    ensures Heap(m, rank, functions, Attach(s, parent, functionIndex), nodes[functionIndex := node])
  {
    var root := functions[parent];
    assert root.treeRoot == nodes[parent];
    LinkNode(root.treeRoot, node, functionIndex, parent, m, rank, functions, s, nodes);
    callTreeMapping[functionIndex] := 0;
  }

  /** Builds the node of `functionIndex` below its parent's, which it builds first. It terminates
      because parents rank below their children, and the parent's node always exists when it is
      looked up. The vector of functions is passed along. */
  method FillInCallTree(functions: seq<CallTreeFunction>, callTreeMapping: array<nat>, functionIndex: nat,
                        ghost m: seq<nat>, ghost rank: seq<nat>, ghost s: Progress, ghost nodes: map<nat, CallTree>)
    returns (functions': seq<CallTreeFunction>, ghost nodes': map<nat, CallTree>)
    requires Forest(m, rank) && functionIndex < |m| && Partial(m, s) && callTreeMapping[..] == s.mapping
    requires Heap(m, rank, functions, s, nodes)
    modifies callTreeMapping, nodes.Values
    ensures callTreeMapping[..] == Fill(m, rank, s, functionIndex).mapping
    ensures Heap(m, rank, functions', Fill(m, rank, s, functionIndex), nodes')
    ensures Untouched(functions, functions', s, Fill(m, rank, s, functionIndex))
    ensures forall f :: f in nodes ==> f in nodes' && nodes'[f] == nodes[f]
    ensures forall f :: f in nodes' && f !in nodes ==> fresh(nodes'[f])
    decreases if functionIndex == 0 then 0 else rank[functionIndex] + 1, 1
  {
    hide NodeAt;
    functions', nodes' := functions, nodes;
    var parent := callTreeMapping[functionIndex];
    if parent == 0 {
      return;
    }
    if parent == functionIndex {
      parent := 0;
    }
    assert IsEntered(m, functionIndex);
    var node;
    functions', node, nodes' := BuildParent(functions, callTreeMapping, functionIndex, parent, m, rank, s, nodes);
    FinishNode(functions', callTreeMapping, functionIndex, parent, node, m, rank, Fill(m, rank, s, parent), nodes');
    nodes' := nodes'[functionIndex := node];
  }

  /** The new node, remembered as the root of its function, and then the parent's node. */
  method BuildParent(functions: seq<CallTreeFunction>, callTreeMapping: array<nat>, functionIndex: nat, parent: nat,
                     ghost m: seq<nat>, ghost rank: seq<nat>, ghost s: Progress, ghost nodes: map<nat, CallTree>)
    returns (functions': seq<CallTreeFunction>, node: CallTree, ghost nodes': map<nat, CallTree>)
    requires Forest(m, rank) && 0 < functionIndex < |m| && Partial(m, s) && callTreeMapping[..] == s.mapping
    requires IsEntered(m, functionIndex) && s.mapping[functionIndex] != 0 && parent == Parent(m, functionIndex)
    requires Heap(m, rank, functions, s, nodes)
    modifies callTreeMapping, nodes.Values
    ensures callTreeMapping[..] == Fill(m, rank, s, parent).mapping
    ensures Heap(m, rank, functions', Fill(m, rank, s, parent), nodes')
    ensures Untouched(functions, functions', s, Attach(Fill(m, rank, s, parent), parent, functionIndex))
    ensures forall f :: f in nodes ==> f in nodes' && nodes'[f] == nodes[f]
    ensures forall f :: f in nodes' && f !in nodes ==> fresh(nodes'[f])
    ensures fresh(node) && node !in nodes'.Values && node.children == []
    ensures functions'[functionIndex] == CallTreeFunction(node.function_, node)
    decreases rank[functionIndex] + 1, 0
  {
    node := new CallTree(functions[functionIndex].function_);
    functions' := functions[functionIndex := functions[functionIndex].(treeRoot := node)];
    ghost var functions1 := functions';
    HeapUpdate(m, rank, functions, s, nodes, functionIndex, functions1[functionIndex]);
    functions', nodes' := FillInCallTree(functions', callTreeMapping, parent, m, rank, s, nodes);
    UntouchedAttach(functions, functions1, functions', s, Fill(m, rank, s, parent), parent, functionIndex, node);
  }
}
