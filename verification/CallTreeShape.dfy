/** The finished call tree: what createCallTree returns, as a value and on the heap. */
module CallTreeShape {
  import opened Wrappers
  import opened CallTrace
  import opened CallForest
  import opened CallTreeBuilder

  datatype Tree = Tree(function_: Option<string>, index: nat, level: nat, children: seq<Tree>)

  function Roots(ts: seq<Tree>): (indices: seq<nat>)
    ensures |indices| == |ts| && forall k :: 0 <= k < |ts| ==> indices[k] == ts[k].index
  {
    seq(|ts|, k requires 0 <= k < |ts| => ts[k].index)
  }

  /** The tree is the mapping: every node hangs under its mapping entry, its level is its distance
      to the phony root, no child is missing, and children come in the order of the smallest
      function index below them. */
  ghost predicate Mirrors(m: seq<nat>, rank: seq<nat>, names: seq<Option<string>>, t: Tree)
    requires Forest(m, rank) && |names| == |m|
    decreases t
  {
    && (t.index == 0 || IsEntered(m, t.index))
    && t.function_ == names[t.index] && t.level == Level(m, rank, t.index)
    && Ordered(m, rank, t.index, Roots(t.children))
    && (forall f :: IsEntered(m, f) && Parent(m, f) == t.index ==> f in Roots(t.children))
    && (forall k :: 0 <= k < |t.children| ==> Mirrors(m, rank, names, t.children[k]))
  }

  /** More than every rank. */
  ghost function Bound(rank: seq<nat>): (bound: nat)
    ensures forall k :: 0 <= k < |rank| ==> rank[k] < bound
  {
    if rank == [] then 0
    else
      var rest := Bound(rank[..|rank| - 1]);
      if rank[|rank| - 1] < rest then rest else rank[|rank| - 1] + 1
  }

  ghost predicate Children(m: seq<nat>, kids: seq<seq<nat>>) {
    |kids| == |m| &&
    forall p, k :: 0 <= p < |m| && 0 <= k < |kids[p]| ==> IsEntered(m, kids[p][k]) && Parent(m, kids[p][k]) == p
  }

  ghost function Height(m: seq<nat>, rank: seq<nat>, f: nat): nat
    requires Forest(m, rank) && f < |m|
  {
    if f == 0 then Bound(rank) + 1 else Bound(rank) - rank[f]
  }

  /** The tree below `f` that child lists describe. */
  ghost function TreeOf(m: seq<nat>, rank: seq<nat>, names: seq<Option<string>>, kids: seq<seq<nat>>, f: nat): (t: Tree)
    requires Forest(m, rank) && |names| == |m| && Children(m, kids) && (f == 0 || IsEntered(m, f))
    ensures t.index == f
    decreases Height(m, rank, f)
  {
    Tree(names[f], f, Level(m, rank, f),
         seq(|kids[f]|, k requires 0 <= k < |kids[f]| =>
           assert Parent(m, kids[f][k]) == f;
           TreeOf(m, rank, names, kids, kids[f][k])))
  }

  ghost predicate Complete(m: seq<nat>, rank: seq<nat>, kids: seq<seq<nat>>)
    requires Forest(m, rank)
  {
    && Children(m, kids)
    && (forall p :: 0 <= p < |m| ==> Ordered(m, rank, p, kids[p]))
    && (forall f :: IsEntered(m, f) ==> Parent(m, f) < |m| && f in kids[Parent(m, f)])
  }

  lemma {:induction false} TreeOfMirrors(m: seq<nat>, rank: seq<nat>, names: seq<Option<string>>, kids: seq<seq<nat>>,
                                         f: nat)
    requires Forest(m, rank) && |names| == |m| && Complete(m, rank, kids) && (f == 0 || IsEntered(m, f))
    ensures Mirrors(m, rank, names, TreeOf(m, rank, names, kids, f))
    decreases Height(m, rank, f)
  {
    var t := TreeOf(m, rank, names, kids, f);
    assert Roots(t.children) == kids[f];
    forall k | 0 <= k < |t.children| ensures Mirrors(m, rank, names, t.children[k]) {
      assert Parent(m, kids[f][k]) == f;
      TreeOfMirrors(m, rank, names, kids, kids[f][k]);
    }
  }

  /** When all indices were filled in, everything entered is in the tree and the mapping is empty. */
  lemma {:induction false} FinalComplete(m: seq<nat>, rank: seq<nat>)
    requires Forest(m, rank)
    ensures var s := FillUpTo(m, rank, |m|);
      Complete(m, rank, s.kids) && forall f :: 0 <= f < |m| ==> s.mapping[f] == 0
  {
    FillUpToListed(m, rank, |m|);
  }

  // ---- The heap -------------------------------------------------------------------------------

  /** The heap node `n` is the root of `t`; all its nodes are in `footprint`. */
  ghost predicate Represents(n: CallTree, t: Tree, footprint: set<CallTree>)
    reads footprint
    decreases t
  {
    && n in footprint
    && n.function_ == t.function_ && n.functionsIndex == t.index && n.level == t.level
    && |n.children| == |t.children|
    && forall k :: 0 <= k < |t.children| ==> Represents(n.children[k], t.children[k], footprint)
  }

  function Names(functions: seq<CallTreeFunction>): (names: seq<Option<string>>)
    ensures |names| == |functions| && forall k :: 0 <= k < |functions| ==> names[k] == functions[k].function_
  {
    seq(|functions|, k requires 0 <= k < |functions| => functions[k].function_)
  }

  lemma {:induction false} HeapRepresents(m: seq<nat>, rank: seq<nat>, functions: seq<CallTreeFunction>, s: Progress,
                                          nodes: map<nat, CallTree>, f: nat)
    requires Forest(m, rank) && Heap(m, rank, functions, s, nodes) && Children(m, s.kids) && f in nodes
    ensures Represents(nodes[f], TreeOf(m, rank, Names(functions), s.kids, f), nodes.Values)
    decreases Height(m, rank, f)
  {
    assert NodeAt(m, rank, functions[f], NodesOf(nodes, s.kids[f]), nodes[f], f);
    var t := TreeOf(m, rank, Names(functions), s.kids, f);
    forall k | 0 <= k < |s.kids[f]| ensures Represents(nodes[f].children[k], t.children[k], nodes.Values) {
      assert Parent(m, s.kids[f][k]) == f;
      HeapRepresents(m, rank, functions, s, nodes, s.kids[f][k]);
    }
  }

  lemma SameNames(before: seq<CallTreeFunction>, after: seq<CallTreeFunction>, s: Progress, s': Progress)
    requires |before| == |s.mapping| == |s'.mapping| && Untouched(before, after, s, s')
    ensures Names(after) == Names(before)
  {
  }

  lemma FillUpToNext(m: seq<nat>, rank: seq<nat>, d: nat)
    requires Forest(m, rank) && 1 <= d < |m|
    ensures FillUpTo(m, rank, d + 1) == Fill(m, rank, FillUpTo(m, rank, d), d)
    ensures Partial(m, FillUpTo(m, rank, d + 1))
  {
  }

  /** The loop over all functions; index zero belongs to the phony root. */
  method FillAll(functions: seq<CallTreeFunction>, mapping: array<nat>, ghost m: seq<nat>, ghost rank: seq<nat>,
                 ghost phonyRoot: CallTree)
    returns (functions': seq<CallTreeFunction>, ghost nodes: map<nat, CallTree>)
    requires Forest(m, rank) && mapping[..] == m
    requires Heap(m, rank, functions, FillUpTo(m, rank, 0), map[0 := phonyRoot])
    modifies mapping, phonyRoot
    ensures mapping[..] == FillUpTo(m, rank, |m|).mapping && Names(functions') == Names(functions)
    ensures Heap(m, rank, functions', FillUpTo(m, rank, |m|), nodes) && nodes[0] == phonyRoot
  {
    hide NodeAt, Fill, FillUpTo, Untouched;
    functions', nodes := functions, map[0 := phonyRoot];
    ghost var s := FillUpTo(m, rank, 0);
    FillZero(m, rank);
    for index := 1 to |functions|
      invariant mapping[..] == s.mapping && s == FillUpTo(m, rank, index) && Partial(m, s)
      invariant Names(functions') == Names(functions)
      invariant Heap(m, rank, functions', s, nodes) && nodes[0] == phonyRoot
      invariant forall f :: f in nodes ==> f == 0 || fresh(nodes[f])
    {
      ghost var before := functions';
      functions', nodes := FillInCallTree(functions', mapping, index, m, rank, s, nodes);
      s := Fill(m, rank, s, index);
      FillUpToNext(m, rank, index);
      SameNames(before, functions', FillUpTo(m, rank, index), s);
    }
  }

  /** Builds the call tree of a recorded mapping and consumes the mapping. */
  method CreateCallTree(mapping: array<nat>, functions: seq<CallTreeFunction>, ghost rank: seq<nat>)
    returns (phonyRoot: CallTree, ghost t: Tree, ghost footprint: set<CallTree>)
    requires |functions| == mapping.Length && functions != []
    requires functions[0] == CallTreeFunction(None, null)
    requires Forest(mapping[..], rank)
    modifies mapping
    ensures Represents(phonyRoot, t, footprint) && t.index == 0
    ensures Mirrors(old(mapping[..]), rank, Names(functions), t)
    ensures forall f :: 0 <= f < mapping.Length ==> mapping[f] == 0
  {
    ghost var m := mapping[..];
    phonyRoot := new CallTree(None);
    var local := functions[0 := functions[0].(treeRoot := phonyRoot)];
    assert Names(local) == Names(functions);
    StartHeap(m, rank, local, FillUpTo(m, rank, 0), map[0 := phonyRoot]);
    ghost var nodes;
    local, nodes := FillAll(local, mapping, m, rank, phonyRoot);

    ghost var s := FillUpTo(m, rank, |m|);
    FinalComplete(m, rank);
    t := TreeOf(m, rank, Names(local), s.kids, 0);
    TreeOfMirrors(m, rank, Names(local), s.kids, 0);
    HeapRepresents(m, rank, local, s, nodes, 0);
    footprint := nodes.Values;
    forall f | 0 <= f < mapping.Length ensures mapping[f] == 0 {
      assert mapping[f] == mapping[..][f];
    }
  }

  lemma FillZero(m: seq<nat>, rank: seq<nat>)
    requires Forest(m, rank)
    ensures FillUpTo(m, rank, 1) == FillUpTo(m, rank, 0)
  {
  }

  lemma StartHeap(m: seq<nat>, rank: seq<nat>, functions: seq<CallTreeFunction>, s: Progress, nodes: map<nat, CallTree>)
    requires Forest(m, rank) && s == FillUpTo(m, rank, 0) && |functions| == |m| && nodes.Keys == {0}
    requires functions[0] == CallTreeFunction(nodes[0].function_, nodes[0])
    requires nodes[0].functionsIndex == 0 && nodes[0].level == 0 && nodes[0].children == []
    ensures Heap(m, rank, functions, s, nodes)
  {
  }
}
