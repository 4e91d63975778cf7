/** From a recorded mapping to the functions a test reaches, with their distances. */
module TestSubtrees {
  import opened Wrappers
  import opened CallTrace
  import opened CallForest
  import opened CallTreeBuilder
  import opened CallTreeShape
  import opened Reachability

  datatype ReachableFunction = ReachableFunction(function_: Option<string>, distance: int)

  // ---- The two searches ------------------------------------------------------------------------

  ghost predicate RepresentsAll(nodes: seq<CallTree>, ts: seq<Tree>, footprint: set<CallTree>)
    reads footprint
  {
    |nodes| == |ts| && forall k :: 0 <= k < |ts| ==> Represents(nodes[k], ts[k], footprint)
  }

  function Matching(ts: seq<Tree>, body: string): seq<Tree> {
    if ts == [] then []
    else (if ts[0].function_ == Some(body) then [ts[0]] else []) + Matching(ts[1..], body)
  }

  lemma MatchingCons(trees: seq<Tree>, t: Tree, ts: seq<Tree>, body: string)
    ensures trees + Matching([t] + ts, body)
         == (if t.function_ == Some(body) then trees + [t] else trees) + Matching(ts, body)
  {
  }

  lemma BfsStep(queue: seq<Tree>, limit: Option<int>)
    requires queue != []
    ensures var rest := queue[1..] + Pushed(queue[0], limit);
      Size(rest) < Size(queue) && Bfs(queue, limit) == [queue[0]] + Bfs(rest, limit)
  {
    SizeAppend(queue[1..], Pushed(queue[0], limit));
    Shrinks(queue[0], limit);
  }

  lemma Shrinks(t: Tree, limit: Option<int>)
    ensures Size(Pushed(t, limit)) <= Size(t.children)
  {
  }

  /** Taking the first node off a queue, with or without its children behind. */
  lemma RepresentsStep(nodes: seq<CallTree>, queue: seq<Tree>, footprint: set<CallTree>)
    requires RepresentsAll(nodes, queue, footprint) && nodes != []
    ensures queue != [] && nodes[0].function_ == queue[0].function_ && nodes[0].level == queue[0].level
    ensures Represents(nodes[0], queue[0], footprint)
    ensures RepresentsAll(nodes[1..], queue[1..], footprint)
    ensures RepresentsAll(nodes[1..] + nodes[0].children, queue[1..] + queue[0].children, footprint)
  {
  }

  /** Walks the whole tree and keeps the nodes of the test body. */
  method ExtractTestSubtrees(root: CallTree, testBody: string, ghost t: Tree, ghost footprint: set<CallTree>)
    returns (subtrees: seq<CallTree>)
    requires Represents(root, t, footprint)
    ensures RepresentsAll(subtrees, Matching(Bfs([t], None), testBody), footprint)
  {
    subtrees := [];
    var nodes := [root];
    ghost var trees: seq<Tree> := [];
    ghost var queue := [t];
    ghost var todo := Bfs(queue, None);
    ghost var result := Matching(todo, testBody);
    while nodes != []
      invariant RepresentsAll(nodes, queue, footprint) && RepresentsAll(subtrees, trees, footprint)
      invariant todo == Bfs(queue, None)
      invariant trees + Matching(todo, testBody) == result
      decreases Size(queue)
    {
      var node := nodes[0];
      nodes := nodes[1..];
      assert Represents(node, queue[0], footprint);
      BfsStep(queue, None);
      ghost var rest := todo[1..];
      assert todo == [queue[0]] + rest && rest == Bfs(queue[1..] + Pushed(queue[0], None), None);
      MatchingCons(trees, queue[0], rest, testBody);
      if node.function_ == Some(testBody) {
        subtrees := subtrees + [node];
        trees := trees + [queue[0]];
      }
      nodes := nodes + node.children;
      queue := queue[1..] + Pushed(queue[0], None);
      todo := rest;
    }
    assert trees == result;
  }

  function Reached(ts: seq<Tree>, offset: int): (reached: seq<ReachableFunction>)
    ensures |reached| == |ts|
    ensures forall k :: 0 <= k < |ts| ==> reached[k] == ReachableFunction(ts[k].function_, ts[k].level - offset)
  {
    seq(|ts|, k requires 0 <= k < |ts| => ReachableFunction(ts[k].function_, ts[k].level - offset))
  }

  ghost function ReachedFromAll(trees: seq<Tree>, maxDistance: int): seq<ReachableFunction> {
    if trees == [] then []
    else
      var root := trees[|trees| - 1];
      ReachedFromAll(trees[..|trees| - 1], maxDistance)
      + Reached(Bfs([root], Some(root.level + maxDistance)), root.level)
  }

  /** Subtrees are extracted and walked in order, each one by itself. */
  lemma {:induction false} SearchesSplit(ts: seq<Tree>, us: seq<Tree>, body: string, maxDistance: int)
    ensures Matching(ts + us, body) == Matching(ts, body) + Matching(us, body)
    ensures ReachedFromAll(ts + us, maxDistance) == ReachedFromAll(ts, maxDistance) + ReachedFromAll(us, maxDistance)
  {
    MatchingSplit(ts, us, body);
    ReachedSplit(ts, us, maxDistance);
  }

  lemma {:induction false} ReachedSplit(ts: seq<Tree>, us: seq<Tree>, maxDistance: int)
    ensures ReachedFromAll(ts + us, maxDistance) == ReachedFromAll(ts, maxDistance) + ReachedFromAll(us, maxDistance)
    decreases |us|
  {
    hide Bfs, Reached;
    if us == [] {
      assert ts + us == ts;
    } else {
      var (before, u) := (us[..|us| - 1], us[|us| - 1]);
      ReachedSplit(ts, before, maxDistance);
      assert ts + us == (ts + before) + [u] && (ts + us)[..|ts + us| - 1] == ts + before;
      var last := Reached(Bfs([u], Some(u.level + maxDistance)), u.level);
      assert ReachedFromAll(ts + us, maxDistance) == ReachedFromAll(ts + before, maxDistance) + last;
      assert ReachedFromAll(us, maxDistance) == ReachedFromAll(before, maxDistance) + last;
    }
  }

  lemma {:induction false} MatchingSplit(ts: seq<Tree>, us: seq<Tree>, body: string)
    ensures Matching(ts + us, body) == Matching(ts, body) + Matching(us, body)
  {
    if ts == [] {
      assert ts + us == us;
    } else {
      MatchingSplit(ts[1..], us, body);
      assert (ts + us)[1..] == ts[1..] + us;
    }
  }

  /** Walks every subtree down to the maximal distance. */
  method CreateReachableFunctions(subtrees: seq<CallTree>, maxDistance: int,
                                  ghost trees: seq<Tree>, ghost footprint: set<CallTree>)
    returns (reachableFunctions: seq<ReachableFunction>)
    requires RepresentsAll(subtrees, trees, footprint)
    ensures reachableFunctions == ReachedFromAll(trees, maxDistance)
  {
    reachableFunctions := [];
    for i := 0 to |subtrees|
      invariant reachableFunctions == ReachedFromAll(trees[..i], maxDistance)
    {
      assert trees[..i + 1][..i] == trees[..i];
      reachableFunctions := WalkSubtree(subtrees[i], maxDistance, trees[i], footprint, reachableFunctions);
    }
    assert trees[..|subtrees|] == trees;
  }

  lemma ReachedCons(storage: seq<ReachableFunction>, t: Tree, ts: seq<Tree>, offset: int)
    ensures storage + Reached([t] + ts, offset)
         == (storage + [ReachableFunction(t.function_, t.level - offset)]) + Reached(ts, offset)
  {
    assert Reached([t] + ts, offset) == [ReachableFunction(t.function_, t.level - offset)] + Reached(ts, offset);
  }

  /** The inner loop of the walk. */
  method WalkSubtree(root: CallTree, maxDistance: int, ghost t: Tree, ghost footprint: set<CallTree>,
                     storage: seq<ReachableFunction>)
    returns (reachableFunctions: seq<ReachableFunction>)
    requires Represents(root, t, footprint)
    ensures reachableFunctions == storage + Reached(Bfs([t], Some(t.level + maxDistance)), t.level)
  {
    reachableFunctions := storage;
    var offset := root.level;
    ghost var limit := Some(t.level + maxDistance);
    var nodes := [root];
    ghost var queue := [t];
    ghost var todo := Bfs(queue, limit);
    ghost var result := storage + Reached(todo, t.level);
    while nodes != []
      invariant RepresentsAll(nodes, queue, footprint) && todo == Bfs(queue, limit)
      invariant reachableFunctions + Reached(todo, t.level) == result
      decreases Size(queue)
    {
      RepresentsStep(nodes, queue, footprint);
      var node := nodes[0];
      nodes := nodes[1..];
      var distance := node.level - offset;
      BfsStep(queue, limit);
      ghost var rest := todo[1..];
      assert todo == [queue[0]] + rest && rest == Bfs(queue[1..] + Pushed(queue[0], limit), limit);
      ReachedCons(reachableFunctions, queue[0], rest, t.level);
      reachableFunctions := reachableFunctions + [ReachableFunction(node.function_, distance)];
      if distance < maxDistance {
        nodes := nodes + node.children;
      }
      queue := queue[1..] + Pushed(queue[0], limit);
      todo := rest;
    }
  }

  // ---- What the searches find ------------------------------------------------------------------

  /** Recorded functions are distinct, and none is the phony root's null function. */
  predicate DistinctNames(names: seq<Option<string>>) {
    && (forall f :: 0 < f < |names| ==> names[f] != None)
    && (forall f, g :: 0 <= f < g < |names| ==> names[f] != names[g])
  }

  lemma {:induction false} ListedAt(ts: seq<Tree>, k: nat, limit: int)
    requires k < |ts| && ts[k].level <= limit
    ensures Occurrences(ts, ts[k].index, limit) >= 1
  {
    if k > 0 {
      ListedAt(ts[1..], k - 1, limit);
    }
  }

  lemma {:induction false} ListedTwice(ts: seq<Tree>, j: nat, k: nat, limit: int)
    requires j < k < |ts| && ts[k].level <= limit && ts[j].level <= limit && ts[j].index == ts[k].index
    ensures Occurrences(ts, ts[k].index, limit) >= 2
  {
    if j > 0 {
      ListedTwice(ts[1..], j - 1, k - 1, limit);
    } else {
      ListedAt(ts[1..], k - 1, limit);
    }
  }

  lemma {:induction false} ListedSome(ts: seq<Tree>, f: nat, limit: int) returns (k: nat)
    requires Occurrences(ts, f, limit) >= 1
    ensures k < |ts| && ts[k].index == f && ts[k].level <= limit
  {
    if ts[0].index == f && ts[0].level <= limit {
      k := 0;
    } else {
      k := ListedSome(ts[1..], f, limit);
      k := k + 1;
    }
  }

  lemma {:induction false} MatchingOne(ts: seq<Tree>, body: string, k: nat)
    requires k < |ts| && ts[k].function_ == Some(body)
    requires forall j :: 0 <= j < |ts| && j != k ==> ts[j].function_ != Some(body)
    ensures Matching(ts, body) == [ts[k]]
  {
    if k > 0 {
      MatchingOne(ts[1..], body, k - 1);
    } else {
      MatchingNone(ts[1..], body);
    }
  }

  lemma {:induction false} MatchingNone(ts: seq<Tree>, body: string)
    requires forall j :: 0 <= j < |ts| ==> ts[j].function_ != Some(body)
    ensures Matching(ts, body) == []
  {
    if ts != [] {
      MatchingNone(ts[1..], body);
    }
  }

  /** Two nodes of the whole tree never stand for the same function. */
  lemma {:induction false} BfsApart(m: seq<nat>, rank: seq<nat>, names: seq<Option<string>>, t: Tree, ts: seq<Tree>,
                                    j: nat, k: nat)
    requires Forest(m, rank) && |names| == |m| && Mirrors(m, rank, names, t) && t.index == 0
    requires ts == Bfs([t], None) && j < |ts| && k < |ts| && j != k
    ensures ts[j].index != ts[k].index
  {
    BfsNodes(m, rank, names, [t], None);
    if ts[j].index == ts[k].index {
      var f := ts[k].index;
      var limit := Level(m, rank, f);
      if j < k {
        ListedTwice(ts, j, k, limit);
      } else {
        ListedTwice(ts, k, j, limit);
      }
      MirrorsLevelled(m, rank, names, t);
      BfsCounts([t], None, f, limit);
      CallTreeCount(m, rank, names, t, f, limit);
    }
  }

  /** The node of an entered function is among the nodes of the tree. */
  lemma {:induction false} BfsFinds(m: seq<nat>, rank: seq<nat>, names: seq<Option<string>>, t: Tree, ts: seq<Tree>,
                                    b: nat)
    returns (k: nat)
    requires Forest(m, rank) && |names| == |m| && Mirrors(m, rank, names, t) && t.index == 0
    requires ts == Bfs([t], None) && IsEntered(m, b)
    ensures k < |ts| && ts[k].index == b
  {
    var limit := Level(m, rank, b);
    MirrorsLevelled(m, rank, names, t);
    BfsCounts([t], None, b, limit);
    CallTreeCount(m, rank, names, t, b, limit);
    k := ListedSome(ts, b, limit);
  }

  /** Among distinctly named nodes, the test body's is the one with its index. */
  lemma BodyNode(m: seq<nat>, names: seq<Option<string>>, t: Tree, b: nat, body: string)
    requires |names| == |m| && DistinctNames(names) && 0 < b < |m| && names[b] == Some(body)
    requires t.index < |m| && t.function_ == names[t.index]
    ensures t.function_ == Some(body) <==> t.index == b
  {
  }

  /** At most one subtree is extracted: the one of the test body, if it was entered. */
  lemma {:induction false} OneSubtree(m: seq<nat>, rank: seq<nat>, names: seq<Option<string>>, t: Tree, b: nat,
                                      body: string,
                                      ts: seq<Tree>)
    returns (subtree: Tree)
    requires Forest(m, rank) && |names| == |m| && DistinctNames(names)
    requires Mirrors(m, rank, names, t) && t.index == 0 && ts == Bfs([t], None)
    requires 0 < b < |m| && names[b] == Some(body)
    ensures !IsEntered(m, b) ==> Matching(ts, body) == []
    ensures IsEntered(m, b) ==>
      Matching(ts, body) == [subtree] && subtree.index == b && Mirrors(m, rank, names, subtree)
  {
    subtree := t;
    BfsMirrors(m, rank, names, [t], None);
    if IsEntered(m, b) {
      var k := BfsFinds(m, rank, names, t, ts, b);
      forall j | 0 <= j < |ts| ensures ts[j].function_ == Some(body) <==> j == k {
        BodyNode(m, names, ts[j], b, body);
        if j != k {
          BfsApart(m, rank, names, t, ts, j, k);
        }
      }
      MatchingOne(ts, body, k);
      subtree := ts[k];
    } else {
      forall j | 0 <= j < |ts| ensures ts[j].function_ != Some(body) {
        BodyNode(m, names, ts[j], b, body);
      }
      MatchingNone(ts, body);
    }
  }

  /** The functions of a subtree within the maximal distance. */
  ghost predicate Within(m: seq<nat>, rank: seq<nat>, b: nat, maxDistance: int, f: nat)
    requires Forest(m, rank) && IsEntered(m, b)
  {
    IsEntered(m, f) && Above(m, rank, b, f) && Level(m, rank, f) - Level(m, rank, b) <= maxDistance
  }

  /** `r` reports the functions numbered `fs`, all below `b`, with their distances from `b`,
      nearest first and no function twice. */
  ghost predicate Reports(m: seq<nat>, rank: seq<nat>, names: seq<Option<string>>, b: nat,
                          r: seq<ReachableFunction>, fs: seq<nat>)
    requires Forest(m, rank) && |names| == |m| && IsEntered(m, b)
  {
    && |r| == |fs|
    && (forall j, k :: 0 <= j < k < |fs| ==> fs[j] != fs[k])
    && (forall k :: 0 <= k < |fs| ==>
          IsEntered(m, fs[k]) &&
          r[k] == ReachableFunction(names[fs[k]], Level(m, rank, fs[k]) - Level(m, rank, b)))
    && (forall j, k :: 0 <= j <= k < |fs| ==> r[j].distance <= r[k].distance)
  }

  lemma {:induction false} WalkEntries(m: seq<nat>, rank: seq<nat>, names: seq<Option<string>>, u: Tree, limit: int)
    requires Forest(m, rank) && |names| == |m| && Mirrors(m, rank, names, u) && u.index != 0 && u.level <= limit
    ensures var ts := Bfs([u], Some(limit));
      && ts != [] && ts[0] == u && SortedByLevel(ts)
      && (forall k :: 0 <= k < |ts| ==> IsNode(m, rank, names, ts[k]) && u.level <= ts[k].level <= limit)
  {
    MirrorsLevelled(m, rank, names, u);
    BfsNodes(m, rank, names, [u], Some(limit));
    BfsWithin([u], limit);
    BfsOrdered([u], Some(limit));
  }

  lemma {:induction false} WalkMember(m: seq<nat>, rank: seq<nat>, names: seq<Option<string>>, u: Tree, limit: int,
                                      f: nat)
    requires Forest(m, rank) && |names| == |m| && Mirrors(m, rank, names, u) && u.index != 0 && u.level <= limit
    ensures f in Roots(Bfs([u], Some(limit))) <==> Within(m, rank, u.index, limit - u.level, f)
  {
    var ts := Bfs([u], Some(limit));
    WalkEntries(m, rank, names, u, limit);
    WalkCounts(m, rank, names, u, limit, f);
    if f in Roots(ts) {
      var k :| 0 <= k < |ts| && ts[k].index == f;
      ListedAt(ts, k, limit);
    }
    if Within(m, rank, u.index, limit - u.level, f) {
      var k := ListedSome(ts, f, limit);
      assert Roots(ts)[k] == f;
    }
  }

  lemma {:induction false} WalkApart(m: seq<nat>, rank: seq<nat>, names: seq<Option<string>>, u: Tree, limit: int,
                                     j: nat, k: nat)
    requires Forest(m, rank) && |names| == |m| && Mirrors(m, rank, names, u) && u.index != 0 && u.level <= limit
    requires j < k < |Bfs([u], Some(limit))|
    ensures Bfs([u], Some(limit))[j].index != Bfs([u], Some(limit))[k].index
  {
    var ts := Bfs([u], Some(limit));
    WalkEntries(m, rank, names, u, limit);
    WalkCounts(m, rank, names, u, limit, ts[k].index);
    if ts[j].index == ts[k].index {
      ListedTwice(ts, j, k, limit);
    }
  }

  lemma ReportsNodes(m: seq<nat>, rank: seq<nat>, names: seq<Option<string>>, b: nat, ts: seq<Tree>)
    requires Forest(m, rank) && |names| == |m| && IsEntered(m, b) && SortedByLevel(ts)
    requires forall k :: 0 <= k < |ts| ==> IsNode(m, rank, names, ts[k]) && ts[k].index != 0
    requires forall j, k :: 0 <= j < k < |ts| ==> ts[j].index != ts[k].index
    ensures Reports(m, rank, names, b, Reached(ts, Level(m, rank, b)), Roots(ts))
  {
  }

  lemma {:induction false} WalkReports(m: seq<nat>, rank: seq<nat>, names: seq<Option<string>>, u: Tree, limit: int,
                                       ts: seq<Tree>)
    requires Forest(m, rank) && |names| == |m| && Mirrors(m, rank, names, u) && u.index != 0 && u.level <= limit
    requires ts == Bfs([u], Some(limit))
    ensures ts != [] && ts[0] == u && Reports(m, rank, names, u.index, Reached(ts, u.level), Roots(ts))
  {
    WalkEntries(m, rank, names, u, limit);
    forall j, k | 0 <= j < k < |ts| ensures ts[j].index != ts[k].index {
      WalkApart(m, rank, names, u, limit, j, k);
    }
    forall k | 0 <= k < |ts| ensures ts[k].index != 0 {
      WalkMember(m, rank, names, u, limit, ts[k].index);
      assert Roots(ts)[k] in Roots(ts);
    }
    ReportsNodes(m, rank, names, u.index, ts);
  }

  lemma MirrorsEntered(m: seq<nat>, rank: seq<nat>, names: seq<Option<string>>, u: Tree)
    requires Forest(m, rank) && |names| == |m| && Mirrors(m, rank, names, u) && u.index != 0
    ensures IsEntered(m, u.index)
  {
  }

  /** The walk from the node of a function finds every function below it within the distance
      exactly once, nearest first, starting with the function itself. */
  lemma {:induction false} WalkFinds(m: seq<nat>, rank: seq<nat>, names: seq<Option<string>>, u: Tree, maxDistance: int,
                                     ts: seq<Tree>)
    requires Forest(m, rank) && |names| == |m| && Mirrors(m, rank, names, u) && u.index != 0 && maxDistance >= 0
    requires ts == Bfs([u], Some(u.level + maxDistance))
    ensures ts != [] && ts[0] == u && Reports(m, rank, names, u.index, Reached(ts, u.level), Roots(ts))
    ensures InSearchOrder(m, rank, Roots(ts))
    ensures forall f :: f in Roots(ts) <==> Within(m, rank, u.index, maxDistance, f)
  {
    hide *;
    MirrorsEntered(m, rank, names, u);
    var limit := u.level + maxDistance;
    WalkReports(m, rank, names, u, limit, ts);
    BfsSearchOrder(m, rank, names, u, Some(limit));
    forall f ensures f in Roots(ts) <==> Within(m, rank, u.index, maxDistance, f) {
      WalkMember(m, rank, names, u, limit, f);
    }
  }

  lemma {:induction false} WalkCounts(m: seq<nat>, rank: seq<nat>, names: seq<Option<string>>, u: Tree, limit: int,
                                      f: nat)
    requires Forest(m, rank) && |names| == |m| && Mirrors(m, rank, names, u) && u.index != 0
    ensures Occurrences(Bfs([u], Some(limit)), f, limit)
         == if Within(m, rank, u.index, limit - u.level, f) then 1 else 0
  {
    MirrorsLevelled(m, rank, names, u);
    BfsCounts([u], Some(limit), f, limit);
    SiblingsCount(m, rank, names, Parent(m, u.index), [u], f, limit);
    CoveredFirst(m, rank, [u], f);
  }

  /** With a negative maximal distance the walk still reports the root of the subtree. */
  lemma NegativeDistance(u: Tree, maxDistance: int)
    requires maxDistance < 0
    ensures Bfs([u], Some(u.level + maxDistance)) == [u] == Bfs([u], Some(u.level))
  {
    assert [u][1..] == [];
    assert Bfs([], Some(u.level)) == [] && Bfs([], Some(u.level + maxDistance)) == [];
  }

  // ---- The whole pipeline ----------------------------------------------------------------------

  /** `r` reports the functions below the test body within the distance: each once, none of them
      the test body, nearest first and otherwise in the order of the search, with their distances. */
  ghost predicate ReportsReachable(m: seq<nat>, rank: seq<nat>, names: seq<Option<string>>, b: nat, maxDistance: int,
                                   r: seq<ReachableFunction>, fs: seq<nat>)
    requires Forest(m, rank) && |names| == |m| && IsEntered(m, b)
  {
    && Reports(m, rank, names, b, r, fs) && InSearchOrder(m, rank, [b] + fs)
    && (forall f :: f in fs <==> f != b && Within(m, rank, b, maxDistance, f))
  }

  /** Dropping the first result drops the test body and nothing else. */
  lemma DropFirst(m: seq<nat>, rank: seq<nat>, names: seq<Option<string>>, b: nat, maxDistance: int,
                  found: seq<ReachableFunction>, all: seq<nat>)
    requires Forest(m, rank) && |names| == |m| && IsEntered(m, b)
    requires Reports(m, rank, names, b, found, all) && all != [] && all[0] == b && InSearchOrder(m, rank, all)
    requires forall f :: f in all <==> Within(m, rank, b, maxDistance, f)
    ensures ReportsReachable(m, rank, names, b, maxDistance, found[1..], all[1..])
  {
    assert all == [b] + all[1..];
    forall f ensures f in all[1..] <==> f != b && Within(m, rank, b, maxDistance, f) {
      if f in all[1..] {
        var k :| 0 <= k < |all[1..]| && all[1..][k] == f;
        assert all[k + 1] == f;
      }
    }
  }

  /** Walk and drop on the subtree of the test body. */
  lemma {:induction false} SubtreeFinds(m: seq<nat>, rank: seq<nat>, names: seq<Option<string>>, u: Tree,
                                        maxDistance: int,
                                        found: seq<ReachableFunction>)
    returns (fs: seq<nat>)
    requires Forest(m, rank) && |names| == |m| && Mirrors(m, rank, names, u) && u.index != 0
    requires found == ReachedFromAll([u], maxDistance)
    ensures found != [] && ReportsReachable(m, rank, names, u.index, NonNegative(maxDistance), found[1..], fs)
  {
    hide *;
    MirrorsEntered(m, rank, names, u);
    var distance := NonNegative(maxDistance);
    if maxDistance < 0 {
      NegativeDistance(u, maxDistance);
    }
    OneWalk(u, maxDistance);
    var ts := Bfs([u], Some(u.level + distance));
    WalkFinds(m, rank, names, u, distance, ts);
    fs := Roots(ts)[1..];
    DropFirst(m, rank, names, u.index, distance, found, Roots(ts));
  }

  function NonNegative(i: int): (n: int)
    ensures n >= 0 && (n == i || (n == 0 && i < 0))
  {
    if i < 0 then 0 else i
  }

  /** Extraction, walk and drop on a tree that mirrors the mapping. */
  lemma {:induction false} SearchFinds(m: seq<nat>, rank: seq<nat>, names: seq<Option<string>>, t: Tree, b: nat,
                                       body: string,
                                       maxDistance: int, found: seq<ReachableFunction>)
    returns (fs: seq<nat>)
    requires Forest(m, rank) && |names| == |m| && DistinctNames(names) && Mirrors(m, rank, names, t) && t.index == 0
    requires 0 < b < |m| && names[b] == Some(body)
    requires found == ReachedFromAll(Matching(Bfs([t], None), body), maxDistance)
    ensures !IsEntered(m, b) ==> found == []
    ensures IsEntered(m, b) ==>
      found != [] && ReportsReachable(m, rank, names, b, NonNegative(maxDistance), found[1..], fs)
  {
    fs := [];
    var u := OneSubtree(m, rank, names, t, b, body, Bfs([t], None));
    if IsEntered(m, b) {
      fs := SubtreeFinds(m, rank, names, u, maxDistance, found);
    }
  }

  lemma OneWalk(u: Tree, maxDistance: int)
    ensures ReachedFromAll([u], maxDistance) == Reached(Bfs([u], Some(u.level + maxDistance)), u.level)
  {
    assert [u][..0] == [] && ReachedFromAll([], maxDistance) == [];
  }

  /** What the original test run stores for a passed test: the call tree is built from its
      mapping, the subtree of its body extracted and walked, and the first result dropped. */
  method ReachableFunctionsOfTest(mapping: array<nat>, functions: seq<CallTreeFunction>, testBody: string,
                                  maxDistance: int, ghost rank: seq<nat>, ghost b: nat)
    returns (storage: seq<ReachableFunction>, ghost fs: seq<nat>)
    requires |functions| == mapping.Length && functions != [] && functions[0] == CallTreeFunction(None, null)
    requires Forest(mapping[..], rank) && DistinctNames(Names(functions))
    requires 0 < b < |functions| && functions[b].function_ == Some(testBody)
    modifies mapping
    ensures forall f :: 0 <= f < mapping.Length ==> mapping[f] == 0
    ensures !IsEntered(old(mapping[..]), b) ==> storage == []
    ensures IsEntered(old(mapping[..]), b) ==>
      ReportsReachable(old(mapping[..]), rank, Names(functions), b, NonNegative(maxDistance), storage, fs)
  {
    ghost var m := mapping[..];
    var callTree, t, footprint := CreateCallTree(mapping, functions, rank);
    var subtrees := ExtractTestSubtrees(callTree, testBody, t, footprint);
    ghost var trees := Matching(Bfs([t], None), testBody);
    var reachableFunctions := CreateReachableFunctions(subtrees, maxDistance, trees, footprint);
    fs := SearchFinds(m, rank, Names(functions), t, b, testBody, maxDistance, reachableFunctions);
    if reachableFunctions == [] {
      storage := [];
    } else {
      storage := reachableFunctions[1..];
    }
  }
}
