/** Breadth-first extraction of test subtrees and of the functions a test reaches. */
module Reachability {
  import opened Wrappers
  import opened CallTrace
  import opened CallForest
  import opened CallTreeShape

  // ---- Counting the nodes of a forest ----------------------------------------------------------

  function Size(ts: seq<Tree>): nat {
    if ts == [] then 0 else 1 + Size(ts[0].children) + Size(ts[1..])
  }

  function Is(t: Tree, f: nat, limit: int): nat {
    if t.index == f && t.level <= limit then 1 else 0
  }

  /** How many nodes of the forest stand for function `f` at a level of at most `limit`. */
  function Count(ts: seq<Tree>, f: nat, limit: int): nat {
    if ts == [] then 0 else Is(ts[0], f, limit) + Count(ts[0].children, f, limit) + Count(ts[1..], f, limit)
  }

  /** How many elements of the list do. */
  function Occurrences(ts: seq<Tree>, f: nat, limit: int): nat {
    if ts == [] then 0 else Is(ts[0], f, limit) + Occurrences(ts[1..], f, limit)
  }

  lemma {:induction false} SizeAppend(ts: seq<Tree>, us: seq<Tree>)
    ensures Size(ts + us) == Size(ts) + Size(us)
    decreases |ts|
  {
    if ts == [] {
      assert ts + us == us;
    } else {
      SizeAppend(ts[1..], us);
      assert (ts + us)[1..] == ts[1..] + us;
    }
  }

  lemma {:induction false} CountAppend(ts: seq<Tree>, us: seq<Tree>, f: nat, limit: int)
    ensures Count(ts + us, f, limit) == Count(ts, f, limit) + Count(us, f, limit)
    decreases |ts|
  {
    if ts == [] {
      assert ts + us == us;
    } else {
      CountAppend(ts[1..], us, f, limit);
      assert (ts + us)[1..] == ts[1..] + us;
    }
  }

  // ---- Breadth first ----------------------------------------------------------------------------

  /** The nodes in the order the queue yields them; with a limit, only nodes above it push their
      children. */
  ghost function Bfs(queue: seq<Tree>, limit: Option<int>): seq<Tree>
    decreases Size(queue)
  {
    if queue == [] then []
    else
      var rest := queue[1..] + Pushed(queue[0], limit);
      SizeAppend(queue[1..], Pushed(queue[0], limit));
      [queue[0]] + Bfs(rest, limit)
  }

  function Pushed(t: Tree, limit: Option<int>): seq<Tree> {
    if limit == None || t.level < limit.value then t.children else []
  }

  /** Levels grow by one from parent to child. */
  ghost predicate Levelled(t: Tree)
    decreases t
  {
    forall k :: 0 <= k < |t.children| ==> t.children[k].level == t.level + 1 && Levelled(t.children[k])
  }

  ghost predicate AllLevelled(ts: seq<Tree>) {
    forall k :: 0 <= k < |ts| ==> Levelled(ts[k])
  }

  /** Nothing below a node at the limit counts. */
  lemma {:induction false} NothingDeeper(ts: seq<Tree>, f: nat, limit: int)
    requires AllLevelled(ts) && forall k :: 0 <= k < |ts| ==> ts[k].level > limit
    ensures Count(ts, f, limit) == 0
  {
    if ts != [] {
      NothingDeeper(ts[0].children, f, limit);
      NothingDeeper(ts[1..], f, limit);
    }
  }

  /** The search yields every node within the limit exactly as often as the forest holds it. */
  lemma {:induction false} BfsCounts(queue: seq<Tree>, cut: Option<int>, f: nat, limit: int)
    requires AllLevelled(queue) && (cut == None || cut == Some(limit))
    ensures Occurrences(Bfs(queue, cut), f, limit) == Count(queue, f, limit)
    decreases Size(queue)
  {
    if queue != [] {
      var t := queue[0];
      SizeAppend(queue[1..], Pushed(t, cut));
      BfsCounts(queue[1..] + Pushed(t, cut), cut, f, limit);
      CountAppend(queue[1..], Pushed(t, cut), f, limit);
      if cut != None && t.level >= limit {
        NothingDeeper(t.children, f, limit);
      }
      assert Bfs(queue, cut)[1..] == Bfs(queue[1..] + Pushed(t, cut), cut);
    }
  }

  /** The queue holds nodes of one level, then of the next. */
  ghost predicate InLayers(queue: seq<Tree>) {
    forall j, k :: 0 <= j <= k < |queue| ==> queue[j].level <= queue[k].level <= queue[0].level + 1
  }

  lemma LayersStep(queue: seq<Tree>, limit: Option<int>)
    requires queue != [] && AllLevelled(queue) && InLayers(queue)
    ensures var rest := queue[1..] + Pushed(queue[0], limit);
      && AllLevelled(rest) && InLayers(rest)
      && (rest != [] ==> queue[0].level <= rest[0].level)
  {
    var pushed := Pushed(queue[0], limit);
    assert forall k :: 0 <= k < |pushed| ==> pushed[k].level == queue[0].level + 1 && Levelled(pushed[k]);
  }

  ghost predicate SortedByLevel(ts: seq<Tree>) {
    forall j, k :: 0 <= j <= k < |ts| ==> ts[j].level <= ts[k].level
  }

  ghost predicate AtLeast(ts: seq<Tree>, level: nat) {
    forall k :: 0 <= k < |ts| ==> level <= ts[k].level
  }

  lemma SortedCons(t: Tree, ts: seq<Tree>)
    requires SortedByLevel(ts) && AtLeast(ts, t.level)
    ensures SortedByLevel([t] + ts) && AtLeast([t] + ts, t.level)
  {
  }

  /** The search yields nodes in the order of their levels. */
  lemma {:induction false} BfsOrdered(queue: seq<Tree>, limit: Option<int>)
    requires AllLevelled(queue) && InLayers(queue)
    ensures SortedByLevel(Bfs(queue, limit))
    ensures queue != [] ==> AtLeast(Bfs(queue, limit), queue[0].level)
    decreases Size(queue)
  {
    if queue != [] {
      SizeAppend(queue[1..], Pushed(queue[0], limit));
      var rest := queue[1..] + Pushed(queue[0], limit);
      LayersStep(queue, limit);
      BfsOrdered(rest, limit);
      SortedCons(queue[0], Bfs(rest, limit));
    }
  }

  // ---- The order of the search ------------------------------------------------------------------

  /** What all the nodes push, one after the other. */
  function AllPushed(ts: seq<Tree>, limit: Option<int>): seq<Tree> {
    if ts == [] then [] else Pushed(ts[0], limit) + AllPushed(ts[1..], limit)
  }

  lemma BfsUnfold(queue: seq<Tree>, limit: Option<int>)
    requires queue != []
    ensures var rest := queue[1..] + Pushed(queue[0], limit);
      Size(rest) < Size(queue) && Bfs(queue, limit) == [queue[0]] + Bfs(rest, limit)
  {
    SizeAppend(queue[1..], Pushed(queue[0], limit));
  }

  lemma EmptySearch(limit: Option<int>)
    ensures Bfs([], limit) == [] == AllPushed([], limit)
  {
  }

  lemma AllPushedCons(t: Tree, ts: seq<Tree>, limit: Option<int>)
    ensures AllPushed([t] + ts, limit) == Pushed(t, limit) + AllPushed(ts, limit)
  {
  }

  /** The search yields the queue and then what everything it yields has pushed. */
  lemma {:induction false} BfsInLayers(queue: seq<Tree>, limit: Option<int>)
    ensures Bfs(queue, limit) == queue + AllPushed(Bfs(queue, limit), limit)
    decreases Size(queue)
  {
    hide Bfs, AllPushed, Pushed;
    if queue == [] {
      EmptySearch(limit);
    } else {
      var (tail, pushed) := (queue[1..], Pushed(queue[0], limit));
      BfsUnfold(queue, limit);
      BfsInLayers(tail + pushed, limit);
      var later := AllPushed(Bfs(tail + pushed, limit), limit);
      AllPushedCons(queue[0], Bfs(tail + pushed, limit), limit);
      Regroup([queue[0]], tail, pushed, later);
      assert queue == [queue[0]] + tail;
    }
  }

  lemma Regroup<T>(a: seq<T>, b: seq<T>, c: seq<T>, d: seq<T>)
    ensures a + ((b + c) + d) == (a + b) + (c + d)
  {
  }

  /** Of two pushed nodes the first one was pushed by an earlier node, or by the same one as an earlier
      child. */
  lemma {:induction false} PushedBefore(ts: seq<Tree>, limit: Option<int>, i: nat, j: nat)
    returns (a: nat, c: nat, x: nat, y: nat)
    requires i < j < |AllPushed(ts, limit)|
    ensures a <= c < |ts| && x < |ts[a].children| && y < |ts[c].children| && (a == c ==> x < y)
    ensures AllPushed(ts, limit)[i] == ts[a].children[x] && AllPushed(ts, limit)[j] == ts[c].children[y]
  {
    var n := |Pushed(ts[0], limit)|;
    if j < n {
      a, c, x, y := 0, 0, i, j;
    } else if i < n {
      c, y := PushedBy(ts[1..], limit, j - n);
      a, c, x := 0, c + 1, i;
    } else {
      a, c, x, y := PushedBefore(ts[1..], limit, i - n, j - n);
      a, c := a + 1, c + 1;
    }
  }

  lemma {:induction false} PushedBy(ts: seq<Tree>, limit: Option<int>, j: nat) returns (c: nat, y: nat)
    requires j < |AllPushed(ts, limit)|
    ensures c < |ts| && y < |ts[c].children| && AllPushed(ts, limit)[j] == ts[c].children[y]
  {
    var n := |Pushed(ts[0], limit)|;
    if j < n {
      c, y := 0, j;
    } else {
      c, y := PushedBy(ts[1..], limit, j - n);
      c := c + 1;
    }
  }

  ghost predicate Precedes(fs: seq<nat>, f: nat, g: nat) {
    exists a, c :: 0 <= a < c < |fs| && fs[a] == f && fs[c] == g
  }

  /** Behind the first one, siblings come by the smallest index in their subtrees, and others as their
      parents do. */
  ghost predicate InSearchOrder(m: seq<nat>, rank: seq<nat>, fs: seq<nat>)
    requires Forest(m, rank)
  {
    forall j, k :: 1 <= j < k < |fs| ==> SearchedBefore(m, rank, fs, fs[j], fs[k])
  }

  ghost predicate SearchedBefore(m: seq<nat>, rank: seq<nat>, fs: seq<nat>, f: nat, g: nat)
    requires Forest(m, rank)
  {
    && IsEntered(m, f) && IsEntered(m, g)
    && (|| (Parent(m, f) == Parent(m, g) && Smallest(m, rank, f) < Smallest(m, rank, g))
        || Precedes(fs, Parent(m, f), Parent(m, g)))
  }

  lemma ChildOf(m: seq<nat>, rank: seq<nat>, names: seq<Option<string>>, t: Tree, x: nat)
    requires Forest(m, rank) && |names| == |m| && Mirrors(m, rank, names, t) && x < |t.children|
    ensures IsEntered(m, t.children[x].index) && Parent(m, t.children[x].index) == t.index
    ensures forall y :: x < y < |t.children| && IsEntered(m, t.children[y].index) ==>
      Smallest(m, rank, t.children[x].index) < Smallest(m, rank, t.children[y].index)
  {
    var roots := Roots(t.children);
    assert roots[x] == t.children[x].index;
    forall y | x < y < |t.children| && IsEntered(m, t.children[y].index)
      ensures Smallest(m, rank, t.children[x].index) < Smallest(m, rank, t.children[y].index)
    {
      assert roots[y] == t.children[y].index;
    }
  }

  /** A search from one node yields what is below it in that order. */
  lemma {:induction false} BfsSearchOrder(m: seq<nat>, rank: seq<nat>, names: seq<Option<string>>, u: Tree,
                                          limit: Option<int>)
    requires Forest(m, rank) && |names| == |m| && Mirrors(m, rank, names, u)
    ensures InSearchOrder(m, rank, Roots(Bfs([u], limit)))
  {
    hide Bfs, AllPushed, Mirrors, Forest;
    var ts := Bfs([u], limit);
    BfsInLayers([u], limit);
    BfsMirrors(m, rank, names, [u], limit);
    forall j, k | 1 <= j < k < |ts| ensures SearchedBefore(m, rank, Roots(ts), Roots(ts)[j], Roots(ts)[k]) {
      var a, c, x, y := PushedBefore(ts, limit, j - 1, k - 1);
      assert ts[j] == AllPushed(ts, limit)[j - 1] && ts[k] == AllPushed(ts, limit)[k - 1];
      ChildOf(m, rank, names, ts[a], x);
      ChildOf(m, rank, names, ts[c], y);
      assert a < c ==> Roots(ts)[a] == ts[a].index && Roots(ts)[c] == ts[c].index;
    }
  }

  /** Within the limit at the start, within the limit throughout. */
  lemma {:induction false} BfsWithin(queue: seq<Tree>, limit: int)
    requires AllLevelled(queue) && forall k :: 0 <= k < |queue| ==> queue[k].level <= limit
    ensures forall k :: 0 <= k < |Bfs(queue, Some(limit))| ==> Bfs(queue, Some(limit))[k].level <= limit
    decreases Size(queue)
  {
    if queue != [] {
      SizeAppend(queue[1..], Pushed(queue[0], Some(limit)));
      BfsWithin(queue[1..] + Pushed(queue[0], Some(limit)), limit);
    }
  }

  /** Every node the search yields mirrors the mapping if the forest does. */
  lemma {:induction false} BfsMirrors(m: seq<nat>, rank: seq<nat>, names: seq<Option<string>>, queue: seq<Tree>,
                                      limit: Option<int>)
    requires Forest(m, rank) && |names| == |m|
    requires forall k :: 0 <= k < |queue| ==> Mirrors(m, rank, names, queue[k])
    ensures forall k :: 0 <= k < |Bfs(queue, limit)| ==> Mirrors(m, rank, names, Bfs(queue, limit)[k])
    decreases Size(queue)
  {
    if queue != [] {
      SizeAppend(queue[1..], Pushed(queue[0], limit));
      BfsMirrors(m, rank, names, queue[1..] + Pushed(queue[0], limit), limit);
    }
  }

  /** A node carries the name and the level of its function. */
  ghost predicate IsNode(m: seq<nat>, rank: seq<nat>, names: seq<Option<string>>, t: Tree)
    requires Forest(m, rank) && |names| == |m|
  {
    && (t.index == 0 || IsEntered(m, t.index))
    && t.function_ == names[t.index] && t.level == Level(m, rank, t.index)
  }

  lemma {:induction false} BfsNodes(m: seq<nat>, rank: seq<nat>, names: seq<Option<string>>, queue: seq<Tree>,
                                    limit: Option<int>)
    requires Forest(m, rank) && |names| == |m|
    requires forall k :: 0 <= k < |queue| ==> Mirrors(m, rank, names, queue[k])
    ensures forall k :: 0 <= k < |Bfs(queue, limit)| ==> IsNode(m, rank, names, Bfs(queue, limit)[k])
  {
    BfsMirrors(m, rank, names, queue, limit);
  }

  // ---- What a mirrored tree holds ---------------------------------------------------------------

  lemma {:induction false} MirrorsLevelled(m: seq<nat>, rank: seq<nat>, names: seq<Option<string>>, t: Tree)
    requires Forest(m, rank) && |names| == |m| && Mirrors(m, rank, names, t)
    ensures Levelled(t)
    decreases t
  {
    forall k | 0 <= k < |t.children| ensures t.children[k].level == t.level + 1 && Levelled(t.children[k]) {
      assert Roots(t.children)[k] == t.children[k].index;
      MirrorsLevelled(m, rank, names, t.children[k]);
    }
  }

  /** `f` is in the subtree of one of the roots. */
  ghost predicate Covered(m: seq<nat>, rank: seq<nat>, ts: seq<Tree>, f: nat)
    requires Forest(m, rank)
  {
    IsEntered(m, f) && exists k :: 0 <= k < |ts| && Above(m, rank, ts[k].index, f)
  }

  lemma CoveredFirst(m: seq<nat>, rank: seq<nat>, ts: seq<Tree>, f: nat)
    requires Forest(m, rank) && ts != []
    ensures Covered(m, rank, ts, f)
       <==> (IsEntered(m, f) && Above(m, rank, ts[0].index, f)) || Covered(m, rank, ts[1..], f)
  {
    if Covered(m, rank, ts[1..], f) {
      var k :| 0 <= k < |ts[1..]| && Above(m, rank, ts[1..][k].index, f);
      assert ts[k + 1] == ts[1..][k];
    }
    if Covered(m, rank, ts, f) {
      var k :| 0 <= k < |ts| && Above(m, rank, ts[k].index, f);
      assert k == 0 || ts[1..][k - 1] == ts[k];
    }
  }

  ghost predicate Siblings(m: seq<nat>, rank: seq<nat>, names: seq<Option<string>>, p: nat, ts: seq<Tree>)
    requires Forest(m, rank) && |names| == |m|
  {
    && (forall k :: 0 <= k < |ts| ==>
          Mirrors(m, rank, names, ts[k]) && IsEntered(m, ts[k].index) && Parent(m, ts[k].index) == p)
    && (forall j, k :: 0 <= j < k < |ts| ==> ts[j].index != ts[k].index)
  }

  lemma ChildrenSiblings(m: seq<nat>, rank: seq<nat>, names: seq<Option<string>>, t: Tree)
    requires Forest(m, rank) && |names| == |m| && Mirrors(m, rank, names, t)
    ensures Siblings(m, rank, names, t.index, t.children)
  {
    OrderedDistinct(m, rank, t.index, Roots(t.children));
    assert forall k :: 0 <= k < |t.children| ==> Roots(t.children)[k] == t.children[k].index;
  }

  /** The children of a node cover what it covers, except itself. */
  lemma {:induction false} ChildrenCover(m: seq<nat>, rank: seq<nat>, names: seq<Option<string>>, t: Tree, f: nat)
    requires Forest(m, rank) && |names| == |m| && Mirrors(m, rank, names, t) && IsEntered(m, f)
    ensures t.index != 0 ==> (Covered(m, rank, t.children, f) <==> Above(m, rank, t.index, f) && f != t.index)
    ensures t.index == 0 ==> Covered(m, rank, t.children, f)
  {
    ChildrenSiblings(m, rank, names, t);
    var roots := Roots(t.children);
    if t.index == 0 {
      var r := AboveTop(m, rank, f);
      assert r in roots;
    } else {
      if Above(m, rank, t.index, f) && f != t.index {
        var c := AboveChild(m, rank, t.index, f);
        assert c in roots;
      }
      if Covered(m, rank, t.children, f) {
        var k :| 0 <= k < |t.children| && Above(m, rank, t.children[k].index, f);
        ParentCovers(m, rank, t.index, t.children[k].index, f);
      }
    }
  }

  lemma ParentCovers(m: seq<nat>, rank: seq<nat>, p: nat, c: nat, f: nat)
    requires Forest(m, rank) && IsEntered(m, f) && IsEntered(m, c) && Above(m, rank, c, f)
    requires p != 0 && Parent(m, c) == p
    ensures Above(m, rank, p, f) && f != p
  {
    AboveTransitive(m, rank, p, c, f);
    AboveFacts(m, rank, c, f);
  }

  /** A forest of siblings holds every function of its subtrees exactly once, at its own level. */
  lemma {:induction false} SiblingsCount(m: seq<nat>, rank: seq<nat>, names: seq<Option<string>>, p: nat,
                                         ts: seq<Tree>, f: nat, limit: int)
    requires Forest(m, rank) && |names| == |m| && Siblings(m, rank, names, p, ts)
    ensures Count(ts, f, limit) == if Covered(m, rank, ts, f) && Level(m, rank, f) <= limit then 1 else 0
    decreases ts
  {
    if ts != [] {
      var t := ts[0];
      CoveredFirst(m, rank, ts, f);
      ChildrenSiblings(m, rank, names, t);
      SiblingsCount(m, rank, names, t.index, t.children, f, limit);
      SiblingsCount(m, rank, names, p, ts[1..], f, limit);
      if IsEntered(m, f) {
        ChildrenCover(m, rank, names, t, f);
        if Above(m, rank, t.index, f) && Covered(m, rank, ts[1..], f) {
          var k :| 0 <= k < |ts[1..]| && Above(m, rank, ts[1..][k].index, f);
          SiblingsApart(m, rank, t.index, ts[k + 1].index, f);
        }
      }
    }
  }

  /** The call tree holds the phony root and every entered function, exactly once each. */
  lemma {:induction false} CallTreeCount(m: seq<nat>, rank: seq<nat>, names: seq<Option<string>>, t: Tree, f: nat,
                                         limit: int)
    requires Forest(m, rank) && |names| == |m| && Mirrors(m, rank, names, t) && t.index == 0
    ensures Count([t], f, limit)
         == if (f == 0 || IsEntered(m, f)) && Level(m, rank, f) <= limit then 1 else 0
  {
    ChildrenSiblings(m, rank, names, t);
    SiblingsCount(m, rank, names, 0, t.children, f, limit);
    assert [t][1..] == [];
    if IsEntered(m, f) {
      ChildrenCover(m, rank, names, t, f);
    }
  }
}
