/**
 The shape hidden in a call tree mapping: chains of parents, their depth, and the order in which
 the offline builder meets the functions.
 */
module CallForest {
  import opened CallTrace

  /** The tree parent: roots hang below the phony root, which has index zero. */
  function Parent(m: seq<nat>, f: nat): nat
    requires f < |m|
  {
    if m[f] == f then 0 else m[f]
  }

  /** The distance to the phony root. */
  ghost function Depth(m: seq<nat>, rank: seq<nat>, f: nat): (depth: nat)
    requires Forest(m, rank) && IsEntered(m, f)
    ensures depth >= 1
    decreases rank[f]
  {
    if m[f] == f then 1 else 1 + Depth(m, rank, m[f])
  }

  ghost function Level(m: seq<nat>, rank: seq<nat>, f: nat): nat
    requires Forest(m, rank) && (f == 0 || IsEntered(m, f))
  {
    if f == 0 then 0 else Depth(m, rank, f)
  }

  /** `a` is on the chain from `f` to the root. */
  ghost predicate Above(m: seq<nat>, rank: seq<nat>, a: nat, f: nat)
    requires Forest(m, rank) && IsEntered(m, f)
    decreases rank[f]
  {
    a == f || (m[f] != f && Above(m, rank, a, m[f]))
  }

  lemma {:induction false} AboveFacts(m: seq<nat>, rank: seq<nat>, a: nat, f: nat)
    requires Forest(m, rank) && IsEntered(m, f) && Above(m, rank, a, f)
    ensures IsEntered(m, a)
    ensures a != f ==> rank[a] < rank[f] && Depth(m, rank, a) < Depth(m, rank, f)
    decreases rank[f]
  {
    if a != f {
      AboveFacts(m, rank, a, m[f]);
    }
  }

  lemma {:induction false} AboveTransitive(m: seq<nat>, rank: seq<nat>, a: nat, b: nat, f: nat)
    requires Forest(m, rank) && IsEntered(m, f) && Above(m, rank, b, f)
    requires IsEntered(m, b) && Above(m, rank, a, b)
    ensures Above(m, rank, a, f)
    decreases rank[f]
  {
    if b != f {
      AboveTransitive(m, rank, a, b, m[f]);
    }
  }

  /** A chain passes through at most one child of each node. */
  lemma {:induction false} SiblingsApart(m: seq<nat>, rank: seq<nat>, a: nat, b: nat, f: nat)
    requires Forest(m, rank) && IsEntered(m, f) && IsEntered(m, a) && IsEntered(m, b)
    requires Above(m, rank, a, f) && Above(m, rank, b, f) && Parent(m, a) == Parent(m, b)
    ensures a == b
    decreases rank[f]
  {
    AboveFacts(m, rank, a, f);
    AboveFacts(m, rank, b, f);
    if a != f && b != f {
      SiblingsApart(m, rank, a, b, m[f]);
    }
  }

  /** A chain through `a` that does not start there passes through a child of `a`. */
  lemma {:induction false} AboveChild(m: seq<nat>, rank: seq<nat>, a: nat, f: nat) returns (c: nat)
    requires Forest(m, rank) && IsEntered(m, f) && Above(m, rank, a, f) && a != f
    ensures IsEntered(m, c) && c != a && m[c] == a && Above(m, rank, c, f)
    decreases rank[f]
  {
    if m[f] == a {
      c := f;
    } else {
      c := AboveChild(m, rank, a, m[f]);
    }
  }

  /** Every chain starts below the phony root. */
  lemma {:induction false} AboveTop(m: seq<nat>, rank: seq<nat>, f: nat) returns (r: nat)
    requires Forest(m, rank) && IsEntered(m, f)
    ensures IsEntered(m, r) && m[r] == r && Above(m, rank, r, f)
    decreases rank[f]
  {
    if m[f] == f {
      r := f;
    } else {
      r := AboveTop(m, rank, m[f]);
    }
  }

  // ---- The order of construction -------------------------------------------------------------

  /** The least index from `d` on whose chain passes through `c`. */
  ghost function LeastFrom(m: seq<nat>, rank: seq<nat>, c: nat, d: nat): nat
    requires Forest(m, rank) && IsEntered(m, c) && d <= c
    decreases c - d
  {
    if d == c || (IsEntered(m, d) && Above(m, rank, c, d)) then d else LeastFrom(m, rank, c, d + 1)
  }

  /** The smallest function index in the subtree of `c`. */
  ghost function Smallest(m: seq<nat>, rank: seq<nat>, c: nat): nat
    requires Forest(m, rank) && IsEntered(m, c)
  {
    LeastFrom(m, rank, c, 0)
  }

  lemma {:induction false} LeastFromFacts(m: seq<nat>, rank: seq<nat>, c: nat, d: nat)
    requires Forest(m, rank) && IsEntered(m, c) && d <= c
    ensures var least := LeastFrom(m, rank, c, d);
      && d <= least <= c && IsEntered(m, least) && Above(m, rank, c, least)
      && forall j :: d <= j < least && IsEntered(m, j) ==> !Above(m, rank, c, j)
    decreases c - d
  {
    if !(d == c || (IsEntered(m, d) && Above(m, rank, c, d))) {
      LeastFromFacts(m, rank, c, d + 1);
    }
  }

  /** The smallest index is in the subtree, and no smaller one is. */
  lemma SmallestFacts(m: seq<nat>, rank: seq<nat>, c: nat, j: nat)
    requires Forest(m, rank) && IsEntered(m, c)
    ensures 0 < Smallest(m, rank, c) <= c && IsEntered(m, Smallest(m, rank, c))
    ensures Above(m, rank, c, Smallest(m, rank, c))
    ensures IsEntered(m, j) && Above(m, rank, c, j) ==> Smallest(m, rank, c) <= j
  {
    LeastFromFacts(m, rank, c, 0);
  }

  /** `cs` lists children of `p` by the smallest index in their subtrees. */
  ghost predicate Ordered(m: seq<nat>, rank: seq<nat>, p: nat, cs: seq<nat>)
    requires Forest(m, rank)
  {
    && (forall k :: 0 <= k < |cs| ==> IsEntered(m, cs[k]) && Parent(m, cs[k]) == p)
    && (forall j, k :: 0 <= j < k < |cs| ==> Smallest(m, rank, cs[j]) < Smallest(m, rank, cs[k]))
  }

  lemma OrderedDistinct(m: seq<nat>, rank: seq<nat>, p: nat, cs: seq<nat>)
    requires Forest(m, rank) && Ordered(m, rank, p, cs)
    ensures forall j, k :: 0 <= j < k < |cs| ==> cs[j] != cs[k]
  {
    forall j, k | 0 <= j < k < |cs| ensures cs[j] != cs[k] {
      assert Smallest(m, rank, cs[j]) < Smallest(m, rank, cs[k]);
    }
  }
}
