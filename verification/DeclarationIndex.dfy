/** The index of declarations of a translation unit, searched by location. */
module DeclarationIndex {
  import opened Wrappers

  /** A declaration and its source range; locations are ordered as in the translation unit. */
  datatype Decl = Decl(name: string, begin: nat, end: nat)

  predicate Contains(outer: Decl, inner: Decl) {
    outer.begin <= inner.begin && inner.end <= outer.end
  }

  predicate Before(a: Decl, b: Decl) {
    a.end < b.begin
  }

  predicate Related(a: Decl, b: Decl) {
    Contains(a, b) || Contains(b, a) || Before(a, b) || Before(b, a)
  }

  /** What declarations of one unit look like: ranges are in order, and nested or strictly apart.
      Several may begin at the same place. */
  ghost predicate Laminar(ds: seq<Decl>) {
    && (forall d :: d in ds ==> d.begin <= d.end)
    && (forall a, b :: a in ds && b in ds ==> Related(a, b))
  }

  /** A declaration that begins earlier and contains both. */
  ghost predicate Shelter(ds: seq<Decl>, a: Decl, b: Decl) {
    exists c :: c in ds && c.begin < a.begin && Contains(c, a) && Contains(c, b)
  }

  /** Declarations that begin together and end apart are inside one that begins earlier. */
  ghost predicate Sheltered(ds: seq<Decl>) {
    forall a, b :: a in ds && b in ds && a.begin == b.begin && a.end != b.end ==> Shelter(ds, a, b)
  }

  predicate Sorted(ds: seq<Decl>) {
    forall i, j :: 0 <= i < j < |ds| ==> ds[i].begin <= ds[j].begin
  }

  /** Sorted and strictly apart. */
  predicate Disjoint(ds: seq<Decl>) {
    forall i, j :: 0 <= i < j < |ds| ==> Before(ds[i], ds[j])
  }

  // ---- Sorting ------------------------------------------------------------------------------------

  function Insert(ds: seq<Decl>, d: Decl): seq<Decl> {
    if ds == [] || d.begin <= ds[0].begin then [d] + ds else [ds[0]] + Insert(ds[1..], d)
  }

  /** A sorted permutation. */
  function Sort(ds: seq<Decl>): seq<Decl> {
    if ds == [] then [] else Insert(Sort(ds[1..]), ds[0])
  }

  lemma {:induction false} InsertPermutes(ds: seq<Decl>, d: Decl)
    ensures multiset(Insert(ds, d)) == multiset(ds) + multiset{d}
  {
    if ds != [] && d.begin > ds[0].begin {
      InsertPermutes(ds[1..], d);
      assert ds == [ds[0]] + ds[1..];
    }
  }

  lemma {:induction false} InsertAbove(ds: seq<Decl>, d: Decl, low: nat)
    requires low <= d.begin && forall k :: 0 <= k < |ds| ==> low <= ds[k].begin
    ensures forall k :: 0 <= k < |Insert(ds, d)| ==> low <= Insert(ds, d)[k].begin
  {
    if ds != [] && d.begin > ds[0].begin {
      InsertAbove(ds[1..], d, low);
    }
  }

  lemma {:induction false} InsertSorts(ds: seq<Decl>, d: Decl)
    requires Sorted(ds)
    ensures Sorted(Insert(ds, d))
  {
    if ds != [] && d.begin > ds[0].begin {
      InsertSorts(ds[1..], d);
      InsertAbove(ds[1..], d, ds[0].begin);
      SortedCons(ds[0], Insert(ds[1..], d));
    }
  }

  lemma SortedCons(d: Decl, ds: seq<Decl>)
    requires Sorted(ds) && forall k :: 0 <= k < |ds| ==> d.begin <= ds[k].begin
    ensures Sorted([d] + ds)
  {
  }

  lemma {:induction false} SortSorts(ds: seq<Decl>)
    ensures Sorted(Sort(ds)) && multiset(Sort(ds)) == multiset(ds)
  {
    if ds != [] {
      SortSorts(ds[1..]);
      InsertSorts(Sort(ds[1..]), ds[0]);
      InsertPermutes(Sort(ds[1..]), ds[0]);
      assert ds == [ds[0]] + ds[1..];
    }
  }

  /** std::sort: nothing is promised about the order of declarations that begin together. */
  method SortByBegin(ds: seq<Decl>) returns (sorted: seq<Decl>)
    ensures Sorted(sorted) && multiset(sorted) == multiset(ds)
  {
    sorted := Sort(ds);
    SortSorts(ds);
  }

  // ---- Dropping what overlaps -----------------------------------------------------------------------

  /** std::unique: an element is dropped if it is not strictly behind the last one kept. */
  function Unique(kept: seq<Decl>, rest: seq<Decl>): seq<Decl>
    decreases |rest|
  {
    if rest == [] then kept
    else if kept != [] && !Before(kept[|kept| - 1], rest[0]) then Unique(kept, rest[1..])
    else Unique(kept + [rest[0]], rest[1..])
  }

  /** The declaration is inside one of those kept. */
  ghost predicate CoveredBy(kept: seq<Decl>, d: Decl) {
    exists k :: 0 <= k < |kept| && Contains(kept[k], d)
  }

  /** Only declarations seen are kept, and each one seen is kept or inside a kept one. */
  ghost predicate Covers(kept: seq<Decl>, seen: seq<Decl>) {
    && (forall d :: d in kept ==> d in seen)
    && (forall d :: d in seen ==> CoveredBy(kept, d))
  }

  /** If all are sheltered, every dropped declaration is inside a kept one. */
  lemma {:induction false} UniqueCovers(ds: seq<Decl>, n: nat, kept: seq<Decl>)
    requires n <= |ds| && Laminar(ds) && Sorted(ds) && Sheltered(ds) && Covers(kept, ds[..n])
    ensures Covers(Unique(kept, ds[n..]), ds)
    decreases |ds| - n
  {
    if n == |ds| {
      assert ds[..n] == ds;
    } else {
      var d, rest := ds[n], ds[n..];
      assert rest[1..] == ds[n + 1..] && rest[0] == d;
      if kept != [] && !Before(kept[|kept| - 1], d) {
        Drop(ds, n, kept);
        UniqueCovers(ds, n + 1, kept);
      } else {
        Keep(ds, n, kept);
        UniqueCovers(ds, n + 1, kept + [d]);
      }
    }
  }

  /** What is dropped is inside the last one kept, or begins with it and is inside another one. */
  lemma DroppedIsCovered(ds: seq<Decl>, n: nat, kept: seq<Decl>)
    requires n < |ds| && Laminar(ds) && Sorted(ds) && Sheltered(ds) && Covers(kept, ds[..n])
    requires kept != [] && !Before(kept[|kept| - 1], ds[n])
    ensures CoveredBy(kept, ds[n])
  {
    var last, d := kept[|kept| - 1], ds[n];
    assert last in kept && last in ds[..n] && Related(last, d);
    var i :| 0 <= i < n && ds[i] == last;
    if !Contains(last, d) {
      assert last.begin == d.begin && last.end != d.end;
      assert Shelter(ds, d, last);
      var c :| c in ds && c.begin < d.begin && Contains(c, d) && Contains(c, last);
      var m :| 0 <= m < |ds| && ds[m] == c;
      assert m < n && c in ds[..n];
      var k :| 0 <= k < |kept| && Contains(kept[k], c);
      assert Contains(kept[k], d);
    }
  }

  lemma Drop(ds: seq<Decl>, n: nat, kept: seq<Decl>)
    requires n < |ds| && Laminar(ds) && Sorted(ds) && Sheltered(ds) && Covers(kept, ds[..n])
    requires kept != [] && !Before(kept[|kept| - 1], ds[n])
    ensures Covers(kept, ds[..n + 1])
  {
    DroppedIsCovered(ds, n, kept);
    assert ds[..n + 1] == ds[..n] + [ds[n]];
  }

  lemma StillCovered(kept: seq<Decl>, d: Decl, e: Decl)
    ensures CoveredBy(kept, e) ==> CoveredBy(kept + [d], e)
  {
    if CoveredBy(kept, e) {
      var k :| 0 <= k < |kept| && Contains(kept[k], e);
      assert (kept + [d])[k] == kept[k];
    }
  }

  lemma Keep(ds: seq<Decl>, n: nat, kept: seq<Decl>)
    requires n < |ds| && Laminar(ds) && Covers(kept, ds[..n])
    ensures Covers(kept + [ds[n]], ds[..n + 1])
  {
    var d := ds[n];
    assert d in ds && ds[..n + 1] == ds[..n] + [d];
    forall e | e in ds[..n + 1] ensures CoveredBy(kept + [d], e) {
      if e == d && d.begin <= d.end {
        assert (kept + [d])[|kept|] == d;
      } else {
        StillCovered(kept, d, e);
      }
    }
  }

  // ---- What is kept ---------------------------------------------------------------------------------

  lemma KeepDisjoint(kept: seq<Decl>, d: Decl)
    requires Disjoint(kept) && (kept == [] || Before(kept[|kept| - 1], d))
    requires forall e :: e in kept ==> e.begin <= e.end
    ensures Disjoint(kept + [d])
  {
    forall i | 0 <= i < |kept| ensures Before(kept[i], d) {
      if i < |kept| - 1 {
        assert Before(kept[i], kept[|kept| - 1]);
        assert kept[|kept| - 1] in kept;
      }
    }
  }

  /** What is kept is kept for good, comes from the input, and is strictly apart. */
  lemma {:induction false} UniqueKeeps(kept: seq<Decl>, rest: seq<Decl>)
    requires Disjoint(kept) && (forall d :: d in kept || d in rest ==> d.begin <= d.end)
    ensures kept <= Unique(kept, rest) && Disjoint(Unique(kept, rest))
    ensures forall d :: d in Unique(kept, rest) ==> d in kept || d in rest
    decreases |rest|
  {
    if rest != [] {
      if kept != [] && !Before(kept[|kept| - 1], rest[0]) {
        UniqueKeeps(kept, rest[1..]);
      } else {
        KeepDisjoint(kept, rest[0]);
        UniqueKeeps(kept + [rest[0]], rest[1..]);
      }
    }
  }

  lemma {:induction false} UniqueAppend(kept: seq<Decl>, rest: seq<Decl>, more: seq<Decl>)
    ensures Unique(kept, rest + more) == Unique(Unique(kept, rest), more)
    decreases |rest|
  {
    if rest == [] {
      assert rest + more == more;
    } else {
      assert (rest + more)[1..] == rest[1..] + more;
      if kept != [] && !Before(kept[|kept| - 1], rest[0]) {
        UniqueAppend(kept, rest[1..], more);
      } else {
        UniqueAppend(kept + [rest[0]], rest[1..], more);
      }
    }
  }

  lemma Apart(decls: seq<Decl>, a: Decl, b: Decl)
    requires Disjoint(decls) && a in decls && b in decls
    ensures a == b || Before(a, b) || Before(b, a)
  {
    var i :| 0 <= i < |decls| && decls[i] == a;
    var j :| 0 <= j < |decls| && decls[j] == b;
    assert i < j ==> Before(decls[i], decls[j]);
    assert j < i ==> Before(decls[j], decls[i]);
  }

  lemma SameElements(ds: seq<Decl>, ds': seq<Decl>)
    requires multiset(ds) == multiset(ds')
    ensures forall d :: d in ds <==> d in ds'
  {
    forall d ensures d in ds <==> d in ds' {
      assert d in ds <==> d in multiset(ds);
    }
  }

  // ---- Exactly when nothing is lost -----------------------------------------------------------------

  lemma {:induction false} ShelteredIsCovered(visited: seq<Decl>, sorted: seq<Decl>)
    requires Laminar(visited) && Sheltered(visited) && Sorted(sorted) && multiset(sorted) == multiset(visited)
    ensures Covers(Unique([], sorted), visited)
  {
    SameElements(sorted, visited);
    forall a, b | a in sorted && b in sorted && a.begin == b.begin && a.end != b.end ensures Shelter(sorted, a, b) {
      assert Shelter(visited, a, b);
    }
    assert sorted[0..] == sorted;
    UniqueCovers(sorted, 0, []);
  }

  /** Inserting puts a declaration before all that begin with it. */
  lemma {:induction false} InsertSplits(ds: seq<Decl>, d: Decl) returns (p: nat)
    ensures p <= |ds| && Insert(ds, d) == ds[..p] + ([d] + ds[p..])
    ensures forall k :: 0 <= k < p ==> ds[k].begin < d.begin
  {
    if ds == [] || d.begin <= ds[0].begin {
      p := 0;
    } else {
      var q := InsertSplits(ds[1..], d);
      p := q + 1;
      assert ds[..p] == [ds[0]] + ds[1..][..q] && ds[p..] == ds[1..][q..];
    }
  }

  /** What begins before two unsheltered declarations that begin together is strictly apart. */
  lemma EarlierIsApart(visited: seq<Decl>, a: Decl, b: Decl, e: Decl)
    requires Laminar(visited) && a in visited && b in visited && e in visited
    requires a.begin == b.begin && a.end < b.end && !Shelter(visited, a, b) && e.begin < a.begin
    ensures Before(e, a)
  {
    assert Related(e, a) && Related(e, b);
  }

  lemma ShorterIsKept(before: seq<Decl>, a: Decl, after: seq<Decl>)
    requires forall e :: e in before ==> Before(e, a)
    requires forall d :: d in before || d == a || d in after ==> d.begin <= d.end
    ensures a in Unique([], before + ([a] + after))
  {
    UniqueAppend([], before, [a] + after);
    UniqueKeeps([], before);
    var kept := Unique([], before);
    assert kept != [] ==> kept[|kept| - 1] in kept;
    assert ([a] + after)[1..] == after;
    KeepDisjoint(kept, a);
    UniqueKeeps(kept + [a], after);
    assert (kept + [a])[|kept|] == a;
  }

  /** If two declarations begin together unsheltered, a sort may put the shorter one first, and then the
      longer one is lost. */
  lemma {:induction false} UnshelteredIsLost(visited: seq<Decl>, a: Decl, b: Decl) returns (sorted: seq<Decl>)
    requires Laminar(visited) && a in visited && b in visited
    requires a.begin == b.begin && a.end < b.end && !Shelter(visited, a, b)
    ensures Sorted(sorted) && multiset(sorted) == multiset(visited) && !CoveredBy(Unique([], sorted), b)
  {
    var i :| 0 <= i < |visited| && visited[i] == a;
    var others := visited[..i] + visited[i + 1..];
    assert visited == visited[..i] + [a] + visited[i + 1..];
    var ds := Sort(others);
    SortSorts(others);
    InsertSorts(ds, a);
    InsertPermutes(ds, a);
    sorted := Insert(ds, a);
    var p := InsertSplits(ds, a);
    SameElements(sorted, visited);
    forall e | e in ds[..p] ensures Before(e, a) {
      assert e in sorted;
      EarlierIsApart(visited, a, b, e);
    }
    assert forall d :: d in ds[..p] || d == a || d in ds[p..] ==> d in sorted;
    ShorterIsKept(ds[..p], a, ds[p..]);
    UniqueKeeps([], sorted);
    KeptShorterHides(Unique([], sorted), a, b);
  }

  lemma KeptShorterHides(kept: seq<Decl>, a: Decl, b: Decl)
    requires Disjoint(kept) && a in kept && a.begin == b.begin && a.begin <= a.end < b.end
    ensures !CoveredBy(kept, b)
  {
    if CoveredBy(kept, b) {
      var k :| 0 <= k < |kept| && Contains(kept[k], b);
      Apart(kept, kept[k], a);
    }
  }

  /** Whatever order the sort gives to declarations that begin together, everything visited stays covered,
      if and only if all of them are sheltered. */
  lemma {:induction false} CoveredIffSheltered(visited: seq<Decl>)
    requires Laminar(visited)
    ensures Sheltered(visited)
       <==> forall sorted :: Sorted(sorted) && multiset(sorted) == multiset(visited) ==>
              Covers(Unique([], sorted), visited)
  {
    if Sheltered(visited) {
      forall sorted | Sorted(sorted) && multiset(sorted) == multiset(visited)
        ensures Covers(Unique([], sorted), visited)
      {
        ShelteredIsCovered(visited, sorted);
      }
    } else {
      var a, b :| a in visited && b in visited && a.begin == b.begin && a.end != b.end && !Shelter(visited, a, b);
      var sorted: seq<Decl>;
      if a.end < b.end {
        sorted := UnshelteredIsLost(visited, a, b);
      } else {
        assert Shelter(visited, b, a) ==> Shelter(visited, a, b);
        sorted := UnshelteredIsLost(visited, b, a);
      }
      assert !Covers(Unique([], sorted), visited);
    }
  }

  /** The smallest case: of two declarations that begin together, and nothing else, the sort may put the
      inner one first. A search at a location behind it then finds nothing. */
  lemma SharedBeginHidesOuter(inner: Decl, outer: Decl, location: nat)
    requires inner.begin == outer.begin <= inner.end < location < outer.end
    ensures Laminar([outer, inner]) && !Sheltered([outer, inner])
    ensures Sorted([inner, outer]) && multiset([inner, outer]) == multiset([outer, inner])
    ensures forall d :: d in Unique([], [inner, outer]) ==> !(d.begin < location < d.end)
  {
    assert [inner, outer][1..] == [outer] && [] + [inner] == [inner] && [outer][1..] == [];
    assert Unique([inner], [outer]) == Unique([inner], []) == [inner];
    assert outer in [outer, inner] && inner in [outer, inner] && !Shelter([outer, inner], inner, outer);
  }

  // ---- The unit ---------------------------------------------------------------------------------------

  class ThreadSafeASTUnit {
    var decls: seq<Decl>

    constructor ()
      ensures decls == []
    {
      decls := [];
    }

    /** Collects the visited declarations, sorts them and erases what overlaps an earlier one. What
        stays is strictly apart; if all are sheltered, it covers everything visited. */
    method RecordDeclarations(visited: seq<Decl>) returns (ghost sorted: seq<Decl>)
      requires Laminar(visited)
      modifies this
      ensures Sorted(sorted) && multiset(sorted) == multiset(visited) && decls == Unique([], sorted)
      ensures Disjoint(decls) && forall d :: d in decls ==> d in visited
      ensures Sheltered(visited) ==> Covers(decls, visited)
    {
      var ds := SortByBegin(visited);
      sorted := ds;
      decls := [];
      for n := 0 to |ds|
        invariant Unique(decls, ds[n..]) == Unique([], ds)
      {
        assert ds[n..][1..] == ds[n + 1..];
        if decls == [] || Before(decls[|decls| - 1], ds[n]) {
          decls := decls + [ds[n]];
        }
      }
      SameElements(ds, visited);
      UniqueKeeps([], ds);
      if Sheltered(visited) {
        ShelteredIsCovered(visited, ds);
      }
    }

    /** Binary search for the first declaration that does not end before the location, then the
        test that the location is strictly inside. */
    method GetDecl(location: nat) returns (found: Option<Decl>)
      requires Disjoint(decls) && forall i :: 0 <= i < |decls| ==> decls[i].begin <= decls[i].end
      ensures found.Some? ==> found.value in decls && found.value.begin < location < found.value.end
      ensures found.None? ==> forall d :: d in decls ==> !(d.begin < location < d.end)
    {
      if decls == [] {
        return None;
      }
      var lower, upper := 0, |decls|;
      while lower < upper
        invariant 0 <= lower <= upper <= |decls|
        invariant forall i :: 0 <= i < lower ==> decls[i].end < location
        invariant forall i :: upper <= i < |decls| ==> decls[i].end >= location
      {
        var middle := (lower + upper) / 2;
        if decls[middle].end < location {
          EndsGrow(decls, middle);
          lower := middle + 1;
        } else {
          EndsGrow(decls, middle);
          upper := middle;
        }
      }
      if lower == |decls| {
        return None;
      }
      if decls[lower].begin < location < decls[lower].end {
        return Some(decls[lower]);
      }
      found := None;
      forall i | 0 <= i < |decls| ensures !(decls[i].begin < location < decls[i].end) {
        if i > lower {
          assert Before(decls[lower], decls[i]);
        }
      }
    }
  }

  lemma EndsGrow(ds: seq<Decl>, k: nat)
    requires Disjoint(ds) && k < |ds| && forall i :: 0 <= i < |ds| ==> ds[i].begin <= ds[i].end
    ensures forall i :: 0 <= i < k ==> ds[i].end <= ds[k].end
    ensures forall i :: k < i < |ds| ==> ds[k].end <= ds[i].end
  {
    assert forall i :: 0 <= i < k ==> Before(ds[i], ds[k]);
    assert forall i :: k < i < |ds| ==> Before(ds[k], ds[i]);
  }

  /** Reading the answer of a search on the recorded index against everything that was visited: a hit
      is the outermost visited declaration strictly around the location, and a miss means that no
      visited declaration is. */
  lemma SearchIsOutermost(visited: seq<Decl>, decls: seq<Decl>, location: nat, found: Option<Decl>)
    requires Disjoint(decls) && Covers(decls, visited)
    requires found.Some? ==> found.value in decls && found.value.begin < location < found.value.end
    requires found.None? ==> forall d :: d in decls ==> !(d.begin < location < d.end)
    ensures found.None? <==> forall d :: d in visited ==> !(d.begin < location < d.end)
    ensures found.Some? ==> found.value in visited && found.value.begin < location < found.value.end
    ensures found.Some? ==> forall d :: d in visited && d.begin < location < d.end ==> Contains(found.value, d)
  {
    forall d | d in visited && d.begin < location < d.end
      ensures found.Some? && Contains(found.value, d)
    {
      assert CoveredBy(decls, d);
      var k :| 0 <= k < |decls| && Contains(decls[k], d);
      assert decls[k] in decls;
      if found.Some? {
        Apart(decls, found.value, decls[k]);
      }
    }
  }
}
