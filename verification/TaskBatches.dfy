/** How the executor splits its input among the workers. */
module TaskBatches {

  function Sum(s: seq<nat>): nat {
    if s == [] then 0 else Sum(s[..|s| - 1]) + s[|s| - 1]
  }

  lemma SumAppend(s: seq<nat>, x: nat)
    ensures Sum(s + [x]) == Sum(s) + x
  {
    assert (s + [x])[..|s|] == s;
  }

  lemma {:induction false} SumPrefix(s: seq<nat>, k: nat)
    requires k <= |s|
    ensures Sum(s[..k]) <= Sum(s)
    decreases |s|
  {
    if k < |s| {
      SumPrefix(s[..|s| - 1], k);
      assert s[..|s| - 1][..k] == s[..k];
    } else {
      assert s[..k] == s;
    }
  }

  lemma Multiples(d: int, m: int)
    requires m > 0
    ensures d >= 1 ==> d * m >= m
    ensures d <= 0 ==> d * m <= 0
    ensures d <= -1 ==> d * m <= -m
  {
  }

  /** Quotient and remainder are determined by their defining equation. */
  lemma DivModUnique(x: int, m: int, q: int, r: int)
    requires m > 0 && x == q * m + r && 0 <= r < m
    ensures x / m == q && x % m == r
  {
    var d := x / m - q;
    assert x == (x / m) * m + x % m;
    assert d * m == (x / m) * m - q * m;
    Multiples(d, m);
  }

  /** The expression of the loop: the quotient of what is left for worker k, rounded up. */
  function BatchSize(n: nat, m: nat, k: nat): nat
    requires k < m <= n
  {
    (n - k) / m + (if (n - k) % m != 0 then 1 else 0)
  }

  /** It is n / m, plus one for each of the first n % m workers. */
  lemma BatchValue(n: nat, m: nat, k: nat)
    requires k < m <= n
    ensures BatchSize(n, m, k) == n / m + (if k < n % m then 1 else 0)
  {
    var q, r := n / m, n % m;
    assert n == q * m + r;
    if k <= r {
      DivModUnique(n - k, m, q, r - k);
    } else {
      assert (q - 1) * m == q * m - m;
      DivModUnique(n - k, m, q - 1, m + r - k);
    }
  }

  /** It is the smallest number of batches of m items that hold n - k items. */
  lemma BatchIsCeiling(n: nat, m: nat, k: nat)
    requires k < m <= n
    ensures (BatchSize(n, m, k) - 1) * m < n - k <= BatchSize(n, m, k) * m
  {
    assert n - k == ((n - k) / m) * m + (n - k) % m;
  }

  /** How many items the first k workers get. */
  function Taken(n: nat, m: nat, k: nat): nat
    requires k <= m <= n && m > 0
  {
    k * (n / m) + (if k < n % m then k else n % m)
  }

  lemma TakenStep(n: nat, m: nat, k: nat)
    requires k < m <= n
    ensures Taken(n, m, k + 1) == Taken(n, m, k) + BatchSize(n, m, k)
  {
    BatchValue(n, m, k);
    assert (k + 1) * (n / m) == k * (n / m) + n / m;
  }

  lemma TakenAll(n: nat, m: nat)
    requires 0 < m <= n
    ensures Taken(n, m, m) == n && n / m >= 1
  {
    assert n == m * (n / m) + n % m;
    assert m * (n / m) == (n / m) * m;
    Multiples(n / m, m);
  }

  /** Ceil-division batching: the batches cover all items, none is empty, they never grow and
      differ by at most one. */
  method Batches(itemsCount: nat, tasks: nat) returns (result: seq<nat>)
    requires itemsCount >= tasks && (tasks == 0 ==> itemsCount == 0)
    ensures |result| == tasks
    ensures Sum(result) == itemsCount
    ensures forall k :: 0 <= k < tasks ==> result[k] == BatchSize(itemsCount, tasks, k) >= 1
    ensures forall j, k :: 0 <= j <= k < tasks ==> result[k] <= result[j] <= result[k] + 1
  {
    var n, m := itemsCount, tasks;
    result := [];
    var start, end, s := 0, 0, 0;
    for k := 0 to m
      invariant |result| == k && s == end == Sum(result) == (if m == 0 then 0 else Taken(n, m, k))
      invariant forall j :: 0 <= j < k ==> result[j] == BatchSize(n, m, j)
    {
      var q := (n - k) / m;
      var r := (n - k) % m;
      TakenStep(n, m, k);
      start := end;
      end := end + q + (if r != 0 then 1 else 0);
      s := s + end - start;
      SumAppend(result, end - start);
      result := result + [end - start];
    }
    if m > 0 {
      TakenAll(n, m);
    }
    forall k | 0 <= k < m ensures result[k] == n / m + (if k < n % m then 1 else 0) {
      BatchValue(n, m, k);
    }
  }
}
