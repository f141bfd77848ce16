/** Finite sums over sequences, and how they react to point updates. */
module Sums {
  import opened BitString

  function Sum(g: seq<int>): int {
    if g == [] then 0 else Sum(g[..|g| - 1]) + g[|g| - 1]
  }

  lemma {:induction false} SumNonNegative(g: seq<int>)
    requires forall i :: 0 <= i < |g| ==> g[i] >= 0
    ensures Sum(g) >= 0
  {
    if g != [] {
      SumNonNegative(g[..|g| - 1]);
    }
  }

  /** The sum of g over the listed indices. */
  function SumAt(at: seq<nat>, g: seq<int>): int
    requires forall j :: 0 <= j < |at| ==> at[j] < |g|
  {
    if at == [] then 0 else SumAt(at[..|at| - 1], g) + g[at[|at| - 1]]
  }

  predicate Distinct(at: seq<nat>) {
    forall i, j :: 0 <= i < j < |at| ==> at[i] != at[j]
  }

  lemma {:induction false} SumUpdate(g: seq<int>, i: nat, v: int)
    requires i < |g|
    ensures Sum(g[i := v]) == Sum(g) - g[i] + v
  {
    var n := |g| - 1;
    if i == n {
      assert g[i := v][..n] == g[..n];
    } else {
      assert g[i := v][..n] == g[..n][i := v];
      SumUpdate(g[..n], i, v);
    }
  }

  lemma {:induction false} SumZero(g: seq<int>)
    requires forall i :: 0 <= i < |g| ==> g[i] == 0
    ensures Sum(g) == 0
  {
    if g != [] {
      SumZero(g[..|g| - 1]);
    }
  }

  lemma {:induction false} SumAtLeastTerm(g: seq<int>, i: nat)
    requires i < |g| && forall k :: 0 <= k < |g| ==> g[k] >= 0
    ensures g[i] <= Sum(g)
  {
    if i < |g| - 1 {
      SumAtLeastTerm(g[..|g| - 1], i);
    } else {
      SumNonNegative(g[..|g| - 1]);
    }
  }

  lemma {:induction false} SumAtConcat(a: seq<nat>, b: seq<nat>, g: seq<int>)
    requires forall j :: 0 <= j < |a| ==> a[j] < |g|
    requires forall j :: 0 <= j < |b| ==> b[j] < |g|
    ensures SumAt(a + b, g) == SumAt(a, g) + SumAt(b, g)
  {
    if b == [] {
      assert a + b == a;
    } else {
      var b' := b[..|b| - 1];
      assert (a + b)[..|a + b| - 1] == a + b';
      SumAtConcat(a, b', g);
    }
  }

  /** A sum whose terms vanish off a list of distinct indices is the sum over the list. */
  lemma {:induction false} SumIsSumAt(at: seq<nat>, g: seq<int>)
    requires Distinct(at) && forall j :: 0 <= j < |at| ==> at[j] < |g|
    requires forall i :: 0 <= i < |g| && i !in at ==> g[i] == 0
    ensures Sum(g) == SumAt(at, g)
    decreases |at|
  {
    if at == [] {
      SumZero(g);
    } else {
      var n, last := |at| - 1, at[|at| - 1];
      var g' := g[last := 0];
      assert at == at[..n] + [last];
      SumIsSumAt(at[..n], g');
      SumUpdate(g, last, 0);
      SumAtAgrees(at[..n], g, g');
    }
  }

  lemma {:induction false} SumAtAgrees(at: seq<nat>, g: seq<int>, h: seq<int>)
    requires |g| == |h|
    requires forall j :: 0 <= j < |at| ==> at[j] < |g| && g[at[j]] == h[at[j]]
    ensures SumAt(at, g) == SumAt(at, h)
  {
    if at != [] {
      SumAtAgrees(at[..|at| - 1], g, h);
    }
  }

  lemma ModAdd(a: int, b: int, q: int)
    requires q > 0 && a % q == 0 && b % q == 0
    ensures (a + b) % q == 0
  {
    var x, y := a / q, b / q;
    assert a == x * q && b == y * q;
    assert a + b == (x + y) * q;
    ModOfMultiple(x + y, q);
  }

  lemma ModOfMultiple(x: int, q: int)
    requires q > 0
    ensures (x * q) % q == 0
  {
    DivModUnique(x * q, q, x, 0);
  }

  lemma {:induction false} SumOfMultiples(g: seq<int>, q: int)
    requires q > 0 && forall i :: 0 <= i < |g| ==> g[i] % q == 0
    ensures Sum(g) % q == 0
  {
    if g != [] {
      SumOfMultiples(g[..|g| - 1], q);
      ModAdd(Sum(g[..|g| - 1]), g[|g| - 1], q);
    }
  }

  /** Two multiples of q that differ, differ by at least q. */
  lemma GapBetweenMultiples(a: int, b: int, q: int)
    requires q > 0 && a % q == 0 && b % q == 0 && a < b
    ensures a + q <= b
  {
    var x, y := a / q, b / q;
    assert a == x * q && b == y * q;
    if y <= x {
      MulMonotone(y, x, q);
    } else {
      MulMonotone(x + 1, y, q);
      assert (x + 1) * q == x * q + q;
    }
  }
}
