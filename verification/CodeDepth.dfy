/**
 How long the codes of cheapest lengths can become: a code of length d needs a total of Fib(d + 2)
 at least, whatever the lengths are made by, and Fibonacci counts do need such lengths.
 */
module CodeDepth {
  import opened BitString
  import opened Sums
  import opened HuffmanTree

  /** Lengths that a prefix code can have and that no other such lengths beat. */
  ghost predicate Cheapest(f: seq<nat>, len: seq<nat>) {
    && |len| == |f|
    && (exists d: nat :: Feasible(f, len, d))
    && (forall l: seq<nat>, d: nat :: Feasible(f, l, d) ==> Cost(f, len) <= Cost(f, l))
  }

  function Fib(n: nat): (v: nat) {
    if n == 0 then 0 else if n == 1 then 1 else Fib(n - 1) + Fib(n - 2)
  }

  lemma {:induction false} FibMonotone(m: nat, n: nat)
    requires m <= n
    ensures Fib(m) <= Fib(n)
    decreases n
  {
    if m < n {
      FibMonotone(m, n - 1);
      if n > 1 && m < n - 1 {
        FibMonotone(m, n - 2);
      }
    }
  }

  function UsedSymbols(f: seq<nat>): set<nat> {
    set s: nat | 0 <= s < |f| && f[s] > 0
  }

  // ----- three properties of cheapest lengths

  /** Of two symbols the one with the shorter code is at least as frequent. */
  lemma ShorterIsMoreFrequent(f: seq<nat>, len: seq<nat>, x: nat, u: nat)
    requires Cheapest(f, len) && x < |f| && u < |f| && f[x] > 0 && f[u] > 0 && len[u] < len[x]
    ensures f[u] >= f[x]
  {
    var d: nat :| Feasible(f, len, d);
    SwapKeepsKraft(f, len, d, u, x);
    SwapGains(f, len, u, x);
    assert Feasible(f, Swapped(len, u, x), d);
  }

  lemma SwapGains(f: seq<nat>, len: seq<nat>, a: nat, b: nat)
    requires |f| == |len| && a < |f| && b < |f| && a != b && len[a] < len[b]
    ensures f[a] < f[b] ==> Cost(f, Swapped(len, a, b)) < Cost(f, len)
  {
    var c, x, y := CostTerms(f, len), f[a] * len[b], f[b] * len[a];
    assert CostTerms(f, Swapped(len, a, b)) == c[a := x][b := y];
    SumOfTwo(c, a, x, b, y);
    if f[a] < f[b] {
      StrictRearrangement(f[a], f[b], len[a], len[b]);
    }
  }

  lemma StrictRearrangement(x: nat, y: nat, p: nat, q: nat)
    requires x < y && p < q
    ensures x * q + y * p < x * p + y * q
  {
    assert 0 < (y - x) * (q - p);
  }

  /** A longest code is not the only one of its length: it could lose its last bit. */
  lemma NotAlone(f: seq<nat>, len: seq<nat>, x: nat) returns (y: nat)
    requires Cheapest(f, len) && x < |f| && f[x] > 0 && len[x] > 0
    requires forall i :: 0 <= i < |f| && f[i] > 0 ==> len[i] <= len[x]
    ensures y < |f| && y != x && f[y] > 0 && len[y] == len[x]
  {
    var d: nat :| Feasible(f, len, d);
    ShorteningGains(f, len, x);
    hide Cost, Kraft;
    if forall i :: 0 <= i < |f| && f[i] > 0 && i != x ==> len[i] < len[x] {
      ShortenedIsFeasible(f, len, d, x);
    }
    y :| 0 <= y < |f| && f[y] > 0 && y != x && len[y] >= len[x];
  }

  lemma ShorteningGains(f: seq<nat>, len: seq<nat>, x: nat)
    requires |f| == |len| && x < |f| && f[x] > 0 && len[x] > 0
    ensures Cost(f, len[x := len[x] - 1]) < Cost(f, len)
  {
    assert CostTerms(f, len[x := len[x] - 1]) == CostTerms(f, len)[x := f[x] * (len[x] - 1)];
    SumUpdate(CostTerms(f, len), x, f[x] * (len[x] - 1));
    assert f[x] * (len[x] - 1) == f[x] * len[x] - f[x];
  }

  lemma ShortenedIsFeasible(f: seq<nat>, len: seq<nat>, d: nat, x: nat)
    requires Feasible(f, len, d) && x < |f| && f[x] > 0 && len[x] > 0
    requires forall i :: 0 <= i < |f| && f[i] > 0 && i != x ==> len[i] < len[x]
    ensures Feasible(f, len[x := len[x] - 1], d)
  {
    var r, k := len[x := len[x] - 1], KraftTerms(f, len, d);
    var q := Pow2(d - len[x]);
    assert Bounded(f, r, d);
    assert KraftTerms(f, r, d) == k[x := 2 * q];
    SumUpdate(k, x, 0);
    SumUpdate(k, x, 2 * q);
    RestIsMultiple(f, len, d, x);
    DoubleDivides(d, len[x]);
    ModOfMultiple(1, 2 * q);
    GapBetweenMultiples(Sum(k[x := 0]), Pow2(d), 2 * q);
  }

  lemma DoubleDivides(d: nat, l: nat)
    requires 0 < l <= d
    ensures Pow2(d) % (2 * Pow2(d - l)) == 0
  {
    Pow2Add(l - 1, d - l + 1);
    ModOfMultiple(Pow2(l - 1), 2 * Pow2(d - l));
  }

  lemma RestIsMultiple(f: seq<nat>, len: seq<nat>, d: nat, x: nat)
    requires |f| == |len| && Bounded(f, len, d) && x < |f| && f[x] > 0 && len[x] > 0
    requires forall i :: 0 <= i < |f| && f[i] > 0 && i != x ==> len[i] < len[x]
    ensures Sum(KraftTerms(f, len, d)[x := 0]) % (2 * Pow2(d - len[x])) == 0
  {
    hide Pow2, Sum;
    var g, q := KraftTerms(f, len, d)[x := 0], 2 * Pow2(d - len[x]);
    forall i | 0 <= i < |g| ensures g[i] % q == 0 {
      if f[i] > 0 && i != x {
        TermIsMultiple(d, len[i], len[x]);
      } else {
        ModOfMultiple(0, q);
      }
    }
    SumOfMultiples(g, q);
  }

  lemma TermIsMultiple(d: nat, l: nat, m: nat)
    requires l < m <= d
    ensures Pow2(d - l) % (2 * Pow2(d - m)) == 0
  {
    Pow2Add(m - 1 - l, d - m + 1);
    ModOfMultiple(Pow2(m - 1 - l), 2 * Pow2(d - m));
  }

  /** Two codes of one length may be taken for one, a bit shorter: that is cheapest for the merged counts. */
  lemma MergedIsCheapest(f: seq<nat>, len: seq<nat>, x: nat, y: nat)
    requires Cheapest(f, len) && x < |f| && y < |f| && x != y && f[x] > 0 && f[y] > 0
    requires len[x] == len[y] > 0
    ensures Cheapest(Merged(f, x, y), len[x := len[x] - 1])
  {
    var g, r := Merged(f, x, y), len[x := len[x] - 1];
    var d: nat :| Feasible(f, len, d);
    JoinedPair(f, len, d, x, y);
    forall l: seq<nat>, e: nat | Feasible(g, l, e) ensures Cost(g, r) <= Cost(g, l) {
      SplitPair(f, l, e, x, y);
    }
  }

  lemma JoinedPair(f: seq<nat>, len: seq<nat>, d: nat, x: nat, y: nat)
    requires Feasible(f, len, d) && x < |f| && y < |f| && x != y && f[x] > 0 && f[y] > 0
    requires len[x] == len[y] > 0
    ensures Feasible(Merged(f, x, y), len[x := len[x] - 1], d)
    ensures Cost(Merged(f, x, y), len[x := len[x] - 1]) + f[x] + f[y] == Cost(f, len)
  {
    JoinedKraft(f, len, d, x, y);
    JoinedCost(f, len, x, y, len[x]);
  }

  lemma JoinedKraft(f: seq<nat>, len: seq<nat>, d: nat, x: nat, y: nat)
    requires Feasible(f, len, d) && x < |f| && y < |f| && x != y && f[x] > 0 && f[y] > 0
    requires len[x] == len[y] > 0
    ensures Feasible(Merged(f, x, y), len[x := len[x] - 1], d)
  {
    var g, r := Merged(f, x, y), len[x := len[x] - 1];
    var k, t := KraftTerms(f, len, d), Pow2(d - len[x]);
    assert Bounded(g, r, d);
    assert Pow2(d - r[x]) == 2 * t;
    hide Pow2, Sum;
    assert KraftTerms(g, r, d) == k[x := 2 * t][y := 0];
    SumOfTwo(k, x, 2 * t, y, 0);
  }

  /** Two symbols with codes of length l, and one with a code of length l - 1 in their place. */
  lemma JoinedCost(f: seq<nat>, len: seq<nat>, x: nat, y: nat, l: nat)
    requires |f| == |len| && x < |f| && y < |f| && x != y && l > 0 && len[x] == len[y] == l
    ensures Cost(Merged(f, x, y), len[x := l - 1]) + f[x] + f[y] == Cost(f, len)
  {
    hide Sum;
    var c, v := CostTerms(f, len), (f[x] + f[y]) * (l - 1);
    JoinedTerms(f, len, x, y, l);
    SumOfTwo(c, x, v, y, 0);
    Distribute(f[x], f[y], l);
  }

  lemma JoinedTerms(f: seq<nat>, len: seq<nat>, x: nat, y: nat, l: nat)
    requires |f| == |len| && x < |f| && y < |f| && x != y && l > 0
    ensures CostTerms(Merged(f, x, y), len[x := l - 1]) == CostTerms(f, len)[x := (f[x] + f[y]) * (l - 1)][y := 0]
  {
    var a, b := CostTerms(Merged(f, x, y), len[x := l - 1]), CostTerms(f, len)[x := (f[x] + f[y]) * (l - 1)][y := 0];
    forall i | 0 <= i < |f| ensures a[i] == b[i] {
    }
  }

  lemma Distribute(p: nat, q: nat, l: nat)
    requires l > 0
    ensures (p + q) * (l - 1) + p + q == p * l + q * l
  {
  }

  lemma SumOfTwo(k: seq<int>, x: nat, v: int, y: nat, w: int)
    requires x < |k| && y < |k| && x != y
    ensures Sum(k[x := v][y := w]) == Sum(k) - k[x] - k[y] + v + w
  {
    SumUpdate(k, x, v);
    SumUpdate(k[x := v], y, w);
  }

  lemma SplitPair(f: seq<nat>, l: seq<nat>, d: nat, x: nat, y: nat)
    requires x < |f| && y < |f| && x != y && f[x] > 0 && f[y] > 0 && Feasible(Merged(f, x, y), l, d)
    ensures Feasible(f, l[x := l[x] + 1][y := l[x] + 1], d + 1)
    ensures Cost(f, l[x := l[x] + 1][y := l[x] + 1]) == Cost(Merged(f, x, y), l) + f[x] + f[y]
  {
    var g, r := Merged(f, x, y), l[x := l[x] + 1][y := l[x] + 1];
    SplitKraft(f, l, d, x, y);
    JoinedCost(f, r, x, y, l[x] + 1);
    assert CostTerms(g, r[x := l[x]]) == CostTerms(g, l);
  }

  lemma SplitKraft(f: seq<nat>, l: seq<nat>, d: nat, x: nat, y: nat)
    requires x < |f| && y < |f| && x != y && f[x] > 0 && f[y] > 0 && Feasible(Merged(f, x, y), l, d)
    ensures Feasible(f, l[x := l[x] + 1][y := l[x] + 1], d + 1)
  {
    hide Pow2, Sum;
    var g, r := Merged(f, x, y), l[x := l[x] + 1][y := l[x] + 1];
    assert g[x] > 0;
    KraftDoubles(g, l, d);
    Doubles(d);
    Doubles(d - l[x]);
    var k, t := KraftTerms(g, l, d + 1), Pow2(d - l[x]);
    assert Bounded(f, r, d + 1);
    assert k[x] == 2 * t && k[y] == 0;
    assert KraftTerms(f, r, d + 1) == k[x := t][y := t];
    SumOfTwo(k, x, t, y, t);
  }

  lemma Doubles(n: nat)
    ensures Pow2(n + 1) == 2 * Pow2(n)
  {
  }

  lemma KraftDoubles(f: seq<nat>, len: seq<nat>, d: nat)
    requires |f| == |len| && Bounded(f, len, d)
    ensures Bounded(f, len, d + 1) && Kraft(f, len, d + 1) == 2 * Kraft(f, len, d)
  {
    SumDoubles(KraftTerms(f, len, d), KraftTerms(f, len, d + 1));
  }

  lemma {:induction false} SumDoubles(g: seq<int>, h: seq<int>)
    requires |g| == |h| && forall i :: 0 <= i < |g| ==> h[i] == 2 * g[i]
    ensures Sum(h) == 2 * Sum(g)
  {
    if g != [] {
      SumDoubles(g[..|g| - 1], h[..|h| - 1]);
    }
  }

  // ----- the bound

  lemma FewerSymbols(f: seq<nat>, x: nat, y: nat)
    requires x < |f| && y < |f| && x != y && f[x] > 0 && f[y] > 0
    ensures UsedSymbols(Merged(f, x, y)) < UsedSymbols(f)
  {
    var a, b := UsedSymbols(Merged(f, x, y)), UsedSymbols(f);
    forall s | s in a ensures s in b {
    }
    assert y in b && y !in a;
  }

  lemma SameTotal(f: seq<nat>, x: nat, y: nat)
    requires x < |f| && y < |f| && x != y
    ensures Sum(Merged(f, x, y)) == Sum(f)
  {
    hide Sum;
    SumOfMerged(f, x, y, f[x] + f[y]);
  }

  /** Two symbols other than x that have codes of the greatest length. */
  ghost predicate PairBeside(f: seq<nat>, len: seq<nat>, x: nat, m: nat, u: nat, v: nat)
    requires |f| == |len| && m < |f|
  {
    u < |f| && v < |f| && u != v && u != x && v != x && f[u] > 0 && f[v] > 0 && len[u] == len[v] == len[m]
  }

  /**
   A symbol of count a or more, among others of count b or more, has a code of length l only if the
   counts add up to a * Fib(l + 1) + b * Fib(l).
   */
  lemma {:induction false} LongCodesAreHeavy(f: seq<nat>, len: seq<nat>, x: nat, a: nat, b: nat)
    requires Cheapest(f, len) && x < |f| && f[x] > 0 && f[x] >= a >= b
    requires forall i :: 0 <= i < |f| && f[i] > 0 && i != x ==> f[i] >= b
    ensures Sum(f) >= a * Fib(len[x] + 1) + b * Fib(len[x])
    decreases UsedSymbols(f)
  {
    hide *;
    OneLengthEach(f, len);
    if len[x] == 0 {
      NoBits(f, x, a, b);
    } else {
      var m := LongestExcept(f, len, |f|, -1);
      if u: nat, v: nat :| PairBeside(f, len, x, m, u, v) {
        var g, r := PairMerged(f, len, x, m, u, v, b);
        LongCodesAreHeavy(g, r, x, a, b);
      } else {
        var y := OnlyPartner(f, len, x, m);
        var g, r := PartnerMerged(f, len, x, y, m);
        LongCodesAreHeavy(g, r, x, a + b, a);
        FibStep(len[x], a, b);
      }
    }
  }

  lemma OneLengthEach(f: seq<nat>, len: seq<nat>)
    requires Cheapest(f, len)
    ensures |len| == |f|
  {
  }

  lemma NoBits(f: seq<nat>, x: nat, a: nat, b: nat)
    requires x < |f| && f[x] >= a
    ensures Sum(f) >= a * Fib(1) + b * Fib(0)
  {
    SumAtLeastTerm(f, x);
    assert Fib(1) == 1 && Fib(0) == 0;
  }

  /** The pair is merged, and x is left alone. */
  lemma PairMerged(f: seq<nat>, len: seq<nat>, x: nat, m: nat, u: nat, v: nat, b: nat)
    returns (g: seq<nat>, r: seq<nat>)
    requires Cheapest(f, len) && x < |f| && m < |f| && len[m] >= len[x] > 0 && PairBeside(f, len, x, m, u, v)
    requires forall i :: 0 <= i < |f| && f[i] > 0 && i != x ==> f[i] >= b
    ensures Cheapest(g, r) && |g| == |r| == |f| && g[x] == f[x] && r[x] == len[x] && Sum(g) == Sum(f)
    ensures forall i :: 0 <= i < |g| && g[i] > 0 && i != x ==> g[i] >= b
    ensures UsedSymbols(g) < UsedSymbols(f)
  {
    g, r := Merged(f, u, v), len[u := len[u] - 1];
    FewerSymbols(f, u, v);
    SameTotal(f, u, v);
    MergedIsCheapest(f, len, u, v);
    hide Cheapest, Sum, UsedSymbols;
  }

  /** x is merged with its partner. */
  lemma PartnerMerged(f: seq<nat>, len: seq<nat>, x: nat, y: nat, m: nat)
    returns (g: seq<nat>, r: seq<nat>)
    requires Cheapest(f, len) && x < |f| && y < |f| && m < |f| && y != x && f[x] > 0 && f[y] > 0 && len[x] > 0
    requires len[y] == len[x] == len[m] && forall i :: 0 <= i < |f| && f[i] > 0 ==> len[i] <= len[m]
    requires forall u: nat, v: nat :: !PairBeside(f, len, x, m, u, v)
    ensures Cheapest(g, r) && |g| == |r| == |f| && g[x] == f[x] + f[y] && r[x] == len[x] - 1 && Sum(g) == Sum(f)
    ensures forall i :: 0 <= i < |g| && g[i] > 0 && i != x ==> g[i] >= f[x]
    ensures UsedSymbols(g) < UsedSymbols(f)
  {
    g, r := Merged(f, x, y), len[x := len[x] - 1];
    FewerSymbols(f, x, y);
    SameTotal(f, x, y);
    MergedIsCheapest(f, len, x, y);
    OthersAreFrequent(f, len, x, y, m);
    hide Cheapest, Sum, UsedSymbols, PairBeside;
  }

  lemma FibStep(l: nat, a: nat, b: nat)
    requires l > 0
    ensures (a + b) * Fib(l) + a * Fib(l - 1) == a * Fib(l + 1) + b * Fib(l)
  {
    assert Fib(l + 1) == Fib(l) + Fib(l - 1);
  }

  /** If there is no such pair, x is one of just two symbols with a longest code. */
  lemma OnlyPartner(f: seq<nat>, len: seq<nat>, x: nat, m: nat) returns (y: nat)
    requires Cheapest(f, len) && x < |f| && m < |f| && f[x] > 0 && f[m] > 0 && len[x] > 0
    requires forall i :: 0 <= i < |f| && f[i] > 0 ==> len[i] <= len[m]
    requires forall u: nat, v: nat :: !PairBeside(f, len, x, m, u, v)
    ensures y < |f| && y != x && f[y] > 0 && len[y] == len[x] == len[m]
  {
    y := NotAlone(f, len, m);
    assert !PairBeside(f, len, x, m, m, y);
    if y == x {
      y := m;
    }
  }

  lemma OthersAreFrequent(f: seq<nat>, len: seq<nat>, x: nat, y: nat, m: nat)
    requires Cheapest(f, len) && x < |f| && y < |f| && m < |f| && y != x && f[x] > 0 && f[y] > 0
    requires len[y] == len[x] == len[m] && forall i :: 0 <= i < |f| && f[i] > 0 ==> len[i] <= len[m]
    requires forall u: nat, v: nat :: !PairBeside(f, len, x, m, u, v)
    ensures forall i :: 0 <= i < |f| && f[i] > 0 && i != x && i != y ==> f[i] >= f[x]
  {
    forall i | 0 <= i < |f| && f[i] > 0 && i != x && i != y ensures f[i] >= f[x] {
      assert !PairBeside(f, len, x, m, i, y);
      ShorterIsMoreFrequent(f, len, x, i);
    }
  }

  /** Cheapest lengths for counts of a total below Fib(d + 3) do not exceed d. */
  lemma LightIsShallow(f: seq<nat>, len: seq<nat>, d: nat)
    requires Cheapest(f, len) && Sum(f) < Fib(d + 3)
    ensures Bounded(f, len, d)
  {
    forall s | 0 <= s < |f| && f[s] > 0 ensures len[s] <= d {
      if len[s] > d {
        LongCodesAreHeavy(f, len, s, 1, 1);
        assert Fib(len[s] + 2) == Fib(len[s] + 1) + Fib(len[s]);
        FibMonotone(d + 3, len[s] + 2);
      }
    }
  }

  // ----- the bound is reached

  /** The used symbols by count, each count beyond the first two above the sum of all but the one before. */
  ghost predicate Steep(f: seq<nat>, order: seq<nat>) {
    && order != [] && Distinct(order) && InRange(f, order)
    && (forall i :: 0 <= i < |f| && f[i] > 0 ==> i in order)
    && (forall k :: 2 <= k < |order| ==>
          f[order[k]] > f[order[k - 1]] && f[order[k]] > SumAt(order[..k - 1], f))
  }

  ghost predicate InRange(f: seq<nat>, order: seq<nat>) {
    forall k {:trigger order[k]} :: 0 <= k < |order| ==> order[k] < |f| && f[order[k]] > 0
  }

  /** Steep counts make one branch: its deepest symbol is as deep as there are others. */
  lemma {:induction false} SteepIsDeep(f: seq<nat>, len: seq<nat>, order: seq<nat>)
    requires Cheapest(f, len) && Steep(f, order)
    ensures order[0] < |len| && len[order[0]] == |order| - 1
    decreases |order|
  {
    var x := order[0];
    assert InRange(f, order);
    if |order| == 1 {
      LoneSymbol(f, len, x, order);
    } else {
      var y := order[1];
      RarestPair(f, len, order);
      var g, r, rest := Merged(f, x, y), len[x := len[x] - 1], Joined(order);
      MergedIsCheapest(f, len, x, y);
      StaysSteep(f, order);
      hide Cheapest, Steep;
      SteepIsDeep(g, r, rest);
    }
  }

  lemma LoneSymbol(f: seq<nat>, len: seq<nat>, x: nat, order: seq<nat>)
    requires Cheapest(f, len) && Steep(f, order) && order == [x] && x < |f| == |len|
    ensures len[x] == 0
  {
    assert f[order[0]] > 0;
    var zeros: seq<nat> := seq(|f|, _ => 0);
    forall i | 0 <= i < |f| && i != x ensures f[i] == 0 {
      assert i !in order;
    }
    LoneZero(f, zeros, x);
    hide Cost, Feasible, Steep;
    assert Cost(f, len) <= 0;
    CostAtLeast(f, len, x);
    MulMonotone(1, f[x], len[x]);
  }

  lemma LoneZero(f: seq<nat>, zeros: seq<nat>, x: nat)
    requires x < |f| == |zeros| && forall i :: 0 <= i < |f| ==> zeros[i] == 0 && (i != x ==> f[i] == 0)
    ensures Feasible(f, zeros, 0) && Cost(f, zeros) == 0
  {
    var k := KraftTerms(f, zeros, 0);
    SumUpdate(k, x, 0);
    SumZero(k[x := 0]);
    SumZero(CostTerms(f, zeros));
  }

  lemma CostAtLeast(f: seq<nat>, len: seq<nat>, x: nat)
    requires |f| == |len| && x < |f|
    ensures f[x] * len[x] <= Cost(f, len)
  {
    SumAtLeastTerm(CostTerms(f, len), x);
  }

  /** Everything beyond the first two is more frequent than these. */
  lemma LaterIsMoreFrequent(f: seq<nat>, order: seq<nat>, k: nat)
    requires Steep(f, order) && InRange(f, order) && 2 <= k < |order|
    ensures f[order[k]] > f[order[0]] && f[order[k]] > f[order[1]]
  {
    assert SumAt(order[..1], f) == f[order[0]] by {
      assert order[..1][..0] == [];
    }
    if k > 2 {
      LaterIsMoreFrequent(f, order, k - 1);
      assert f[order[k]] > f[order[k - 1]];
    }
  }

  /** The first two have codes of one length, and no others are longer. */
  lemma RarestPair(f: seq<nat>, len: seq<nat>, order: seq<nat>)
    requires Cheapest(f, len) && Steep(f, order) && |order| >= 2
    ensures order[0] < |f| && order[1] < |f| && order[0] != order[1] && f[order[0]] > 0 && f[order[1]] > 0
    ensures len[order[0]] == len[order[1]] > 0
  {
    var x, y := order[0], order[1];
    assert InRange(f, order);
    forall i | 0 <= i < |f| && f[i] > 0 && i != x && i != y ensures len[i] <= len[x] && len[i] <= len[y] {
      var k :| 0 <= k < |order| && order[k] == i;
      LaterIsMoreFrequent(f, order, k);
      OfLesserLength(f, len, x, i);
      OfLesserLength(f, len, y, i);
    }
    BothNeedABit(f, len, x, y);
    LongestPair(f, len, x, y);
  }

  lemma OfLesserLength(f: seq<nat>, len: seq<nat>, x: nat, u: nat)
    requires Cheapest(f, len) && x < |f| && u < |f| && f[u] > f[x] > 0
    ensures len[u] <= len[x]
  {
    if len[x] < len[u] {
      ShorterIsMoreFrequent(f, len, u, x);
    }
  }

  lemma LongestPair(f: seq<nat>, len: seq<nat>, x: nat, y: nat)
    requires Cheapest(f, len) && x < |f| && y < |f| && x != y && f[x] > 0 && f[y] > 0 && len[x] > 0 && len[y] > 0
    requires |len| == |f|
    requires forall i :: 0 <= i < |f| && f[i] > 0 && i != x && i != y ==> len[i] <= len[x] && len[i] <= len[y]
    ensures len[x] == len[y]
  {
    hide Cheapest;
    if len[x] >= len[y] {
      var z := NotAlone(f, len, x);
    } else {
      var z := NotAlone(f, len, y);
    }
  }

  lemma BothNeedABit(f: seq<nat>, len: seq<nat>, x: nat, y: nat)
    requires Cheapest(f, len) && x < |f| && y < |f| && x != y && f[x] > 0 && f[y] > 0
    ensures len[x] > 0 && len[y] > 0
  {
    var d: nat :| Feasible(f, len, d);
    var k := KraftTerms(f, len, d);
    TwoTerms(k, x, y);
  }

  lemma TwoTerms(k: seq<int>, x: nat, y: nat)
    requires x < |k| && y < |k| && x != y && forall i :: 0 <= i < |k| ==> k[i] >= 0
    ensures k[x] + k[y] <= Sum(k)
  {
    SumUpdate(k, x, 0);
    SumAtLeastTerm(k[x := 0], y);
  }

  /** The order that is left when the first two have become one. */
  function Joined(order: seq<nat>): (r: seq<nat>)
    requires |order| >= 2
    ensures |r| == |order| - 1
    ensures forall k :: 0 <= k < |r| ==> r[k] == if k == 0 then order[0] else order[k + 1]
  {
    [order[0]] + order[2..]
  }

  lemma JoinedInRange(f: seq<nat>, order: seq<nat>)
    requires |order| >= 2 && Distinct(order) && InRange(f, order)
    ensures Distinct(Joined(order)) && InRange(Merged(f, order[0], order[1]), Joined(order))
  {
    assert order[0] < |f| && order[1] < |f| && order[0] != order[1];
    hide Joined;
  }

  lemma JoinedCovers(f: seq<nat>, order: seq<nat>)
    requires |order| >= 2 && order[0] < |f| && order[1] < |f|
    requires forall i :: 0 <= i < |f| && f[i] > 0 ==> i in order
    ensures var g := Merged(f, order[0], order[1]);
            forall i :: 0 <= i < |g| && g[i] > 0 ==> i in Joined(order)
  {
    var g, rest := Merged(f, order[0], order[1]), Joined(order);
    forall i | 0 <= i < |g| && g[i] > 0 ensures i in rest {
      if i == order[0] {
        assert rest[0] == i;
      } else {
        var k :| 0 <= k < |order| && order[k] == i;
        assert rest[k - 1] == i;
      }
    }
  }

  lemma StaysSteep(f: seq<nat>, order: seq<nat>)
    requires Steep(f, order) && InRange(f, order) && |order| >= 2
    ensures order[0] < |f| && order[1] < |f| && Steep(Merged(f, order[0], order[1]), Joined(order))
  {
    var g, rest := Merged(f, order[0], order[1]), Joined(order);
    JoinedInRange(f, order);
    JoinedCovers(f, order);
    forall k | 2 <= k < |rest|
      ensures g[rest[k]] > g[rest[k - 1]] && g[rest[k]] > SumAt(rest[..k - 1], g)
    {
      StepStaysSteep(f, order, k);
    }
    hide Joined, InRange, Sums.Distinct, SumAt;
  }

  lemma StepStaysSteep(f: seq<nat>, order: seq<nat>, k: nat)
    requires Steep(f, order) && InRange(f, order) && 2 <= k < |order| - 1
    requires InRange(Merged(f, order[0], order[1]), Joined(order))
    ensures var g, rest := Merged(f, order[0], order[1]), Joined(order);
            g[rest[k]] > g[rest[k - 1]] && g[rest[k]] > SumAt(rest[..k - 1], g)
  {
    assert f[order[k + 1]] > f[order[k]] && f[order[k + 1]] > SumAt(order[..k], f);
    SamePrefixSum(f, order, k);
    assert order[0] != order[k + 1] && order[1] != order[k + 1] && order[0] != order[k] && order[1] != order[k];
    hide Joined, InRange, Sums.Distinct, SumAt, Steep;
  }

  lemma SamePrefixSum(f: seq<nat>, order: seq<nat>, k: nat)
    requires Distinct(order) && InRange(f, order) && 2 <= k < |order|
    requires InRange(Merged(f, order[0], order[1]), Joined(order))
    ensures SumAt(Joined(order)[..k - 1], Merged(f, order[0], order[1])) == SumAt(order[..k], f)
  {
    var x, y, tail := order[0], order[1], order[2..k];
    var g, rest := Merged(f, x, y), Joined(order);
    PrefixParts(order, k);
    forall j | 0 <= j < |tail| ensures tail[j] < |f| && f[tail[j]] == g[tail[j]] {
      assert tail[j] == order[j + 2];
    }
    PairSum(x, y, f);
    OneSum(x, g);
    hide Joined, InRange, Sums.Distinct, SumAt;
    SumAtConcat([x], tail, g);
    SumAtConcat([x, y], tail, f);
    SumAtAgrees(tail, f, g);
  }

  lemma PrefixParts(order: seq<nat>, k: nat)
    requires 2 <= k < |order|
    ensures Joined(order)[..k - 1] == [order[0]] + order[2..k]
    ensures order[..k] == [order[0], order[1]] + order[2..k]
  {
  }

  lemma OneSum(x: nat, g: seq<int>)
    requires x < |g|
    ensures SumAt([x], g) == g[x]
  {
    assert [x][..0] == [];
  }

  lemma PairSum(x: nat, y: nat, g: seq<int>)
    requires x < |g| && y < |g|
    ensures SumAt([x, y], g) == g[x] + g[y]
  {
    OneSum(x, g);
    assert [x, y][..1] == [x];
  }
}
