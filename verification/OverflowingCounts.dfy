/**
 Counts for which jpeg_gen_optimal_table gives up: one symbol for each of 33 successive Fibonacci
 numbers. Together with the pseudo-symbol they make a single branch, 33 bits deep.
 */
module OverflowingCounts {
  import opened Sums
  import opened CodeDepth
  import opened OptimalTable

  const BRANCH := 33

  function FibonacciCounts(): (f: seq<nat>)
    ensures |f| == NUM_SYMBOLS
    ensures forall s :: 0 <= s < NUM_SYMBOLS ==> f[s] == if s < BRANCH then Fib(s + 2) else 0
  {
    seq(NUM_SYMBOLS, s requires 0 <= s < NUM_SYMBOLS => if s < BRANCH then Fib(s + 2) else 0)
  }

  /** The pseudo-symbol first, then the others by count. */
  function BranchOrder(): (order: seq<nat>)
    ensures |order| == BRANCH + 1
    ensures forall k :: 0 <= k <= BRANCH ==> order[k] == if k == 0 then PSEUDO else k - 1
  {
    seq(BRANCH + 1, k requires 0 <= k <= BRANCH => if k == 0 then PSEUDO else k - 1)
  }

  lemma {:induction false} FibPositive(n: nat)
    requires n > 0
    ensures Fib(n) > 0 && Fib(n + 2) > Fib(n + 1)
  {
    if n > 1 {
      FibPositive(n - 1);
    }
  }

  /** The counts in that order, the pseudo-symbol's included, are the Fibonacci numbers from Fib(1) on. */
  lemma CountAt(k: nat)
    requires k <= BRANCH
    ensures var f, order := WithPseudo(FibonacciCounts()), BranchOrder();
            order[k] < |f| && f[order[k]] == Fib(k + 1) > 0
  {
    FibPositive(k + 1);
    assert Fib(1) == 1;
  }

  lemma AllInRange()
    ensures InRange(WithPseudo(FibonacciCounts()), BranchOrder())
  {
    forall k | 0 <= k <= BRANCH
      ensures BranchOrder()[k] < |WithPseudo(FibonacciCounts())|
      ensures WithPseudo(FibonacciCounts())[BranchOrder()[k]] > 0
    {
      CountAt(k);
    }
  }

  lemma {:induction false} PrefixTotal(j: nat)
    requires j <= BRANCH + 1 && InRange(WithPseudo(FibonacciCounts()), BranchOrder())
    ensures SumAt(BranchOrder()[..j], WithPseudo(FibonacciCounts())) == Fib(j + 2) - 1
  {
    if j > 0 {
      PrefixTotal(j - 1);
      CountAt(j - 1);
      assert BranchOrder()[..j][..j - 1] == BranchOrder()[..j - 1];
      assert Fib(j + 2) == Fib(j + 1) + Fib(j);
    }
  }

  lemma BranchIsSteep()
    ensures Steep(WithPseudo(FibonacciCounts()), BranchOrder())
  {
    var f, order := WithPseudo(FibonacciCounts()), BranchOrder();
    AllInRange();
    forall i | 0 <= i < |f| && f[i] > 0 ensures i in order {
      assert order[if i == PSEUDO then 0 else i + 1] == i;
    }
    forall k | 2 <= k < |order|
      ensures f[order[k]] > f[order[k - 1]] && f[order[k]] > SumAt(order[..k - 1], f)
    {
      CountAt(k);
      CountAt(k - 1);
      PrefixTotal(k - 1);
      FibPositive(k - 1);
    }
    hide Fib, SumAt, InRange;
  }

  lemma {:induction false} CountsSoFar(n: nat)
    requires n <= PSEUDO
    ensures var m := if n < BRANCH then n else BRANCH;
            UsedCount(FibonacciCounts()[..n]) <= m && Sum(FibonacciCounts()[..n]) == Fib(m + 3) - 2
  {
    hide Fib, Sum, UsedCount;
    if n > 0 {
      CountsSoFar(n - 1);
      OneMoreCount(FibonacciCounts()[..n]);
      assert FibonacciCounts()[..n][..n - 1] == FibonacciCounts()[..n - 1];
      FibStep(n);
    } else {
      NoCounts();
    }
  }

  lemma NoCounts()
    ensures UsedCount([]) == 0 && Sum([]) == 0 && Fib(3) == 2
  {
  }

  lemma FibStep(n: nat)
    ensures Fib(n + 3) == Fib(n + 2) + Fib(n + 1)
  {
  }

  lemma OneMoreCount(f: seq<nat>)
    requires f != []
    ensures var g, x := f[..|f| - 1], f[|f| - 1];
            Sum(f) == Sum(g) + x && UsedCount(f) == UsedCount(g) + if x > 0 then 1 else 0
  {
  }

  lemma FibOfThirtySix()
    ensures Fib(BRANCH + 3) == 14930352
  {
    FibOfThirtyFive();
    assert Fib(36) == Fib(35) + Fib(34);
  }

  /** These counts may be given to the generator, and it cannot make a table of them. */
  lemma FibonacciCountsOverflow()
    ensures Countable(FibonacciCounts()) && !WithinLimit(FibonacciCounts())
    ensures Sum(FibonacciCounts()[..PSEUDO]) == 14930350
  {
    var f := FibonacciCounts();
    CountsSoFar(PSEUDO);
    FibOfThirtySix();
    assert f[0] == Fib(2) == 1;
    hide Fib, Sum, UsedCount;
    assert Countable(f);
    hide Countable, FibonacciCounts;
    CodeLengthsAreOptimal(f);
    OptimalIsCheapest(WithPseudo(f), CodeLengths(f));
    BranchIsSteep();
    SteepIsDeep(WithPseudo(f), CodeLengths(f), BranchOrder());
    assert CodeLengths(f)[PSEUDO] == BRANCH;
  }
}
