/**
 What the codes of a generated table are: those of the optimal lengths, as long as these need no
 limiting, and always in the order of these lengths.
 */
module OptimalCodes {
  import opened BitString
  import opened ByteStream
  import opened Sums
  import opened HuffmanTree
  import opened HuffmanCode
  import opened MergeProcedure
  import opened MergeDepth
  import opened LengthLimiter
  import opened OptimalTable

  /** The pseudo-symbol has one of the longest codes, so that nothing is lost with its code. */
  lemma PseudoIsDeepest(f: seq<nat>, s: nat)
    requires Countable(f) && s < NUM_SYMBOLS && WithPseudo(f)[s] > 0
    ensures CodeLengths(f)[s] <= CodeLengths(f)[PSEUDO]
  {
    PseudoTotals(f);
    hide Sum, UsedCount, MergeLengths;
    LastIsNotHigher(WithPseudo(f), PSEUDO, s);
  }

  // ----- lengths that need no limiting

  /** The limiter leaves a code alone that has no length above 16. */
  lemma {:induction false} NothingToAdjust(b: seq<nat>, i: nat)
    requires Complete(b, i) && i >= 16 && forall k :: 16 < k <= MAX_CLEN ==> b[k] == 0
    ensures Adjusted(b, i) == b
    decreases i
  {
    if i > 16 {
      DropEmptyLength(b, i);
      NothingToAdjust(b, i - 1);
    }
  }

  lemma {:induction false} TallyUpTo(len: seq<nat>, m: nat, k: nat)
    requires LengthsFit(len) && m < k <= MAX_CLEN && forall s :: 0 <= s < |len| ==> len[s] <= m
    ensures Tally(len)[k] == 0
  {
    if len != [] {
      TallyUpTo(len[..|len| - 1], m, k);
    }
  }

  lemma {:induction false} TallyHolds(len: seq<nat>, s: nat)
    requires LengthsFit(len) && s < |len| && len[s] > 0
    ensures Tally(len)[len[s]] > 0
  {
    if s < |len| - 1 {
      TallyHolds(len[..|len| - 1], s);
    }
  }

  lemma LengthsUpTo(f: seq<nat>, m: nat)
    requires Countable(f) && m == CodeLengths(f)[PSEUDO]
    ensures m > 0 && forall s :: 0 <= s < NUM_SYMBOLS ==> CodeLengths(f)[s] <= m
  {
    assert |f| == NUM_SYMBOLS;
    hide Countable, CodeLengths, OptimalLengths;
    CodeLengthsAreOptimal(f);
    LengthsArePositive(f, CodeLengths(f));
    forall s | 0 <= s < NUM_SYMBOLS ensures CodeLengths(f)[s] <= m {
      if WithPseudo(f)[s] > 0 {
        PseudoIsDeepest(f, s);
      }
    }
  }

  /** Without its last symbol, one of the longest, a code has the same lengths as before. */
  lemma LastIsReleased(len: seq<nat>, n: nat)
    requires LengthsFit(len) && |len| == n + 1 && 0 < len[n] <= 16 && Complete(Tally(len), MAX_CLEN)
    requires forall s :: 0 <= s < |len| ==> len[s] <= len[n]
    ensures LengthsFit(len[..n]) && Released(Adjusted(Tally(len), MAX_CLEN)) == Tally(len[..n])
  {
    hide Complete, Tally;
    var m, b := len[n], Tally(len);
    TallyHolds(len, n);
    forall k | m < k <= MAX_CLEN ensures b[k] == 0 {
      TallyUpTo(len, m, k);
    }
    NothingToAdjust(b, MAX_CLEN);
    SomeLengthUsed(Adjusted(b, MAX_CLEN), 16);
    TallyStep(len);
  }

  /** Giving up the code of the pseudo-symbol leaves the lengths of the others. */
  lemma OthersKeepTheirLengths(f: seq<nat>)
    requires Countable(f) && WithinLimit(f) && CodeLengths(f)[PSEUDO] <= 16
    ensures LengthsFit(CodeLengths(f)[..PSEUDO]) && Complete(Tally(CodeLengths(f)), MAX_CLEN)
    ensures Released(Adjusted(Tally(CodeLengths(f)), MAX_CLEN)) == Tally(CodeLengths(f)[..PSEUDO])
  {
    assert |f| == NUM_SYMBOLS;
    hide CodeLengths, OptimalLengths, Countable, WithPseudo, Tally, Complete, Adjusted, Released;
    CodeLengthsAreOptimal(f);
    LengthsUpTo(f, CodeLengths(f)[PSEUDO]);
    TallyIsComplete(f, CodeLengths(f));
    LastIsReleased(CodeLengths(f), PSEUDO);
  }

  /** A symbol listed in the class of length i has that length. */
  lemma {:induction false} ListedUnderItsLength(len: seq<nat>, m: nat, n: nat, i: nat, p: nat)
    requires n <= |len| && LengthsFit(len) && 1 <= i <= m <= MAX_CLEN
    requires CountBelow(Tally(len[..n]), i) <= p < CountBelow(Tally(len[..n]), i + 1)
    ensures p < |SortedSymbols(len, m, n)| && SortedSymbols(len, m, n)[p] < n
    ensures len[SortedSymbols(len, m, n)[p]] == i
    decreases m
  {
    SortedCount(len, m - 1, n);
    SortedStep(len, m, n);
    if i < m {
      CountBelowMonotone(Tally(len[..n]), i + 1, m);
      hide Tally, OfLength, SortedSymbols, CountBelow, LengthsFit;
      ListedUnderItsLength(len, m - 1, n, i, p);
    } else {
      OfLengthCount(len, m, n);
      hide Tally, OfLength, SortedSymbols, LengthsFit;
      ListedLast(len, m, n, p - |SortedSymbols(len, m - 1, n)|);
    }
  }

  lemma ListedLast(len: seq<nat>, m: nat, n: nat, k: nat)
    requires n <= |len| && k < |OfLength(len, m, n)|
    ensures OfLength(len, m, n)[k] < n && len[OfLength(len, m, n)[k]] == m
  {
    OfLengthMeans(len, m, n);
    assert OfLength(len, m, n)[k] in OfLength(len, m, n);
  }

  /**
   If the merging procedure needs no more than 16 bits, every counted symbol has a code of just the
   length that the procedure gives it.
   */
  lemma CodesHaveTheirLengths(f: seq<nat>, t: HuffTable, d: DerivedTable, s: byte)
    requires Countable(f) && WithinLimit(f) && CodeLengths(f)[PSEUDO] <= 16
    requires MadeFrom(t, CodeLengths(f)) && Derives(t, d) && f[s] > 0
    ensures |d.CodeBits(s)| == CodeLengths(f)[s]
  {
    assert |f| == NUM_SYMBOLS;
    hide CodeLengths, OptimalLengths, Countable, WithPseudo, Adjusted, Released, LegalFor, Tally, Complete, Derives;
    var len := CodeLengths(f);
    OthersKeepTheirLengths(f);
    CodeLengthsAreOptimal(f);
    MadeIsLegal(t, f, len);
    GeneratedTableCodesTheCounted(t, f, d, s);
    var p := CodedSomewhere(t, d, s);
    LengthOfCoded(len, t, d, s, p);
  }

  lemma CodedSomewhere(t: HuffTable, d: DerivedTable, s: byte) returns (p: nat)
    requires Derives(t, d) && d.Codes(s)
    ensures t.WellFormed() && d.WellFormed() && |t.bits| == 17 && CodedAt(t, d, s, p)
  {
    p :| CodedAt(t, d, s, p);
  }

  lemma LengthOfCoded(len: seq<nat>, t: HuffTable, d: DerivedTable, s: byte, p: nat)
    requires |len| == NUM_SYMBOLS && LengthsFit(len) && t.WellFormed() && d.WellFormed() && CodedAt(t, d, s, p)
    requires t.bits == Tally(len[..PSEUDO])[..17] && SortedSymbols(len, MAX_CLEN, PSEUDO) <= t.huffval
    ensures |d.CodeBits(s)| == len[s]
  {
    hide Tally, SortedSymbols;
    PrefixCounts(Tally(len[..PSEUDO]), t.bits, d.ehufsi[s]);
    ListedUnderItsLength(len, MAX_CLEN, PSEUDO, d.ehufsi[s], p);
  }

  lemma PrefixCounts(b: seq<nat>, bits: seq<nat>, l: nat)
    requires |b| == MAX_CLEN + 1 && bits == b[..17] && l <= 16
    ensures CountBelow(bits, l) == CountBelow(b, l) && CountBelow(bits, l + 1) == CountBelow(b, l + 1)
  {
    FirstCodeOfPrefix(b, 17, l);
    FirstCodeOfPrefix(b, 17, l + 1);
  }

  // ----- the order of the codes, with or without limiting

  /** Symbols are listed by length, and equal lengths by symbol; no later one has a shorter code. */
  lemma CodesAreInOrder(f: seq<nat>, t: HuffTable, d: DerivedTable, s: byte, u: byte)
    requires Countable(f) && WithinLimit(f) && MadeFrom(t, CodeLengths(f)) && Derives(t, d) && f[s] > 0 && f[u] > 0
    requires CodeLengths(f)[s] < CodeLengths(f)[u] || (CodeLengths(f)[s] == CodeLengths(f)[u] && s < u)
    ensures |d.CodeBits(s)| <= |d.CodeBits(u)|
  {
    assert |f| == NUM_SYMBOLS;
    hide CodeLengths, OptimalLengths, Countable, WithPseudo, LegalFor, Derives, Complete, Adjusted, Released, Tally;
    var len := CodeLengths(f);
    CodeLengthsAreOptimal(f);
    MadeIsLegal(t, f, len);
    GeneratedTableCodesTheCounted(t, f, d, s);
    GeneratedTableCodesTheCounted(t, f, d, u);
    SymbolsAreTheCounted(f, len);
    var p := CodedInList(t, d, s, len);
    var q := CodedInList(t, d, u, len);
    SortedSymbolsMean(len, MAX_CLEN, PSEUDO);
    hide SortedSymbols;
    StandsBefore(len, SortedSymbols(len, MAX_CLEN, PSEUDO), p, q);
    EarlierIsShorter(t.bits, d.ehufsi[s], d.ehufsi[u], p, q);
  }

  lemma StandsBefore(len: seq<nat>, list: seq<nat>, p: nat, q: nat)
    requires p < |list| && q < |list| && forall i :: 0 <= i < |list| ==> list[i] < |len|
    requires forall i, j :: 0 <= i < j < |list| ==> Before(len, list[i], list[j])
    requires Before(len, list[p], list[q])
    ensures p <= q
  {
  }

  lemma EarlierIsShorter(bits: seq<nat>, l: nat, m: nat, p: nat, q: nat)
    requires |bits| == 17 && InClass(bits, l, p) && InClass(bits, m, q) && p <= q
    ensures l <= m
  {
    NextClass(bits, m, l, q);
  }

  lemma CodedInList(t: HuffTable, d: DerivedTable, s: byte, len: seq<nat>) returns (p: nat)
    requires |len| == NUM_SYMBOLS && t.WellFormed() && SortedSymbols(len, MAX_CLEN, PSEUDO) <= t.huffval
    requires Derives(t, d) && d.Codes(s) && CountBelow(t.bits, 17) == |SortedSymbols(len, MAX_CLEN, PSEUDO)|
    ensures p < |SortedSymbols(len, MAX_CLEN, PSEUDO)| && SortedSymbols(len, MAX_CLEN, PSEUDO)[p] == s
    ensures InClass(t.bits, d.ehufsi[s], p)
  {
    p :| CodedAt(t, d, s, p);
    ClassBounds(t.bits, d.ehufsi[s], p);
    hide SortedSymbols;
  }

  // ----- the bits that a run takes

  /** The bits of all codes sent, each symbol as often as it was counted. */
  function CodedTotal(f: seq<nat>, d: DerivedTable): int
    requires |f| == NUM_SYMBOLS && d.WellFormed()
  {
    Sum(seq(256, s requires 0 <= s < 256 => f[s] * d.ehufsi[s]))
  }

  /**
   No code does better: with the code given up counted in once, every assignment of lengths that a
   prefix code can have takes at least as many bits.
   */
  lemma TotalIsMinimal(f: seq<nat>, t: HuffTable, d: DerivedTable, l: seq<nat>, n: nat)
    requires Countable(f) && WithinLimit(f) && CodeLengths(f)[PSEUDO] <= 16
    requires MadeFrom(t, CodeLengths(f)) && Derives(t, d) && Feasible(WithPseudo(f), l, n)
    ensures CodedTotal(f, d) + CodeLengths(f)[PSEUDO] <= Cost(WithPseudo(f), l)
  {
    var len := CodeLengths(f);
    CodeLengthsAreOptimal(f);
    LengthsArePositive(f, len);
    hide CodeLengths, Countable, MadeFrom, Derives, Complete, Feasible;
    forall s: byte | f[s] > 0 ensures d.ehufsi[s] == len[s] {
      CodesHaveTheirLengths(f, t, d, s);
    }
    SplitCost(f, d, len);
  }

  lemma SplitCost(f: seq<nat>, d: DerivedTable, len: seq<nat>)
    requires |f| == |len| == NUM_SYMBOLS && d.WellFormed()
    requires forall s: byte :: f[s] > 0 ==> d.ehufsi[s] == len[s]
    ensures Cost(WithPseudo(f), len) == CodedTotal(f, d) + len[PSEUDO]
  {
    var c := CostTerms(WithPseudo(f), len);
    var terms := seq(256, s requires 0 <= s < 256 => f[s] * d.ehufsi[s]);
    forall s: byte ensures c[s] == terms[s] {
      if f[s] == 0 {
        assert f[s] * len[s] == f[s] * d.ehufsi[s];
      }
    }
    assert c[..256] == terms;
  }
}
