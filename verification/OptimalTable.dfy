/**
 jpeg_gen_optimal_table as a whole: from symbol counts to a table that is always
 legal, lists exactly the counted symbols, and comes from optimal code lengths.
 */
module OptimalTable {
  import opened BitString
  import opened ByteStream
  import opened Sums
  import opened HuffmanTree
  import opened CodeDepth
  import opened HuffmanCode
  import opened MergeProcedure
  import opened LengthLimiter

  const NUM_SYMBOLS := 257   // 256 real symbols and the pseudo-symbol
  const PSEUDO := 256

  // ----- how many symbols have each length

  predicate LengthsFit(len: seq<nat>) {
    forall s :: 0 <= s < |len| ==> len[s] <= MAX_CLEN
  }

  /** Tally(len)[k] symbols have length k; unused symbols are not counted. */
  function Tally(len: seq<nat>): (b: seq<nat>)
    requires LengthsFit(len)
    ensures |b| == MAX_CLEN + 1 && b[0] == 0
  {
    if len == [] then seq(MAX_CLEN + 1, _ => 0)
    else
      var b, l := Tally(len[..|len| - 1]), len[|len| - 1];
      if l == 0 then b else b[l := b[l] + 1]
  }

  function UsedCount(f: seq<nat>): (n: nat)
    ensures n <= |f|
  {
    if f == [] then 0
    else UsedCount(f[..|f| - 1]) + if f[|f| - 1] > 0 then 1 else 0
  }

  lemma KraftOfLast(f: seq<nat>, len: seq<nat>, d: nat)
    requires 0 < |f| == |len| && Bounded(f, len, d)
    ensures var n := |f| - 1;
            Kraft(f, len, d) == Kraft(f[..n], len[..n], d) + if f[n] > 0 then Pow2(d - len[n]) else 0
  {
    hide Pow2;
    var n := |f| - 1;
    assert KraftTerms(f, len, d)[..n] == KraftTerms(f[..n], len[..n], d);
  }

  lemma OneMore(b: seq<nat>, k: nat, i: nat)
    requires 1 <= k <= i < |b|
    ensures Total(b[k := b[k] + 1]) == Total(b) + 1
    ensures Used(b[k := b[k] + 1], i) == Used(b, i) + Pow2(i - k)
  {
    hide Pow2, Total, Used;
    ChangeTotals(b, k, 1, b[k := b[k] + 1], i);
  }

  lemma TallyStep(len: seq<nat>)
    requires len != [] && LengthsFit(len) && LengthsFit(len[..|len| - 1])
    ensures var b, l := Tally(len[..|len| - 1]), len[|len| - 1];
            Tally(len) == if l == 0 then b else b[l := b[l] + 1]
  {
    hide LengthsFit;
  }

  /** The Kraft sum and the symbol count can be read off the tally. */
  lemma {:induction false} TallyTotals(f: seq<nat>, len: seq<nat>)
    requires |f| == |len| && LengthsFit(len)
    requires forall s :: 0 <= s < |f| ==> (f[s] > 0 <==> len[s] > 0)
    ensures Bounded(f, len, MAX_CLEN)
    ensures Total(Tally(len)) == UsedCount(f)
    ensures Used(Tally(len), MAX_CLEN) == Kraft(f, len, MAX_CLEN)
  {
    if len == [] {
      NothingUpTo(Tally(len), MAX_CLEN);
    } else {
      var n := |len| - 1;
      TallyStep(len);
      assert UsedCount(f) == UsedCount(f[..n]) + if f[n] > 0 then 1 else 0;
      hide Pow2, FirstCode, CountBelow, Total, Used, Kraft, Sum, Tally, UsedCount;
      TallyTotals(f[..n], len[..n]);
      KraftOfLast(f, len, MAX_CLEN);
      if len[n] > 0 {
        OneMore(Tally(len[..n]), len[n], MAX_CLEN);
      }
    }
  }

  /** Count the number of symbols of each code length; false if one exceeds MAX_CLEN. */
  method CountLengths(codesize: array<nat>, bits: array<byte>) returns (ok: bool)
    requires bits.Length == MAX_CLEN + 1 && codesize as object != bits
    requires forall k :: 0 <= k <= MAX_CLEN ==> bits[k] == 0
    requires UsedCount(codesize[..]) <= 255
    modifies bits
    ensures ok <==> LengthsFit(codesize[..])
    ensures ok ==> bits[..] == Tally(codesize[..])
  {
    ghost var len := codesize[..];
    for i := 0 to codesize.Length
      invariant codesize[..] == len
      invariant LengthsFit(len[..i]) && bits[..] == Tally(len[..i])
    {
      assert len[..i + 1][..i] == len[..i];
      if codesize[i] != 0 {
        if codesize[i] > MAX_CLEN {
          return false;
        }
        TallyIsSmall(len, i + 1, codesize[i]);
        bits[codesize[i]] := Wrap8(bits[codesize[i]] + 1);
      }
    }
    assert len[..codesize.Length] == len;
    return true;
  }

  lemma {:induction false} UsedInPrefix(f: seq<nat>, i: nat)
    requires i <= |f|
    ensures UsedCount(f[..i]) <= UsedCount(f)
    decreases |f| - i
  {
    if i == |f| {
      assert f[..i] == f;
    } else {
      assert f[..i + 1][..i] == f[..i];
      UsedInPrefix(f, i + 1);
    }
  }

  lemma TallyIsSmall(len: seq<nat>, i: nat, k: nat)
    requires i <= |len| && LengthsFit(len[..i]) && 1 <= k <= MAX_CLEN
    ensures Tally(len[..i])[k] <= UsedCount(len)
  {
    TallyTotals(len[..i], len[..i]);
    EntryAtMostCount(Tally(len[..i]), k, MAX_CLEN + 1);
    UsedInPrefix(len, i);
  }

  // ----- the pseudo-symbol's code

  /** The largest code length still in use. */
  function Longest(b: seq<nat>, i: nat): (r: nat)
    requires i < |b| && exists k :: 1 <= k <= i && b[k] > 0
    ensures 1 <= r <= i && b[r] > 0 && forall k :: r < k <= i ==> b[k] == 0
  {
    PrefixLength(b, i)
  }

  lemma SomeLengthUsed(b: seq<nat>, i: nat)
    requires Complete(b, i)
    ensures exists k :: 1 <= k <= i && b[k] > 0
  {
    if forall k :: 1 <= k <= i ==> b[k] == 0 {
      NothingUpTo(b, i);
    }
  }

  /** One code of the largest length is given up. */
  function Released(b: seq<nat>): (r: seq<nat>)
    requires Complete(b, 16)
    ensures |r| == |b|
  {
    SomeLengthUsed(b, 16);
    var i := Longest(b, 16);
    b[i := b[i] - 1]
  }

  /** It is one of the longest codes that is given up. */
  lemma ReleasesTheLongest(b: seq<nat>, m: nat)
    requires Complete(b, 16) && 1 <= m <= 16 && b[m] > 0 && forall k :: m < k <= 16 ==> b[k] == 0
    ensures Released(b) == b[m := b[m] - 1]
  {
    SomeLengthUsed(b, 16);
    assert Longest(b, 16) == m;
  }

  lemma {:induction false} FirstCodeOfPrefix(b: seq<nat>, m: nat, l: nat)
    requires l <= m <= |b|
    ensures FirstCode(b[..m], l) == FirstCode(b, l)
    ensures CountBelow(b[..m], l) == CountBelow(b, l)
  {
    if l > 1 {
      FirstCodeOfPrefix(b, m, l - 1);
    }
  }

  /** A complete code stays strictly inside the code space at every shorter length. */
  lemma RoomBeforeLongest(b: seq<nat>, m: nat, l: nat)
    requires m < |b| && 1 <= l < m && b[m] > 0 && Used(b, m) == Pow2(m)
    ensures Used(b, l) < Pow2(l)
  {
    FirstCodeGrows(b, l, m);
    Pow2Add(l, m - l);
    if Used(b, l) >= Pow2(l) {
      MulMonotone(Pow2(l), Used(b, l), Pow2(m - l));
    }
  }

  lemma {:induction false} ShrinkToLongest(b: seq<nat>, i: nat, m: nat)
    requires Complete(b, i) && 1 <= m <= i && forall k :: m < k <= i ==> b[k] == 0
    ensures Complete(b, m)
  {
    if m < i {
      DropEmptyLength(b, i);
      ShrinkToLongest(b, i - 1, m);
    }
  }

  /** With one longest code given up, every length fits without the all-ones code. */
  lemma ReleasedIsLegal(b: seq<nat>)
    requires Complete(b, 16)
    ensures |Released(b)[..17]| == 17 && LegalCode(Released(b)[..17])
    ensures CountBelow(Released(b)[..17], 17) == Total(b) - 1
  {
    var r := Released(b);
    SomeLengthUsed(b, 16);
    var m := Longest(b, 16);
    ShrinkToLongest(b, 16, m);
    forall l | 1 <= l <= 16 ensures Fits(r[..17], l) {
      FirstCodeOfPrefix(r, 17, l);
      ReleasedFits(b, m, r, l);
    }
    CountUpdate(b, m, b[m] - 1, |b|);
    FirstCodeOfPrefix(r, 17, 17);
    CountOfTail(r, 17);
  }

  lemma {:induction false} ReleasedFits(b: seq<nat>, m: nat, r: seq<nat>, l: nat)
    requires Complete(b, m) && m <= 16 && b[m] > 0 && r == b[m := b[m] - 1] && 1 <= l <= 16
    ensures Used(r, l) < Pow2(l)
  {
    FirstCodeUpdate(b, m, b[m] - 1, l);
    if l < m {
      RoomBeforeLongest(b, m, l);
    } else if l > m {
      ReleasedFits(b, m, r, l - 1);
    }
  }

  lemma {:induction false} CountOfTail(b: seq<nat>, m: nat)
    requires 1 <= m <= |b| && forall k :: m <= k < |b| ==> b[k] == 0
    ensures CountBelow(b, |b|) == CountBelow(b, m)
  {
    CountOfTailFrom(b, m, |b|);
  }

  lemma {:induction false} CountOfTailFrom(b: seq<nat>, m: nat, l: nat)
    requires 1 <= m <= l <= |b| && forall k :: m <= k < |b| ==> b[k] == 0
    ensures CountBelow(b, l) == CountBelow(b, m)
  {
    if m < l {
      CountOfTailFrom(b, m, l - 1);
    }
  }

  /** Remove the count for the pseudo-symbol from the largest code length. */
  method ReleasePseudo(bits: array<byte>)
    requires Complete(bits[..], 16)
    modifies bits
    ensures bits[..] == Released(old(bits[..]))
  {
    SomeLengthUsed(bits[..], 16);
    var i := 16;
    while bits[i] == 0
      invariant Longest(bits[..], 16) <= i <= 16
      decreases i
    {
      i := i - 1;
    }
    bits[i] := Wrap8(bits[i] - 1);
  }

  // ----- the symbols, sorted by code length

  /** The symbols below n that have length i, in increasing order. */
  function OfLength(len: seq<nat>, i: nat, n: nat): (s: seq<nat>)
    requires n <= |len|
  {
    if n == 0 then []
    else OfLength(len, i, n - 1) + if len[n - 1] == i then [n - 1] else []
  }

  /** The symbols below n of length 1, then of length 2, up to length m. */
  function SortedSymbols(len: seq<nat>, m: nat, n: nat): (s: seq<nat>)
    requires n <= |len|
  {
    if m == 0 then [] else SortedSymbols(len, m - 1, n) + OfLength(len, m, n)
  }

  lemma {:induction false} OfLengthMeans(len: seq<nat>, i: nat, n: nat)
    requires n <= |len|
    ensures forall s: nat :: s in OfLength(len, i, n) <==> s < n && len[s] == i
    ensures forall p, q :: 0 <= p < q < |OfLength(len, i, n)| ==> OfLength(len, i, n)[p] < OfLength(len, i, n)[q]
  {
    if n > 0 {
      OfLengthMeans(len, i, n - 1);
      var a := OfLength(len, i, n - 1);
      forall p | 0 <= p < |a| ensures a[p] in a {
      }
    }
  }

  /** p stands before q in a list sorted by length, then by symbol. */
  predicate Before(len: seq<nat>, p: nat, q: nat)
    requires p < |len| && q < |len|
  {
    len[p] < len[q] || (len[p] == len[q] && p < q)
  }

  lemma {:induction false} SortedSymbolsMean(len: seq<nat>, m: nat, n: nat)
    requires n <= |len|
    ensures forall s: nat :: s in SortedSymbols(len, m, n) <==> s < n && 1 <= len[s] <= m
    ensures forall p :: 0 <= p < |SortedSymbols(len, m, n)| ==> SortedSymbols(len, m, n)[p] < n
    ensures forall p, q :: 0 <= p < q < |SortedSymbols(len, m, n)| ==>
              Before(len, SortedSymbols(len, m, n)[p], SortedSymbols(len, m, n)[q])
  {
    SortedUpTo(len, m, n);
  }

  /** A list of the symbols below n with lengths up to m, sorted by length and symbol. */
  ghost predicate Lists(s: seq<nat>, len: seq<nat>, m: nat, n: nat)
    requires n <= |len|
  {
    && (forall x: nat :: x in s <==> x < n && 1 <= len[x] <= m)
    && (forall p :: 0 <= p < |s| ==> s[p] < n)
    && (forall p, q :: 0 <= p < q < |s| ==> Before(len, s[p], s[q]))
  }

  lemma {:induction false} SortedUpTo(len: seq<nat>, m: nat, n: nat)
    requires n <= |len|
    ensures Lists(SortedSymbols(len, m, n), len, m, n)
  {
    hide *;
    SortedStep(len, m, n);
    if m > 0 {
      SortedUpTo(len, m - 1, n);
      OfLengthMeans(len, m, n);
      OneMoreLength(SortedSymbols(len, m - 1, n), OfLength(len, m, n), len, m, n);
    } else {
      NothingListed(len, n);
    }
  }

  lemma NothingListed(len: seq<nat>, n: nat)
    requires n <= |len|
    ensures Lists([], len, 0, n)
  {
  }

  lemma OneMoreLength(a: seq<nat>, b: seq<nat>, len: seq<nat>, m: nat, n: nat)
    requires n <= |len| && m > 0 && Lists(a, len, m - 1, n)
    requires forall s: nat :: s in b <==> s < n && len[s] == m
    requires forall p, q :: 0 <= p < q < |b| ==> b[p] < b[q]
    ensures Lists(a + b, len, m, n)
  {
    var s := a + b;
    forall p | 0 <= p < |s| ensures s[p] < n && (if p < |a| then 1 <= len[s[p]] < m else len[s[p]] == m) {
      assert if p < |a| then s[p] in a else s[p] in b;
    }
    forall p, q | 0 <= p < q < |s| ensures Before(len, s[p], s[q]) {
    }
  }

  lemma {:induction false} OfLengthCount(len: seq<nat>, i: nat, n: nat)
    requires n <= |len| && LengthsFit(len) && 1 <= i <= MAX_CLEN
    ensures |OfLength(len, i, n)| == Tally(len[..n])[i]
  {
    if n > 0 {
      OfLengthCount(len, i, n - 1);
      assert len[..n][..n - 1] == len[..n - 1];
    }
  }

  lemma {:induction false} SortedCount(len: seq<nat>, m: nat, n: nat)
    requires n <= |len| && LengthsFit(len) && m <= MAX_CLEN
    ensures |SortedSymbols(len, m, n)| == CountBelow(Tally(len[..n]), m + 1)
  {
    if m > 0 {
      SortedCount(len, m - 1, n);
      OfLengthCount(len, m, n);
    }
  }

  lemma {:induction false} SortedPrefix(len: seq<nat>, m: nat, k: nat, n: nat)
    requires m <= k && n <= |len|
    ensures |SortedSymbols(len, m, n)| <= |SortedSymbols(len, k, n)|
    decreases k
  {
    if m < k {
      SortedPrefix(len, m, k - 1, n);
    }
  }

  lemma {:induction false} OfLengthPrefix(len: seq<nat>, i: nat, k: nat, n: nat)
    requires k <= n <= |len|
    ensures |OfLength(len, i, k)| <= |OfLength(len, i, n)|
  {
    if k < n {
      OfLengthPrefix(len, i, k, n - 1);
    }
  }

  /** List the real symbols of one length. */
  method ListOneLength(codesize: array<nat>, huffval: array<byte>, i: nat, start: nat) returns (p: nat)
    requires codesize.Length == NUM_SYMBOLS && huffval.Length == 256 && codesize as object != huffval
    requires start + |OfLength(codesize[..], i, 256)| <= 256
    modifies huffval
    ensures p == start + |OfLength(codesize[..], i, 256)|
    ensures huffval[..p] == old(huffval[..start]) + OfLength(codesize[..], i, 256)
  {
    ghost var len := codesize[..];
    p := start;
    for j := 0 to 256
      invariant codesize[..] == len
      invariant p == start + |OfLength(len, i, j)| <= 256
      invariant huffval[..p] == old(huffval[..start]) + OfLength(len, i, j)
    {
      OfLengthPrefix(len, i, j + 1, 256);
      if codesize[j] == i {
        huffval[p] := j;
        p := p + 1;
      }
    }
  }

  lemma SortedStep(len: seq<nat>, i: nat, n: nat)
    requires n <= |len|
    ensures SortedSymbols(len, i, n) == if i == 0 then [] else SortedSymbols(len, i - 1, n) + OfLength(len, i, n)
  {
  }

  /** Return a list of the symbols sorted by code length. */
  method SortSymbols(codesize: array<nat>, huffval: array<byte>) returns (p: nat)
    requires codesize.Length == NUM_SYMBOLS && huffval.Length == 256 && codesize as object != huffval
    requires |SortedSymbols(codesize[..], MAX_CLEN, 256)| <= 256
    modifies huffval
    ensures p == |SortedSymbols(codesize[..], MAX_CLEN, 256)|
    ensures huffval[..p] == SortedSymbols(codesize[..], MAX_CLEN, 256)
  {
    ghost var len := codesize[..];
    p := 0;
    assert SortedSymbols(len, 0, 256) == [];
    hide SortedSymbols, OfLength;
    for i := 1 to MAX_CLEN + 1
      invariant codesize[..] == len
      invariant p == |SortedSymbols(len, i - 1, 256)| <= 256
      invariant huffval[..p] == SortedSymbols(len, i - 1, 256)
    {
      SortedStep(len, i, 256);
      SortedPrefix(len, i, MAX_CLEN, 256);
      p := ListOneLength(codesize, huffval, i, p);
    }
  }

  // ----- the whole procedure

  /** The counts as the procedure sees them: the pseudo-symbol is counted once. */
  function WithPseudo(f: seq<nat>): (r: seq<nat>)
    requires |f| == NUM_SYMBOLS
  {
    f[PSEUDO := 1]
  }

  /** The code lengths that the merging procedure gives to the counts. */
  function CodeLengths(f: seq<nat>): (len: seq<nat>)
    requires |f| == NUM_SYMBOLS
    ensures |len| == NUM_SYMBOLS
  {
    MergeLengths(WithPseudo(f))
  }

  /** None of them is longer than the procedure can take. */
  predicate WithinLimit(f: seq<nat>)
    requires |f| == NUM_SYMBOLS
  {
    LengthsFit(CodeLengths(f))
  }

  /** What may be asked of jpeg_gen_optimal_table. */
  predicate Countable(f: seq<nat>) {
    && |f| == NUM_SYMBOLS
    && (exists s :: 0 <= s < PSEUDO && f[s] > 0)
    && UsedCount(f[..PSEUDO]) <= 254
    && Sum(f[..PSEUDO]) < SENTINEL
  }

  lemma PseudoTotals(f: seq<nat>)
    requires Countable(f)
    ensures UsedCount(WithPseudo(f)) == UsedCount(f[..PSEUDO]) + 1 <= 255
    ensures Sum(WithPseudo(f)) == Sum(f[..PSEUDO]) + 1 <= SENTINEL
  {
    assert WithPseudo(f)[..PSEUDO] == f[..PSEUDO];
  }

  lemma CodeLengthsAreOptimal(f: seq<nat>)
    requires Countable(f)
    ensures OptimalLengths(WithPseudo(f), CodeLengths(f))
  {
    PseudoTotals(f);
    assert WithPseudo(f)[PSEUDO] > 0;
    hide OptimalLengths, Sum, MergeLengths, UsedCount;
    MergeLengthsAreOptimal(WithPseudo(f));
  }

  /** The table lists exactly the counted symbols and its code is legal. */
  ghost predicate LegalFor(t: HuffTable, f: seq<nat>)
    requires |f| == NUM_SYMBOLS
  {
    && t.WellFormed() && LegalCode(t.bits)
    && CountBelow(t.bits, 17) == UsedCount(f[..PSEUDO])
    && (forall s: byte :: f[s] > 0 <==> s in t.huffval[..CountBelow(t.bits, 17)])
    && (forall p, q :: 0 <= p < q < CountBelow(t.bits, 17) ==> t.huffval[p] != t.huffval[q])
  }

  /** The table is read off the lengths: limited counts, symbols by length and then by value. */
  ghost predicate MadeFrom(t: HuffTable, len: seq<nat>)
    requires |len| == NUM_SYMBOLS && LengthsFit(len)
  {
    && Complete(Tally(len), MAX_CLEN) && t.WellFormed()
    && t.bits == Released(Adjusted(Tally(len), MAX_CLEN))[..17]
    && SortedSymbols(len, MAX_CLEN, PSEUDO) <= t.huffval
  }

  lemma TallyIsComplete(f: seq<nat>, len: seq<nat>)
    requires Countable(f) && OptimalLengths(WithPseudo(f), len) && LengthsFit(len)
    ensures Complete(Tally(len), MAX_CLEN) && Total(Tally(len)) == UsedCount(f[..PSEUDO]) + 1
  {
    var f0 := WithPseudo(f);
    LengthsArePositive(f, len);
    TallyTotals(f0, len);
    PseudoTotals(f);
  }

  lemma LengthsArePositive(f: seq<nat>, len: seq<nat>)
    requires Countable(f) && OptimalLengths(WithPseudo(f), len)
    ensures forall s :: 0 <= s < NUM_SYMBOLS ==> (WithPseudo(f)[s] > 0 <==> len[s] > 0)
  {
    var f0 := WithPseudo(f);
    var s :| 0 <= s < PSEUDO && f[s] > 0;
    assert s < PSEUDO < |f0| && f0[s] > 0 && f0[PSEUDO] > 0;
  }

  lemma SymbolsAreTheCounted(f: seq<nat>, len: seq<nat>)
    requires Countable(f) && OptimalLengths(WithPseudo(f), len) && LengthsFit(len)
    ensures forall s: nat :: s < PSEUDO ==> (f[s] > 0 <==> s in SortedSymbols(len, MAX_CLEN, PSEUDO))
    ensures |SortedSymbols(len, MAX_CLEN, PSEUDO)| == UsedCount(f[..PSEUDO])
  {
    LengthsArePositive(f, len);
    SortedSymbolsMean(len, MAX_CLEN, PSEUDO);
    CountedSymbols(f[..PSEUDO], len);
  }

  lemma CountedSymbols(f: seq<nat>, len: seq<nat>)
    requires |f| <= |len| && LengthsFit(len)
    requires forall s :: 0 <= s < |f| ==> (f[s] > 0 <==> len[s] > 0)
    ensures |SortedSymbols(len, MAX_CLEN, |f|)| == UsedCount(f)
  {
    hide SortedSymbols, UsedCount, Tally, CountBelow;
    SortedCount(len, MAX_CLEN, |f|);
    TallyTotals(f, len[..|f|]);
  }

  /** A table made from optimal lengths is legal and lists exactly the counted symbols. */
  lemma MadeIsLegal(t: HuffTable, f: seq<nat>, len: seq<nat>)
    requires Countable(f) && OptimalLengths(WithPseudo(f), len) && LengthsFit(len)
    requires MadeFrom(t, len)
    ensures LegalFor(t, f)
  {
    assert |len| == |f| == NUM_SYMBOLS;
    hide OptimalLengths, Adjusted, Released, SortedSymbols, Complete, Tally, LegalCode;
    TallyIsComplete(f, len);
    ReleasedIsLegal(Adjusted(Tally(len), MAX_CLEN));
    SymbolsAreTheCounted(f, len);
    SortedSymbolsMean(len, MAX_CLEN, PSEUDO);
    ListedSymbols(t, f, len, SortedSymbols(len, MAX_CLEN, PSEUDO));
  }

  lemma ListedSymbols(t: HuffTable, f: seq<nat>, len: seq<nat>, sorted: seq<nat>)
    requires |f| == |len| == NUM_SYMBOLS && t.WellFormed() && LegalCode(t.bits)
    requires CountBelow(t.bits, 17) == UsedCount(f[..PSEUDO]) == |sorted| && sorted <= t.huffval
    requires forall s: nat :: s < PSEUDO ==> (f[s] > 0 <==> s in sorted)
    requires forall p :: 0 <= p < |sorted| ==> sorted[p] < PSEUDO
    requires forall p, q :: 0 <= p < q < |sorted| ==> Before(len, sorted[p], sorted[q])
    ensures LegalFor(t, f)
  {
    assert t.huffval[..CountBelow(t.bits, 17)] == sorted;
    forall p, q | 0 <= p < q < |sorted| ensures t.huffval[p] != t.huffval[q] {
      assert Before(len, sorted[p], sorted[q]);
    }
  }

  /** Fib(35): no smaller total, the pseudo-symbol included, makes a code longer than 32 bits. */
  const OVERFLOW_TOTAL := 9_227_465

  lemma LightCountsFit(f: seq<nat>)
    requires Countable(f) && Sum(f[..PSEUDO]) + 1 < OVERFLOW_TOTAL
    ensures WithinLimit(f)
  {
    assert |f| == NUM_SYMBOLS;
    FibOfThirtyFive();
    PseudoTotals(f);
    hide Sum, UsedCount, Fib, CodeLengths, Countable, OptimalLengths, WithPseudo, LengthsFit;
    CodeLengthsAreOptimal(f);
    OptimalIsCheapest(WithPseudo(f), CodeLengths(f));
    LightIsShallow(WithPseudo(f), CodeLengths(f), MAX_CLEN);
    BoundedFits(WithPseudo(f), CodeLengths(f));
  }

  lemma OptimalIsCheapest(f: seq<nat>, len: seq<nat>)
    requires OptimalLengths(f, len)
    ensures Cheapest(f, len)
  {
  }

  lemma BoundedFits(f: seq<nat>, len: seq<nat>)
    requires OptimalLengths(f, len) && Bounded(f, len, MAX_CLEN)
    ensures LengthsFit(len)
  {
    forall s | 0 <= s < |len| ensures len[s] <= MAX_CLEN {
      if f[s] == 0 {
        assert len[s] == 0;
      }
    }
  }

  lemma FibOfThirtyFive()
    ensures Fib(MAX_CLEN + 3) == OVERFLOW_TOTAL && Fib(MAX_CLEN + 2) == 5702887
  {
    assert Fib(8) == 21 && Fib(9) == 34;
    assert Fib(16) == 987 && Fib(17) == 1597;
    assert Fib(24) == 46368 && Fib(25) == 75025;
    assert Fib(32) == 2178309 && Fib(33) == 3524578;
  }

  /** Count the lengths, limit them to 16 bits and release the pseudo-symbol's code. */
  method CountsFromLengths(codesize: array<nat>, ghost f: seq<nat>) returns (ok: bool, counts: seq<byte>)
    requires Countable(f) && OptimalLengths(WithPseudo(f), codesize[..])
    ensures ok <==> LengthsFit(codesize[..])
    ensures ok ==> Complete(Tally(codesize[..]), MAX_CLEN)
    ensures |counts| == 17
    ensures ok ==> counts == Released(Adjusted(Tally(codesize[..]), MAX_CLEN))[..17]
  {
    ghost var len := codesize[..];
    UsedCounts(f, len);
    hide Countable, OptimalLengths, UsedCount, Tally, Adjusted, Released, Complete;
    var bits := new byte[MAX_CLEN + 1](_ => 0);
    ok := CountLengths(codesize, bits);
    counts := bits[..17];
    if ok {
      TallyIsComplete(f, len);
      LimitLengths(bits);
      ReleasePseudo(bits);
      counts := bits[..17];
    }
  }

  /** The symbol list, written over the previous contents of the table. */
  method SymbolsFromLengths(codesize: array<nat>, previous: seq<byte>, ghost f: seq<nat>)
    returns (symbols: seq<byte>)
    requires Countable(f) && OptimalLengths(WithPseudo(f), codesize[..]) && |previous| == 256
    requires LengthsFit(codesize[..])
    ensures |symbols| == 256 && SortedSymbols(codesize[..], MAX_CLEN, PSEUDO) <= symbols
  {
    SymbolsAreTheCounted(f, codesize[..]);
    hide OptimalLengths, SortedSymbols, UsedCount;
    var huffval := new byte[256](i requires 0 <= i < 256 => previous[i]);
    var p := SortSymbols(codesize, huffval);
    symbols := huffval[..];
  }

  /** Everything after the merging procedure. */
  method TableFromLengths(codesize: array<nat>, previous: seq<byte>, ghost f: seq<nat>)
    returns (r: Option<HuffTable>)
    requires Countable(f) && OptimalLengths(WithPseudo(f), codesize[..]) && |previous| == 256
    ensures r.Some? <==> LengthsFit(codesize[..])
    ensures r.Some? ==> MadeFrom(r.value, codesize[..]) && LegalFor(r.value, f)
  {
    assert codesize.Length == NUM_SYMBOLS;
    hide Countable, OptimalLengths, LegalFor, Tally, Adjusted, Released, SortedSymbols, Complete;
    var ok, counts := CountsFromLengths(codesize, f);
    if !ok {
      return None;
    }
    var symbols := SymbolsFromLengths(codesize, previous, f);
    r := Some(HuffTable(counts, symbols));
    MadeIsLegal(r.value, f, codesize[..]);
  }

  /** Count the pseudo-symbol once and run the merging procedure. */
  method LengthsForCounts(freq: array<nat>) returns (codesize: array<nat>)
    requires Countable(freq[..])
    modifies freq
    ensures freq.Length == NUM_SYMBOLS && codesize[..] == CodeLengths(old(freq[..]))
    ensures OptimalLengths(WithPseudo(old(freq[..])), codesize[..])
  {
    ghost var f := freq[..];
    PseudoTotals(f);
    freq[PSEUDO] := 1;
    assert freq[..] == WithPseudo(f);
    hide OptimalLengths, Sum, UsedCount, MergeLengths;
    codesize := AssignLengths(freq);
  }

  /**
   jpeg_gen_optimal_table. There is a table exactly if none of the code lengths for these counts exceeds
   MAX_CLEN; it is made from these lengths, which no other assignment beats, it is legal, and it lists
   the counted symbols and nothing else. The counts are used up.
   */
  method GenOptimalTable(freq: array<nat>, previous: seq<byte>) returns (r: Option<HuffTable>)
    requires Countable(freq[..]) && |previous| == 256
    modifies freq
    ensures freq.Length == NUM_SYMBOLS && (r.Some? <==> WithinLimit(old(freq[..])))
    ensures OptimalLengths(WithPseudo(old(freq[..])), CodeLengths(old(freq[..])))
    ensures r.Some? ==> MadeFrom(r.value, CodeLengths(old(freq[..]))) && LegalFor(r.value, old(freq[..]))
  {
    ghost var f := freq[..];
    assert |f| == NUM_SYMBOLS;
    assert LengthsFit(CodeLengths(f)) <==> WithinLimit(f);
    hide *;
    var codesize := LengthsForCounts(freq);
    r := TableFromLengths(codesize, previous, f);
  }

  lemma UsedCounts(f: seq<nat>, len: seq<nat>)
    requires Countable(f) && OptimalLengths(WithPseudo(f), len)
    ensures |len| == NUM_SYMBOLS && UsedCount(len) <= 255
  {
    LengthsArePositive(f, len);
    PseudoTotals(f);
    SameUsedCount(WithPseudo(f), len);
  }

  lemma {:induction false} SameUsedCount(f: seq<nat>, g: seq<nat>)
    requires |f| == |g| && forall s :: 0 <= s < |f| ==> (f[s] > 0 <==> g[s] > 0)
    ensures UsedCount(f) == UsedCount(g)
  {
    if f != [] {
      SameUsedCount(f[..|f| - 1], g[..|g| - 1]);
    }
  }

  // ----- what the encoder may rely on

  /** Such a table passes the validation of the derived-table builder. */
  lemma GeneratedTableIsAccepted(t: HuffTable, f: seq<nat>, maxSymbol: nat)
    requires |f| == NUM_SYMBOLS && LegalFor(t, f)
    requires forall s: byte :: s > maxSymbol ==> f[s] == 0
    ensures SymbolsFit(t, maxSymbol)
  {
    var n := CountBelow(t.bits, 17);
    forall p | 0 <= p < n ensures t.huffval[p] <= maxSymbol {
      assert t.huffval[p] == t.huffval[..n][p];
      assert f[t.huffval[p]] > 0;
    }
  }

  /** The derived table has a code for a symbol exactly when that symbol was counted. */
  lemma GeneratedTableCodesTheCounted(t: HuffTable, f: seq<nat>, d: DerivedTable, s: byte)
    requires |f| == NUM_SYMBOLS && LegalFor(t, f) && Derives(t, d)
    ensures d.Codes(s) <==> f[s] > 0
  {
    var n := CountBelow(t.bits, 17);
    if f[s] > 0 {
      var p :| 0 <= p < n && t.huffval[..n][p] == s;
      assert CodedAt(t, d, t.huffval[p], p);
    }
    if d.Codes(s) {
      var p: nat :| CodedAt(t, d, s, p);
      ClassBounds(t.bits, d.ehufsi[s], p);
      assert t.huffval[..n][p] == s;
    }
  }
}
