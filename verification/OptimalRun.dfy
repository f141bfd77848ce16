/**
 The tables made from the statistics of a run: no other table codes the run in fewer bits, but for
 what the code given up costs.
 */
module OptimalRun {
  import opened BitString
  import opened ByteStream
  import opened HuffmanCode
  import opened HuffmanTree
  import opened LengthLimiter
  import opened OptimalCodes
  import opened OptimalTable
  import opened SequentialScan
  import opened StatisticsPass
  import opened Sums
  import opened SymbolStatistics
  import opened Tokens

  /** The bits that the codes of one table take in a run. */
  function SentBits(tokens: seq<Token>, dc: bool, tbl: nat, d: DerivedTable): nat
    requires d.WellFormed()
  {
    if tokens == [] then 0
    else
      var t := tokens[|tokens| - 1];
      SentBits(tokens[..|tokens| - 1], dc, tbl, d)
      + if t.Symbol? && t.dc == dc && t.tbl == tbl then |d.CodeBits(t.sym)| else 0
  }

  /** They are those of the counts: every symbol was counted as often as it is sent. */
  lemma {:induction false} SentAsCounted(tokens: seq<Token>, dc: bool, tbl: nat, d: DerivedTable)
    requires d.WellFormed()
    ensures SentBits(tokens, dc, tbl, d) == CodedTotal(TableCounts(tokens, dc, tbl), d)
  {
    if tokens == [] {
      NothingCounted(dc, tbl, d);
    } else {
      var init, t := tokens[..|tokens| - 1], tokens[|tokens| - 1];
      SentAsCounted(init, dc, tbl, d);
      OneMoreCounted(tokens, dc, tbl);
      hide TableCounts, CodedTotal;
      if t.Symbol? && t.dc == dc && t.tbl == tbl {
        OneMoreCoded(TableCounts(init, dc, tbl), t.sym, d);
      }
    }
  }

  lemma NothingCounted(dc: bool, tbl: nat, d: DerivedTable)
    requires d.WellFormed()
    ensures CodedTotal(TableCounts([], dc, tbl), d) == 0
  {
    var f := TableCounts([], dc, tbl);
    SumZero(seq(256, s requires 0 <= s < 256 => f[s] * d.ehufsi[s]));
  }

  lemma OneMoreCounted(tokens: seq<Token>, dc: bool, tbl: nat)
    requires tokens != []
    ensures var t, f := tokens[|tokens| - 1], TableCounts(tokens[..|tokens| - 1], dc, tbl);
            TableCounts(tokens, dc, tbl)
              == if t.Symbol? && t.dc == dc && t.tbl == tbl then f[t.sym := f[t.sym] + 1] else f
  {
  }

  lemma OneMoreCoded(f: seq<nat>, s: byte, d: DerivedTable)
    requires |f| == NUM_SYMBOLS && d.WellFormed()
    ensures CodedTotal(f[s := f[s] + 1], d) == CodedTotal(f, d) + d.ehufsi[s]
  {
    var g := f[s := f[s] + 1];
    var a := seq(256, i requires 0 <= i < 256 => f[i] * d.ehufsi[i]);
    var b := seq(256, i requires 0 <= i < 256 => g[i] * d.ehufsi[i]);
    assert g[s] * d.ehufsi[s] == f[s] * d.ehufsi[s] + d.ehufsi[s];
    assert b == a[s := a[s] + d.ehufsi[s]];
    SumUpdate(a, s, a[s] + d.ehufsi[s]);
  }

  // ----- the lengths of any other table

  /** The lengths of the counted symbols, and one of m bits for the pseudo-symbol. */
  function LengthsIn(f: seq<nat>, d: DerivedTable, m: nat): (len: seq<nat>)
    requires |f| == NUM_SYMBOLS && d.WellFormed()
    ensures |len| == NUM_SYMBOLS
  {
    seq(NUM_SYMBOLS, s requires 0 <= s < NUM_SYMBOLS =>
      if s == PSEUDO then m else if f[s] > 0 then d.ehufsi[s] else 0)
  }

  ghost predicate CodesAll(d: DerivedTable, f: seq<nat>)
    requires |f| == NUM_SYMBOLS && d.WellFormed()
  {
    forall s: byte :: f[s] > 0 ==> d.Codes(s)
  }

  lemma {:induction false} PlacesOf(list: seq<nat>, t: HuffTable, d: DerivedTable, k: nat) returns (places: seq<nat>)
    requires Derives(t, d) && 1 <= k <= 16
    requires forall i :: 0 <= i < |list| ==> list[i] < 256 && d.ehufsi[list[i]] == k
    ensures |places| == |list|
    ensures forall i :: 0 <= i < |list| ==> places[i] < t.bits[k]
    ensures forall i :: 0 <= i < |list| ==>
              CountBelow(t.bits, k) + places[i] < 256 && t.huffval[CountBelow(t.bits, k) + places[i]] == list[i]
  {
    places := [];
    if list != [] {
      var n := |list| - 1;
      var front := PlacesOf(list[..n], t, d, k);
      var p := CodedSomewhere(t, d, list[n]);
      hide Derives;
      places := front + [p - CountBelow(t.bits, k)];
    }
  }

  /** So many different numbers below n are no more than n. */
  lemma Pigeons(s: seq<nat>, n: nat)
    requires forall i :: 0 <= i < |s| ==> s[i] < n
    requires forall i, j :: 0 <= i < j < |s| ==> s[i] != s[j]
    ensures |s| <= n
  {
    var a, b := ElementsOf(s, |s|), Below(n);
    ElementsCount(s, |s|);
    forall x | x in a ensures x in b {
      ElementsMean(s, |s|, x);
    }
    assert |b| == |a| + |b - a|;
  }

  /** A table has room for the symbols that it gives codes of one length. */
  lemma ClassHolds(f: seq<nat>, t: HuffTable, d: DerivedTable, m: nat, k: nat)
    requires |f| == NUM_SYMBOLS && Derives(t, d) && 1 <= k <= 16
    ensures |OfLength(LengthsIn(f, d, m), k, PSEUDO)| <= t.bits[k]
  {
    var len := LengthsIn(f, d, m);
    var list := OfLength(len, k, PSEUDO);
    OfLengthMeans(len, k, PSEUDO);
    forall i | 0 <= i < |list| ensures list[i] < 256 && d.ehufsi[list[i]] == k {
      assert list[i] in list;
    }
    hide OfLength, LengthsIn, Derives;
    var places := PlacesOf(list, t, d, k);
    forall i, j | 0 <= i < j < |places| ensures places[i] != places[j] {
      assert list[i] != list[j];
    }
    Pigeons(places, t.bits[k]);
  }

  lemma {:induction false} UsedMonotone(a: seq<nat>, b: seq<nat>, l: nat)
    requires l <= |a| && l <= |b| && forall k :: 1 <= k < l ==> a[k] <= b[k]
    ensures FirstCode(a, l) <= FirstCode(b, l)
  {
    if l > 1 {
      UsedMonotone(a, b, l - 1);
    }
  }

  /** Behind the longest length in use the codes only get longer. */
  lemma {:induction false} NothingLonger(b: seq<nat>, m: nat, l: nat)
    requires 1 <= m <= l < |b| && forall k :: m < k <= l ==> b[k] == 0
    ensures Used(b, l) == Used(b, m) * Pow2(l - m)
  {
    if l > m {
      NothingLonger(b, m, l - 1);
      assert Used(b, l) == 2 * Used(b, l - 1);
      Twice(Used(b, m), l - m);
    }
  }

  /** The tally of the other table's lengths: no more of each length than the table has codes. */
  lemma TallyFits(f: seq<nat>, t: HuffTable, d: DerivedTable, m: nat)
    requires |f| == NUM_SYMBOLS && Derives(t, d) && 1 <= m <= 16
    requires (forall k :: m < k <= 16 ==> t.bits[k] == 0)
    ensures LengthsFit(LengthsIn(f, d, m))
    ensures var b := Tally(LengthsIn(f, d, m));
            && (forall k :: 1 <= k <= m ==> b[k] - (if k == m then 1 else 0) <= t.bits[k])
            && (forall k :: m < k <= MAX_CLEN ==> b[k] == 0)
  {
    var len := LengthsIn(f, d, m);
    forall s | 0 <= s < NUM_SYMBOLS ensures len[s] <= 16 {
      if s < PSEUDO && d.Codes(s) {
        var p := CodedSomewhere(t, d, s);
      }
    }
    var front := Tally(len[..PSEUDO]);
    assert len[PSEUDO] == m && Tally(len) == front[m := front[m] + 1];
    forall k | 1 <= k <= MAX_CLEN ensures front[k] <= if k <= m then t.bits[k] else 0 {
      OfLengthCount(len, k, PSEUDO);
      if k <= 16 {
        ClassHolds(f, t, d, m, k);
      } else {
        NoneOfLength(len, k, PSEUDO);
      }
    }
  }

  lemma {:induction false} NoneOfLength(len: seq<nat>, k: nat, n: nat)
    requires n <= |len| && forall s :: 0 <= s < |len| ==> len[s] < k
    ensures OfLength(len, k, n) == []
  {
    if n > 0 {
      NoneOfLength(len, k, n - 1);
    }
  }

  /** Since a table leaves the code of all ones free, its lengths are those of a prefix code with one more symbol. */
  lemma OthersAreFeasible(f: seq<nat>, t: HuffTable, d: DerivedTable, m: nat)
    requires |f| == NUM_SYMBOLS && Derives(t, d) && CodesAll(d, f) && 1 <= m <= 16
    requires forall k :: m < k <= 16 ==> t.bits[k] == 0
    ensures Feasible(WithPseudo(f), LengthsIn(f, d, m), MAX_CLEN)
  {
    var g, len := WithPseudo(f), LengthsIn(f, d, m);
    TallyFits(f, t, d, m);
    TallyTotals(g, len);
    RoomForOneMore(Tally(len), t.bits, m);
  }

  lemma RoomForOneMore(b: seq<nat>, bits: seq<nat>, m: nat)
    requires |b| == MAX_CLEN + 1 && LegalCode(bits) && 1 <= m <= 16
    requires forall k :: 1 <= k <= m ==> b[k] <= bits[k] + if k == m then 1 else 0
    requires forall k :: m < k <= MAX_CLEN ==> b[k] == 0
    ensures Used(b, MAX_CLEN) <= Pow2(MAX_CLEN)
  {
    UsedMonotone(b, bits, m);
    assert Fits(bits, m);
    NothingLonger(b, m, MAX_CLEN);
    MulMonotone(Used(b, m), Pow2(m), Pow2(MAX_CLEN - m));
    Pow2Add(m, MAX_CLEN - m);
  }

  // ----- no table is better

  /**
   Take the table generated from the counts of a run, where the procedure needs no more than 16 bits,
   and any other table that has codes for the run. With its own table the run takes no more bits, when
   the longest length of each table is counted in once.
   */
  lemma NoTableIsBetter(tokens: seq<Token>, dc: bool, tbl: nat, t: HuffTable, d: DerivedTable,
                        other: HuffTable, e: DerivedTable, m: nat)
    requires GeneratedFor(Some(t), TableCounts(tokens, dc, tbl)) && Countable(TableCounts(tokens, dc, tbl))
    requires CodeLengths(TableCounts(tokens, dc, tbl))[PSEUDO] <= 16
    requires Derives(t, d) && Derives(other, e) && CodesAll(e, TableCounts(tokens, dc, tbl))
    requires 1 <= m <= 16 && forall k :: m < k <= 16 ==> other.bits[k] == 0
    ensures SentBits(tokens, dc, tbl, d) + CodeLengths(TableCounts(tokens, dc, tbl))[PSEUDO]
         <= SentBits(tokens, dc, tbl, e) + m
  {
    var f := TableCounts(tokens, dc, tbl);
    assert d.WellFormed() && e.WellFormed();
    hide TableCounts, CodeLengths, Countable, MadeFrom, Derives, Feasible, SentBits, CodedTotal;
    SentAsCounted(tokens, dc, tbl, d);
    SentAsCounted(tokens, dc, tbl, e);
    OthersAreFeasible(f, other, e, m);
    TotalIsMinimal(f, t, d, LengthsIn(f, e, m), MAX_CLEN);
    SplitCost(f, e, LengthsIn(f, e, m));
  }
}
