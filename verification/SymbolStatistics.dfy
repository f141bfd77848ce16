/**
 What the counts of a statistics pass look like: which symbols can occur at all,
 and why the table generator may be called with them.
 */
module SymbolStatistics {
  import opened BitString
  import opened ByteStream
  import opened Tokens
  import opened SequentialCode
  import opened SequentialScan
  import opened BlockStatistics
  import opened MergeProcedure
  import opened OptimalTable
  import opened Sums

  /** A symbol that a scan can send: its table is one of the scan's, and its category is no more than 11. */
  predicate Possible(scan: Scan, t: Token) {
    t.Symbol? ==>
      && t.sym % 16 <= MAX_COEF_BITS + 1
      && (t.dc ==> t.sym <= 15)
      && exists c :: 0 <= c < scan.Comps() && t.tbl == if t.dc then scan.dcTbl[c] else scan.acTbl[c]
  }

  predicate AllPossible(scan: Scan, tokens: seq<Token>) {
    forall i :: 0 <= i < |tokens| ==> Possible(scan, tokens[i])
  }

  lemma PossibleConcat(scan: Scan, a: seq<Token>, b: seq<Token>)
    requires AllPossible(scan, a) && AllPossible(scan, b)
    ensures AllPossible(scan, a + b)
  {
    hide Possible;
  }

  lemma {:induction false} PossibleZrl(scan: Scan, ci: nat, r: nat)
    requires ci < scan.Comps()
    ensures AllPossible(scan, ZrlTokens(scan.acTbl[ci], r))
  {
    if r > 15 {
      PossibleZrl(scan, ci, r - 16);
      PossibleConcat(scan, [Symbol(false, scan.acTbl[ci], 0xF0)], ZrlTokens(scan.acTbl[ci], r - 16));
    }
  }

  lemma PossibleCoef(scan: Scan, ci: nat, r: nat, v: int)
    requires ci < scan.Comps() && NumBits(Abs(v)) <= MAX_COEF_BITS
    ensures AllPossible(scan, CoefTokens(scan.acTbl[ci], r, v))
  {
    hide NumBits;
    DivModUnique(AcSymbol(r, v), 16, r % 16, NumBits(Abs(v)));
  }

  lemma {:induction false} PossibleAc(scan: Scan, ci: nat, z: Coefs, k: nat, r: nat)
    requires ci < scan.Comps() && 1 <= k <= DCTSIZE2 && AcInRange(z)
    ensures AllPossible(scan, AcTokens(z, scan.acTbl[ci], k, r))
    decreases DCTSIZE2 - k
  {
    hide NumBits, ZrlTokens, CoefTokens;
    if k < DCTSIZE2 {
      if z[k] == 0 {
        PossibleAc(scan, ci, z, k + 1, r + 1);
      } else {
        PossibleAc(scan, ci, z, k + 1, 0);
        hide Possible, AllPossible;
        PossibleZrl(scan, ci, r);
        PossibleCoef(scan, ci, r, z[k]);
        PossibleConcat(scan, ZrlTokens(scan.acTbl[ci], r), CoefTokens(scan.acTbl[ci], r, z[k]));
        PossibleConcat(scan, ZrlTokens(scan.acTbl[ci], r) + CoefTokens(scan.acTbl[ci], r, z[k]),
                       AcTokens(z, scan.acTbl[ci], k + 1, 0));
      }
    }
  }

  lemma PossibleDc(scan: Scan, ci: nat, diff: int)
    requires ci < scan.Comps() && DcInRange(diff)
    ensures AllPossible(scan, DcTokens(diff, scan.dcTbl[ci]))
  {
  }

  lemma PossibleBlock(scan: Scan, ci: nat, z: Coefs, pred: int)
    requires ci < scan.Comps() && BlockInRange(z, pred)
    ensures AllPossible(scan, BlockTokens(z, pred, scan.dcTbl[ci], scan.acTbl[ci]))
  {
    PossibleDc(scan, ci, z[0] - pred);
    PossibleAc(scan, ci, z, 1, 0);
    hide AcTokens, DcTokens, AllPossible, AcInRange, DcInRange;
    PossibleConcat(scan, DcTokens(z[0] - pred, scan.dcTbl[ci]), AcTokens(z, scan.acTbl[ci], 1, 0));
  }

  lemma {:induction false} PossibleMcu(scan: Scan, mcu: Mcu, b: nat, lastDc: seq<int>)
    requires |mcu| == |scan.membership| && b <= |mcu| && |lastDc| == scan.Comps()
    requires McuInRange(scan, mcu, b, lastDc)
    ensures AllPossible(scan, McuTokens(scan, mcu, b, lastDc))
    decreases |mcu| - b
  {
    if b < |mcu| {
      var ci, z := scan.membership[b], Zigzag(scan.order, mcu[b]);
      hide BlockTokens, BlockInRange, Possible;
      PossibleMcu(scan, mcu, b + 1, lastDc[ci := mcu[b][0]]);
      PossibleBlock(scan, ci, z, lastDc[ci]);
      PossibleConcat(scan, BlockTokens(z, lastDc[ci], scan.dcTbl[ci], scan.acTbl[ci]),
                     McuTokens(scan, mcu, b + 1, lastDc[ci := mcu[b][0]]));
    }
  }

  lemma {:induction false} PossibleRun(scan: Scan, pos: Pos, mcus: seq<Mcu>)
    requires |pos.lastDc| == scan.Comps() && Shaped(scan, mcus) && RunInRange(scan, pos, mcus)
    ensures AllPossible(scan, RunTokens(scan, pos, mcus))
    decreases |mcus|
  {
    if mcus != [] {
      var blocks := McuTokens(scan, mcus[0], 0, StartDc(scan, pos));
      PossibleRun(scan, StepPos(scan, pos, mcus[0]), mcus[1..]);
      PossibleMcu(scan, mcus[0], 0, StartDc(scan, pos));
      hide McuTokens, McuInRange, LastDcAfter;
      PossibleConcat(scan, MarkOf(scan, pos), blocks);
      PossibleConcat(scan, StepTokens(scan, pos, mcus[0]), RunTokens(scan, StepPos(scan, pos, mcus[0]), mcus[1..]));
    }
  }

  // ----- every table of the scan is used

  predicate Uses(tokens: seq<Token>, dc: bool, tbl: nat) {
    exists i :: 0 <= i < |tokens| && tokens[i].Symbol? && tokens[i].dc == dc && tokens[i].tbl == tbl
  }

  lemma UsesPart(a: seq<Token>, b: seq<Token>, dc: bool, tbl: nat)
    requires Uses(a, dc, tbl) || Uses(b, dc, tbl)
    ensures Uses(a + b, dc, tbl)
  {
    if Uses(a, dc, tbl) {
      var i :| 0 <= i < |a| && a[i].Symbol? && a[i].dc == dc && a[i].tbl == tbl;
      assert (a + b)[i] == a[i];
    } else {
      var i :| 0 <= i < |b| && b[i].Symbol? && b[i].dc == dc && b[i].tbl == tbl;
      assert (a + b)[|a| + i] == b[i];
    }
  }

  /** From coefficient k on there is a coefficient to send or an end-of-block code. */
  lemma {:induction false} AcIsUsed(z: Coefs, tbl: nat, k: nat, r: nat)
    requires 1 <= k <= DCTSIZE2 && (k < DCTSIZE2 || r > 0)
    ensures Uses(AcTokens(z, tbl, k, r), false, tbl)
    decreases DCTSIZE2 - k
  {
    hide NumBits, ZrlTokens, AcSymbol;
    if k == DCTSIZE2 {
      assert AcTokens(z, tbl, k, r)[0] == Symbol(false, tbl, 0);
    } else if z[k] == 0 {
      AcIsUsed(z, tbl, k + 1, r + 1);
    } else {
      var coef := CoefTokens(tbl, r, z[k]);
      assert coef[0] == Symbol(false, tbl, AcSymbol(r, z[k]));
      hide Uses, CoefTokens;
      assert Uses(coef, false, tbl) by { FirstIsUsed(coef, AcSymbol(r, z[k]), tbl); }
      UsesPart(ZrlTokens(tbl, r), coef, false, tbl);
      UsesPart(ZrlTokens(tbl, r) + coef, AcTokens(z, tbl, k + 1, 0), false, tbl);
    }
  }

  lemma FirstIsUsed(tokens: seq<Token>, sym: byte, tbl: nat)
    requires |tokens| > 0 && tokens[0] == Symbol(false, tbl, sym)
    ensures Uses(tokens, false, tbl)
  {
  }

  lemma BlockIsUsed(z: Coefs, pred: int, dcTbl: nat, acTbl: nat)
    ensures Uses(BlockTokens(z, pred, dcTbl, acTbl), true, dcTbl)
    ensures Uses(BlockTokens(z, pred, dcTbl, acTbl), false, acTbl)
  {
    AcIsUsed(z, acTbl, 1, 0);
    assert Uses(DcTokens(z[0] - pred, dcTbl), true, dcTbl) by {
      assert DcTokens(z[0] - pred, dcTbl)[0].Symbol?;
    }
    hide AcTokens, DcTokens, Uses;
    UsesPart(DcTokens(z[0] - pred, dcTbl), AcTokens(z, acTbl, 1, 0), true, dcTbl);
    UsesPart(DcTokens(z[0] - pred, dcTbl), AcTokens(z, acTbl, 1, 0), false, acTbl);
  }

  lemma {:induction false} McuUsesTables(scan: Scan, mcu: Mcu, b: nat, lastDc: seq<int>, i: nat)
    requires |mcu| == |scan.membership| && b <= i < |mcu| && |lastDc| == scan.Comps()
    ensures Uses(McuTokens(scan, mcu, b, lastDc), true, scan.dcTbl[scan.membership[i]])
    ensures Uses(McuTokens(scan, mcu, b, lastDc), false, scan.acTbl[scan.membership[i]])
    decreases |mcu| - b
  {
    var ci, z := scan.membership[b], Zigzag(scan.order, mcu[b]);
    var block := BlockTokens(z, lastDc[ci], scan.dcTbl[ci], scan.acTbl[ci]);
    var more := McuTokens(scan, mcu, b + 1, lastDc[ci := mcu[b][0]]);
    hide BlockTokens, Uses;
    if b == i {
      BlockIsUsed(z, lastDc[ci], scan.dcTbl[ci], scan.acTbl[ci]);
    } else {
      McuUsesTables(scan, mcu, b + 1, lastDc[ci := mcu[b][0]], i);
    }
    UsesPart(block, more, true, scan.dcTbl[scan.membership[i]]);
    UsesPart(block, more, false, scan.acTbl[scan.membership[i]]);
  }

  lemma RunUsesTables(scan: Scan, pos: Pos, mcus: seq<Mcu>, ci: nat)
    requires |pos.lastDc| == scan.Comps() && Shaped(scan, mcus) && mcus != []
    requires ci < scan.Comps() && ci in scan.membership
    ensures Uses(RunTokens(scan, pos, mcus), true, scan.dcTbl[ci])
    ensures Uses(RunTokens(scan, pos, mcus), false, scan.acTbl[ci])
  {
    var i :| 0 <= i < |scan.membership| && scan.membership[i] == ci;
    McuUsesTables(scan, mcus[0], 0, StartDc(scan, pos), i);
    var mark, mcu := MarkOf(scan, pos), McuTokens(scan, mcus[0], 0, StartDc(scan, pos));
    var more := RunTokens(scan, StepPos(scan, pos, mcus[0]), mcus[1..]);
    assert RunTokens(scan, pos, mcus) == mark + mcu + more;
    hide Uses, McuTokens;
    UsesPart(mark, mcu, true, scan.dcTbl[ci]);
    UsesPart(mark, mcu, false, scan.acTbl[ci]);
    UsesPart(mark + mcu, more, true, scan.dcTbl[ci]);
    UsesPart(mark + mcu, more, false, scan.acTbl[ci]);
  }

  // ----- the counts may be given to the table generator

  function ZeroCounts(): (f: seq<nat>)
    ensures |f| == COUNT_SIZE && forall s :: 0 <= s < COUNT_SIZE ==> f[s] == 0
  {
    seq(COUNT_SIZE, _ => 0)
  }

  /** The counts of one table as a function of the tokens. */
  function CountsOf(tokens: seq<Token>, dc: bool, tbl: nat): (f: seq<nat>)
    ensures |f| == PSEUDO
  {
    seq(PSEUDO, s requires 0 <= s < PSEUDO => Occurrences(tokens, dc, tbl, s))
  }

  /** The same as a table of counts, in which the pseudo-symbol has not been counted. */
  function TableCounts(tokens: seq<Token>, dc: bool, tbl: nat): (f: seq<nat>)
    ensures |f| == COUNT_SIZE
  {
    CountsOf(tokens, dc, tbl) + [0]
  }

  /** Counting from zero gives these counts and no others. */
  lemma CountedIs(f: seq<nat>, tokens: seq<Token>, dc: bool, tbl: nat)
    ensures Counted(f, ZeroCounts(), dc, tbl, tokens) <==> f == TableCounts(tokens, dc, tbl)
  {
    hide Occurrences;
    var g := TableCounts(tokens, dc, tbl);
    assert forall s: byte :: g[s] == Occurrences(tokens, dc, tbl, s);
    assert g[PSEUDO] == 0;
    if Counted(f, ZeroCounts(), dc, tbl, tokens) {
      forall s | 0 <= s < COUNT_SIZE ensures f[s] == g[s] {
        if s < PSEUDO {
          var b: byte := s;
          assert f[b] == ZeroCounts()[b] + Occurrences(tokens, dc, tbl, b);
        }
      }
    }
  }

  lemma {:induction false} CountsTotal(tokens: seq<Token>, dc: bool, tbl: nat)
    ensures Sum(CountsOf(tokens, dc, tbl)) <= |tokens|
  {
    var f := CountsOf(tokens, dc, tbl);
    if tokens == [] {
      SumZero(f);
    } else {
      var init, t := tokens[..|tokens| - 1], tokens[|tokens| - 1];
      var g := CountsOf(init, dc, tbl);
      CountsTotal(init, dc, tbl);
      if t.Symbol? && t.dc == dc && t.tbl == tbl {
        assert f == g[t.sym := g[t.sym] + 1];
        SumUpdate(g, t.sym, g[t.sym] + 1);
      } else {
        assert f == g;
      }
    }
  }

  lemma {:induction false} UnusedSymbols(f: seq<nat>, i: nat, j: nat)
    requires i < j < |f| && f[i] == 0 && f[j] == 0
    ensures UsedCount(f) <= |f| - 2
  {
    if j < |f| - 1 {
      UnusedSymbols(f[..|f| - 1], i, j);
    } else {
      UnusedSymbol(f[..|f| - 1], i);
    }
  }

  lemma {:induction false} UnusedSymbol(f: seq<nat>, i: nat)
    requires i < |f| && f[i] == 0
    ensures UsedCount(f) <= |f| - 1
  {
    if i < |f| - 1 {
      UnusedSymbol(f[..|f| - 1], i);
    }
  }

  lemma NeverCounted(scan: Scan, tokens: seq<Token>, dc: bool, tbl: nat, s: byte)
    requires AllPossible(scan, tokens) && s % 16 == 15
    ensures Occurrences(tokens, dc, tbl, s) == 0
  {
    OccursIffCounted(tokens, dc, tbl, s);
  }

  /** A table that the tokens use meets everything jpeg_gen_optimal_table expects, in any number up to its limit. */
  lemma CountsAreCountable(scan: Scan, tokens: seq<Token>, dc: bool, tbl: nat, counts: seq<nat>)
    requires AllPossible(scan, tokens) && Uses(tokens, dc, tbl)
    requires Counted(counts, ZeroCounts(), dc, tbl, tokens)
    requires |tokens| < SENTINEL
    ensures Countable(counts) && Sum(counts[..PSEUDO]) <= |tokens|
  {
    hide AllPossible, Sum, UsedCount, Occurrences;
    var f := counts[..PSEUDO];
    assert f == CountsOf(tokens, dc, tbl);
    CountsTotal(tokens, dc, tbl);
    NeverCounted(scan, tokens, dc, tbl, 15);
    NeverCounted(scan, tokens, dc, tbl, 31);
    UnusedSymbols(f, 15, 31);
    var i :| 0 <= i < |tokens| && tokens[i].Symbol? && tokens[i].dc == dc && tokens[i].tbl == tbl;
    OccursIffCounted(tokens, dc, tbl, tokens[i].sym);
    assert tokens[i] == Symbol(dc, tbl, tokens[i].sym);
    assert counts[tokens[i].sym] > 0;
  }

  /** No DC symbol above 15 was counted, so the generated DC tables are accepted too. */
  lemma NoLargeDcSymbols(scan: Scan, tokens: seq<Token>, tbl: nat, counts: seq<nat>)
    requires AllPossible(scan, tokens) && Counted(counts, ZeroCounts(), true, tbl, tokens)
    ensures forall s: byte :: s > 15 ==> counts[s] == 0
  {
    forall s: byte | s > 15 ensures counts[s] == 0 {
      OccursIffCounted(tokens, true, tbl, s);
    }
  }
}
