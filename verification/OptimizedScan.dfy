/**
 Two passes over the same MCUs: statistics, then output with the tables made from
 them. The coder can never miss a code.
 */
module OptimizedScan {
  import opened ByteStream
  import opened HuffmanCode
  import opened MergeProcedure
  import opened OptimalTable
  import opened Tokens
  import opened SequentialCode
  import opened SequentialScan
  import opened BlockStatistics
  import opened SymbolStatistics
  import opened BitWriter
  import opened SequentialEncoder
  import opened ScanDriver
  import opened StatisticsPass

  /** The statistics pass over a run: it fails exactly when a coefficient is out of range. */
  method GatherRun(g: HuffGatherer, mcus: seq<Mcu>) returns (ok: bool)
    requires g.Valid() && Shaped(g.scan, mcus)
    modifies g, g.dcCounts, g.acCounts
    ensures ok <==> RunInRange(g.scan, old(g.Position()), mcus)
    ensures g.dcBase == old(g.dcBase) && g.acBase == old(g.acBase)
    ensures ok ==>
              && g.Valid() && g.Position() == RunPos(g.scan, old(g.Position()), mcus)
              && g.seen == old(g.seen) + RunTokens(g.scan, old(g.Position()), mcus)
  {
    hide StepTokens, StepInRange, StepPos, HuffGatherer.Tallied;
    ghost var start, before, done: seq<Token> := g.Position(), g.seen, [];
    assert mcus[0..] == mcus;
    assert before + done == before;
    assert done + RunTokens(g.scan, start, mcus) == RunTokens(g.scan, start, mcus);
    for i := 0 to |mcus|
      invariant g.Valid() && Shaped(g.scan, mcus[i..])
      invariant g.dcBase == old(g.dcBase) && g.acBase == old(g.acBase)
      invariant RunInRange(g.scan, g.Position(), mcus[i..]) <==> RunInRange(g.scan, start, mcus)
      invariant RunPos(g.scan, g.Position(), mcus[i..]) == RunPos(g.scan, start, mcus)
      invariant g.seen == before + done
      invariant done + RunTokens(g.scan, g.Position(), mcus[i..]) == RunTokens(g.scan, start, mcus)
    {
      ghost var pos := g.Position();
      RestOfRun(g.scan, mcus, i);
      ok := g.EncodeMcu(mcus[i]);
      if !ok {
        return;
      }
      ghost var step := StepTokens(g.scan, pos, mcus[i]);
      Assoc(before, done, step);
      Assoc(done, step, RunTokens(g.scan, g.Position(), mcus[i + 1..]));
      done := done + step;
    }
    assert mcus[|mcus|..] == [];
    assert done + [] == done;
    return true;
  }

  /** A table slot that was generated from the counts of these tokens. */
  ghost predicate Prepared(t: Option<HuffTable>, tokens: seq<Token>, dc: bool, tbl: nat) {
    GeneratedFor(t, TableCounts(tokens, dc, tbl))
  }

  lemma PreparedIsUsable(scan: Scan, t: Option<HuffTable>, tokens: seq<Token>, dc: bool, tbl: nat)
    requires Prepared(t, tokens, dc, tbl) && AllPossible(scan, tokens)
    ensures t.Some? && t.value.WellFormed() && Usable(t, dc)
  {
    var f := TableCounts(tokens, dc, tbl);
    CountedIs(f, tokens, dc, tbl);
    GeneratedIsLegal(t, f);
    hide *;
    if dc {
      NoLargeDcSymbols(scan, tokens, tbl, f);
      LegalIsUsable(t, f, dc, 15);
    } else {
      LegalIsUsable(t, f, dc, 255);
    }
  }

  lemma GeneratedIsLegal(t: Option<HuffTable>, f: seq<nat>)
    requires GeneratedFor(t, f)
    ensures t.Some? && |f| == NUM_SYMBOLS && LegalFor(t.value, f)
  {
    hide LegalFor, MadeFrom, WithinLimit;
  }

  lemma LegalIsUsable(t: Option<HuffTable>, f: seq<nat>, dc: bool, maxSymbol: nat)
    requires t.Some? && |f| == NUM_SYMBOLS && LegalFor(t.value, f) && maxSymbol == if dc then 15 else 255
    requires forall s: byte :: s > maxSymbol ==> f[s] == 0
    ensures t.value.WellFormed() && Usable(t, dc)
  {
    hide SymbolsFit;
    GeneratedTableIsAccepted(t.value, f, maxSymbol);
  }

  lemma PreparedHasCode(t: Option<HuffTable>, tokens: seq<Token>, dc: bool, tbl: nat, d: DerivedTable, sym: byte)
    requires Prepared(t, tokens, dc, tbl) && t.Some? && Derives(t.value, d) && Symbol(dc, tbl, sym) in tokens
    ensures d.Codes(sym)
  {
    var f := TableCounts(tokens, dc, tbl);
    OccursIffCounted(tokens, dc, tbl, sym);
    assert f[sym] > 0;
    hide TableCounts, Occurrences, Derives;
    GeneratedIsLegal(t, f);
    GeneratedTableCodesTheCounted(t.value, f, d, sym);
  }

  ghost predicate AllPrepared(scan: Scan, dcTables: seq<Option<HuffTable>>, acTables: seq<Option<HuffTable>>,
                              tokens: seq<Token>)
    requires TableSlots(dcTables) && TableSlots(acTables)
  {
    forall c :: 0 <= c < scan.Comps() ==>
      && Prepared(dcTables[scan.dcTbl[c]], tokens, true, scan.dcTbl[c])
      && Prepared(acTables[scan.acTbl[c]], tokens, false, scan.acTbl[c])
  }

  lemma AllPreparedAreUsable(scan: Scan, dcTables: seq<Option<HuffTable>>, acTables: seq<Option<HuffTable>>,
                             tokens: seq<Token>)
    requires TableSlots(dcTables) && TableSlots(acTables) && AllPrepared(scan, dcTables, acTables, tokens)
    requires AllPossible(scan, tokens)
    ensures AllUsable(scan, dcTables, acTables, scan.Comps())
  {
    hide Prepared, Usable, AllPossible;
    forall c | 0 <= c < scan.Comps()
      ensures Usable(dcTables[scan.dcTbl[c]], true) && Usable(acTables[scan.acTbl[c]], false)
    {
      PreparedIsUsable(scan, dcTables[scan.dcTbl[c]], tokens, true, scan.dcTbl[c]);
      PreparedIsUsable(scan, acTables[scan.acTbl[c]], tokens, false, scan.acTbl[c]);
    }
  }

  /** Tables made from the statistics of a run have a code for everything the run sends. */
  lemma StatisticsCoverTheRun(scan: Scan, dcTables: seq<Option<HuffTable>>, acTables: seq<Option<HuffTable>>,
                              tokens: seq<Token>, d: Decoder, ts: Coder)
    requires TableSlots(dcTables) && TableSlots(acTables) && AllPrepared(scan, dcTables, acTables, tokens)
    requires AllPossible(scan, tokens) && DecoderKnows(d, ts) && AllLoaded(scan, d, dcTables, acTables, scan.Comps())
    ensures ts.Covers(tokens)
  {
    hide Prepared, Derives, AllPossible;
    forall i | 0 <= i < |tokens| && tokens[i].Symbol?
      ensures tokens[i].tbl < NUM_HUFF_TBLS && ts.At(tokens[i].dc, tokens[i].tbl).Codes(tokens[i].sym)
    {
      var t := tokens[i];
      var c := ComponentOf(scan, tokens, i);
      var derived := ts.At(t.dc, t.tbl);
      assert t == Symbol(t.dc, t.tbl, t.sym);
      assert Knows(d.dc[scan.dcTbl[c]], ts, true, scan.dcTbl[c])
          && Knows(d.ac[scan.acTbl[c]], ts, false, scan.acTbl[c]);
      if t.dc {
        PreparedHasCode(dcTables[t.tbl], tokens, true, t.tbl, derived, t.sym);
      } else {
        PreparedHasCode(acTables[t.tbl], tokens, false, t.tbl, derived, t.sym);
      }
    }
  }

  lemma ComponentOf(scan: Scan, tokens: seq<Token>, i: nat) returns (c: nat)
    requires AllPossible(scan, tokens) && i < |tokens| && tokens[i].Symbol?
    ensures c < scan.Comps() && tokens[i].tbl == if tokens[i].dc then scan.dcTbl[c] else scan.acTbl[c]
  {
    assert Possible(scan, tokens[i]);
    c :| 0 <= c < scan.Comps() && tokens[i].tbl == if tokens[i].dc then scan.dcTbl[c] else scan.acTbl[c];
  }

  /** Every component of the scan has a block in the MCU. */
  predicate EveryComponentCoded(scan: Scan) {
    forall c: nat :: c < scan.Comps() ==> c in scan.membership
  }

  /** Every table of the scan can be made from the statistics of these tokens. */
  predicate TablesExist(scan: Scan, tokens: seq<Token>) {
    forall c :: 0 <= c < scan.Comps() ==>
      FitsLimit(TableCounts(tokens, true, scan.dcTbl[c])) && FitsLimit(TableCounts(tokens, false, scan.acTbl[c]))
  }

  /**
   The statistics pass as a whole, over at least one MCU: it fails for a coefficient out of range, and
   otherwise exactly if the code of one of the tables is too long, for which there must be enough tokens.
   */
  method GatherTables(scan: Scan, mcus: seq<Mcu>, dcTables: seq<Option<HuffTable>>, acTables: seq<Option<HuffTable>>)
    returns (result: Outcome, newDc: seq<Option<HuffTable>>, newAc: seq<Option<HuffTable>>)
    requires TableSlots(dcTables) && TableSlots(acTables) && Shaped(scan, mcus) && mcus != []
               && EveryComponentCoded(scan)
    requires |RunTokens(scan, StartPos(scan), mcus)| < SENTINEL
    ensures TableSlots(newDc) && TableSlots(newAc)
    ensures result.Done? || result == Error(BadCoefficient) || result == Error(CodeOverflow)
    ensures result == Error(BadCoefficient) <==> !RunInRange(scan, StartPos(scan), mcus)
    ensures result == Error(CodeOverflow) <==>
              RunInRange(scan, StartPos(scan), mcus) && !TablesExist(scan, RunTokens(scan, StartPos(scan), mcus))
    ensures result == Error(CodeOverflow) ==> |RunTokens(scan, StartPos(scan), mcus)| + 1 >= OVERFLOW_TOTAL
    ensures result.Done? ==> AllPrepared(scan, newDc, newAc, RunTokens(scan, StartPos(scan), mcus))
  {
    hide RunTokens, RunInRange, Counted, GeneratedFor, Prepared, Uses, AllPossible, TablesExist, TableCounts, FitsLimit,
      HuffGatherer.AllMade, HuffGatherer.AllWithinLimit;
    newDc, newAc := dcTables, acTables;
    var g := new HuffGatherer(scan);
    g.StartPass();
    var ok := GatherRun(g, mcus);
    result := Error(BadCoefficient);
    if ok {
      ghost var tokens := RunTokens(scan, StartPos(scan), mcus);
      assert g.seen == tokens;
      RunIsFinishable(scan, mcus);
      ghost var dcWas, acWas := Contents(g.dcCounts), Contents(g.acCounts);
      AreTheCounts(g, dcWas, acWas, tokens);
      ok, newDc, newAc := g.FinishPass(dcTables, acTables);
      FinishMeans(g, newDc, newAc, dcWas, acWas, tokens);
      result := if ok then Done else Error(CodeOverflow);
    }
  }

  /** The count tables of the scan hold the counts of these tokens. */
  ghost predicate CountsFor(scan: Scan, dc: seq<seq<nat>>, ac: seq<seq<nat>>, tokens: seq<Token>) {
    && |dc| == |ac| == NUM_HUFF_TBLS
    && forall c :: 0 <= c < scan.Comps() ==>
         && dc[scan.dcTbl[c]] == TableCounts(tokens, true, scan.dcTbl[c])
         && ac[scan.acTbl[c]] == TableCounts(tokens, false, scan.acTbl[c])
  }

  lemma AreTheCounts(g: HuffGatherer, dc: seq<seq<nat>>, ac: seq<seq<nat>>, tokens: seq<Token>)
    requires g.Valid() && g.Finishable() && g.seen == tokens
    requires dc == Contents(g.dcCounts) && ac == Contents(g.acCounts)
    ensures CountsFor(g.scan, dc, ac, tokens)
  {
    hide Counted, AllPossible, Uses, TableCounts;
    forall c | 0 <= c < g.scan.Comps()
      ensures dc[g.scan.dcTbl[c]] == TableCounts(tokens, true, g.scan.dcTbl[c])
      ensures ac[g.scan.acTbl[c]] == TableCounts(tokens, false, g.scan.acTbl[c])
    {
      CountedIs(dc[g.scan.dcTbl[c]], tokens, true, g.scan.dcTbl[c]);
      CountedIs(ac[g.scan.acTbl[c]], tokens, false, g.scan.acTbl[c]);
    }
  }

  lemma FinishMeans(g: HuffGatherer, newDc: seq<Option<HuffTable>>, newAc: seq<Option<HuffTable>>,
                    dc: seq<seq<nat>>, ac: seq<seq<nat>>, tokens: seq<Token>)
    requires CountsFor(g.scan, dc, ac, tokens)
    ensures g.AllWithinLimit(dc, ac) <==> TablesExist(g.scan, tokens)
    ensures TableSlots(newDc) && TableSlots(newAc) && g.AllMade(newDc, newAc, dc, ac) ==>
              AllPrepared(g.scan, newDc, newAc, tokens)
  {
    hide TableCounts, FitsLimit, GeneratedFor;
    forall c | 0 <= c < g.scan.Comps()
      ensures g.ComponentFits(dc, ac, c) <==>
                && FitsLimit(TableCounts(tokens, true, g.scan.dcTbl[c]))
                && FitsLimit(TableCounts(tokens, false, g.scan.acTbl[c]))
    {
    }
  }

  lemma RunIsFinishable(scan: Scan, mcus: seq<Mcu>)
    requires Shaped(scan, mcus) && mcus != [] && EveryComponentCoded(scan) && RunInRange(scan, StartPos(scan), mcus)
    ensures AllPossible(scan, RunTokens(scan, StartPos(scan), mcus))
    ensures forall c :: 0 <= c < scan.Comps() ==>
              && Uses(RunTokens(scan, StartPos(scan), mcus), true, scan.dcTbl[c])
              && Uses(RunTokens(scan, StartPos(scan), mcus), false, scan.acTbl[c])
  {
    hide RunTokens, RunInRange, Uses, AllPossible;
    PossibleRun(scan, StartPos(scan), mcus);
    forall c | 0 <= c < scan.Comps()
      ensures Uses(RunTokens(scan, StartPos(scan), mcus), true, scan.dcTbl[c])
      ensures Uses(RunTokens(scan, StartPos(scan), mcus), false, scan.acTbl[c])
    {
      RunUsesTables(scan, StartPos(scan), mcus, c);
    }
  }

  /**
   Optimised coding of a scan of at least one MCU. The only failures left are a coefficient out of
   range, exactly for runs whose statistics need a code over 32 bits long, of which there are none of
   fewer than 9227464 tokens, and a refusal. The new tables are those that the generator makes of the
   counts; with them a finished scan decodes to the MCUs, unless a call was refused after a buffer was
   taken.
   */
  method EncodeOptimized(enc: HuffEncoder, dcTables: seq<Option<HuffTable>>, acTables: seq<Option<HuffTable>>,
                         mcus: seq<Mcu>, patience: nat)
    returns (result: Outcome, newDc: seq<Option<HuffTable>>, newAc: seq<Option<HuffTable>>)
    requires enc.Valid() && enc.dest.Valid() && Shaped(enc.scan, mcus) && mcus != [] && EveryComponentCoded(enc.scan)
    requires TableSlots(dcTables) && TableSlots(acTables)
    requires |RunTokens(enc.scan, StartPos(enc.scan), mcus)| < SENTINEL
    modifies enc, enc.dest, enc.dest.buffer
    ensures result == Error(BadCoefficient) <==> !RunInRange(enc.scan, StartPos(enc.scan), mcus)
    ensures result == Error(CodeOverflow) <==>
              && RunInRange(enc.scan, StartPos(enc.scan), mcus)
              && !TablesExist(enc.scan, RunTokens(enc.scan, StartPos(enc.scan), mcus))
    ensures result == Error(CodeOverflow) ==> |RunTokens(enc.scan, StartPos(enc.scan), mcus)| + 1 >= OVERFLOW_TOTAL
    ensures result != Error(MissingCode) && result != Error(BadTable)
    ensures TableSlots(newDc) && TableSlots(newAc)
    ensures result != Error(BadCoefficient) && result != Error(CodeOverflow) ==>
              && AllPrepared(enc.scan, newDc, newAc, RunTokens(enc.scan, StartPos(enc.scan), mcus))
              && AllLoaded(enc.scan, enc.tables, newDc, newAc, enc.scan.Comps()) && DecoderKnows(enc.tables, enc.ts)
    ensures result == Suspended || result == Error(CantSuspend) ==> EndsRefused(old(enc.dest.log), enc.dest.log)
    ensures result.Done? ==>
              && enc.dest.Valid() && old(enc.dest.log) <= enc.dest.log
              && Conveys(enc.tables, enc.scan, enc.ts, mcus, old(enc.dest.Stream()), enc.dest.Stream(),
                          enc.dest.log[|old(enc.dest.log)|..])
  {
    ghost var tokens := RunTokens(enc.scan, StartPos(enc.scan), mcus);
    hide *;
    Reasons();
    result, newDc, newAc := GatherTables(enc.scan, mcus, dcTables, acTables);
    if !result.Done? {
      return;
    }
    RunIsFinishable(enc.scan, mcus);
    AllPreparedAreUsable(enc.scan, newDc, newAc, tokens);
    result := EncodeScan(enc, newDc, newAc, mcus, patience);
    StatisticsCoverTheRun(enc.scan, newDc, newAc, tokens, enc.tables, enc.ts);
  }
}
