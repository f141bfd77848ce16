/**
 The statistics pass of the sequential encoder: encode_mcu_gather and
 finish_pass_gather of jchuff.c, over a whole run of MCUs.
 */
module StatisticsPass {
  import opened ByteStream
  import opened HuffmanCode
  import opened Tokens
  import opened SequentialCode
  import opened SequentialScan
  import opened BlockStatistics
  import opened SymbolStatistics
  import opened Sums
  import opened MergeProcedure
  import opened OptimalTable
  import opened SequentialEncoder

  /** The table came out of the generator for these counts: their code lengths, limited to 16. */
  ghost predicate Generated(t: HuffTable, counts: seq<nat>)
    requires |counts| == COUNT_SIZE
  {
    LegalFor(t, counts) && WithinLimit(counts) && MadeFrom(t, CodeLengths(counts))
  }

  class HuffGatherer {
    const scan: Scan
    const dcCounts: seq<array<nat>>
    const acCounts: seq<array<nat>>
    var lastDc: seq<int>
    var restartsToGo: nat
    ghost var nextNum: nat                 // the marker number the coder would be at
    ghost var dcBase: seq<seq<nat>>        // the counts when the pass began
    ghost var acBase: seq<seq<nat>>
    ghost var seen: seq<Token>             // what the coder would have sent since

    /** One count table per slot, all of them distinct. */
    ghost predicate Separate() {
      && |dcCounts| == |acCounts| == NUM_HUFF_TBLS
      && (forall i :: 0 <= i < NUM_HUFF_TBLS ==> dcCounts[i].Length == acCounts[i].Length == COUNT_SIZE)
      && (forall i, j :: 0 <= i < NUM_HUFF_TBLS && 0 <= j < NUM_HUFF_TBLS ==> dcCounts[i] != acCounts[j])
      && (forall i, j :: 0 <= i < j < NUM_HUFF_TBLS ==> dcCounts[i] != dcCounts[j] && acCounts[i] != acCounts[j])
    }

    /** Every table has counted exactly its symbols among the tokens. */
    ghost predicate Tallied(tokens: seq<Token>)
      requires Separate()
      reads `dcBase, `acBase, dcCounts, acCounts
    {
      && |dcBase| == |acBase| == NUM_HUFF_TBLS
      && (forall t :: 0 <= t < NUM_HUFF_TBLS ==> Counted(dcCounts[t][..], dcBase[t], true, t, tokens))
      && (forall t :: 0 <= t < NUM_HUFF_TBLS ==> Counted(acCounts[t][..], acBase[t], false, t, tokens))
    }

    ghost predicate Valid()
      reads this, dcCounts, acCounts
    {
      && Separate() && |lastDc| == scan.Comps()
      && Tallied(seen)
    }

    ghost function Position(): Pos
      reads this
    {
      Pos(lastDc, restartsToGo, nextNum)
    }

    /** htest_one_block on the count tables of component ci. */
    method CountBlock(ci: nat, block: Coefs, ghost out: seq<Token>) returns (ok: bool)
      requires Separate() && ci < scan.Comps() && |lastDc| == scan.Comps() && Tallied(out)
      modifies dcCounts, acCounts
      ensures var z := Zigzag(scan.order, block);
              && (ok <==> BlockInRange(z, lastDc[ci]))
              && (ok ==> Tallied(out + BlockTokens(z, lastDc[ci], scan.dcTbl[ci], scan.acTbl[ci])))
    {
      hide BlockTokens, Zigzag, Counted, BlockInRange;
      var d, a := scan.dcTbl[ci], scan.acTbl[ci];
      ghost var tokens := BlockTokens(Zigzag(scan.order, block), lastDc[ci], d, a);
      ok := HtestOneBlock(dcCounts[d], acCounts[a], scan.order, block, lastDc[ci], d, a);
      if ok {
        BlockSlots(Zigzag(scan.order, block), lastDc[ci], d, a);
        forall t | 0 <= t < NUM_HUFF_TBLS
          ensures Counted(dcCounts[t][..], dcBase[t], true, t, out + tokens)
        {
          if t == d {
            CountMore(dcCounts[t][..], old(dcCounts[t][..]), dcBase[t], true, t, out, tokens);
          } else {
            OtherSlotAbsent(tokens, d, a, true, t);
            assert dcCounts[t][..] == old(dcCounts[t][..]);
            CountOthers(dcCounts[t][..], dcBase[t], true, t, out, tokens);
          }
        }
        forall t | 0 <= t < NUM_HUFF_TBLS
          ensures Counted(acCounts[t][..], acBase[t], false, t, out + tokens)
        {
          if t == a {
            CountMore(acCounts[t][..], old(acCounts[t][..]), acBase[t], false, t, out, tokens);
          } else {
            OtherSlotAbsent(tokens, d, a, false, t);
            assert acCounts[t][..] == old(acCounts[t][..]);
            CountOthers(acCounts[t][..], acBase[t], false, t, out, tokens);
          }
        }
      }
    }

    constructor (scan: Scan)
      ensures Separate() && fresh(dcCounts) && fresh(acCounts) && this.scan == scan
    {
      this.scan := scan;
      var d0, d1, d2, d3 := new nat[COUNT_SIZE], new nat[COUNT_SIZE], new nat[COUNT_SIZE], new nat[COUNT_SIZE];
      var a0, a1, a2, a3 := new nat[COUNT_SIZE], new nat[COUNT_SIZE], new nat[COUNT_SIZE], new nat[COUNT_SIZE];
      dcCounts, acCounts := [d0, d1, d2, d3], [a0, a1, a2, a3];
    }

    /** start_pass_huff for a statistics pass: zero the count tables the scan uses. */
    method StartPass()
      requires Separate()
      modifies this, dcCounts, acCounts
      ensures Valid() && seen == [] && Position() == StartPos(scan)
      ensures forall c :: 0 <= c < scan.Comps() ==>
                dcBase[scan.dcTbl[c]] == ZeroCounts() && acBase[scan.acTbl[c]] == ZeroCounts()
    {
      hide Counted;
      ClearCounts();
      lastDc := Zeros(scan.Comps());
      restartsToGo := scan.restartInterval;
      StartCounting();
    }

    method ClearCounts()
      requires Separate()
      modifies dcCounts, acCounts
      ensures forall c :: 0 <= c < scan.Comps() ==>
                dcCounts[scan.dcTbl[c]][..] == ZeroCounts() && acCounts[scan.acTbl[c]][..] == ZeroCounts()
    {
      for ci := 0 to scan.Comps()
        invariant forall c :: 0 <= c < ci ==>
          dcCounts[scan.dcTbl[c]][..] == ZeroCounts() && acCounts[scan.acTbl[c]][..] == ZeroCounts()
      {
        Clear(dcCounts[scan.dcTbl[ci]]);
        Clear(acCounts[scan.acTbl[ci]]);
      }
    }

    ghost method StartCounting()
      requires Separate()
      modifies `nextNum, `seen, `dcBase, `acBase
      ensures seen == [] && nextNum == 0 && Tallied(seen)
      ensures forall t :: 0 <= t < NUM_HUFF_TBLS ==> dcBase[t] == dcCounts[t][..] && acBase[t] == acCounts[t][..]
    {
      hide Counted;
      nextNum, seen := 0, [];
      dcBase := seq(NUM_HUFF_TBLS, t requires 0 <= t < NUM_HUFF_TBLS reads dcCounts => dcCounts[t][..]);
      acBase := seq(NUM_HUFF_TBLS, t requires 0 <= t < NUM_HUFF_TBLS reads acCounts => acCounts[t][..]);
      forall t | 0 <= t < NUM_HUFF_TBLS
        ensures Counted(dcCounts[t][..], dcBase[t], true, t, []) && Counted(acCounts[t][..], acBase[t], false, t, [])
      {
        CountedNothing(dcBase[t], true, t);
        CountedNothing(acBase[t], false, t);
      }
    }

    /** Re-initialize DC predictions to 0. */
    method ClearDc()
      requires |lastDc| == scan.Comps()
      modifies `lastDc
      ensures lastDc == Zeros(scan.Comps())
    {
      for ci := 0 to scan.Comps()
        invariant |lastDc| == scan.Comps() && forall c :: 0 <= c < ci ==> lastDc[c] == 0
      {
        lastDc := lastDc[ci := 0];
      }
    }

    /** The blocks of an MCU. */
    method CountBlocks(mcu: Mcu) returns (ok: bool)
      requires Valid() && |mcu| == |scan.membership|
      modifies `lastDc, `seen, dcCounts, acCounts
      ensures ok <==> McuInRange(scan, mcu, 0, old(lastDc))
      ensures ok ==> Valid() && seen == old(seen) + McuTokens(scan, mcu, 0, old(lastDc))
      ensures ok ==> lastDc == LastDcAfter(scan, mcu, 0, old(lastDc))
    {
      hide BlockTokens, BlockInRange, IsOrder, Zigzag, Counted;
      ghost var start, out: seq<Token> := lastDc, [];
      assert seen + out == seen;
      assert out + McuTokens(scan, mcu, 0, start) == McuTokens(scan, mcu, 0, start);
      for blkn := 0 to |mcu|
        invariant |lastDc| == scan.Comps() && Tallied(seen + out) && seen == old(seen)
        invariant out + McuTokens(scan, mcu, blkn, lastDc) == McuTokens(scan, mcu, 0, start)
        invariant McuInRange(scan, mcu, blkn, lastDc) <==> McuInRange(scan, mcu, 0, start)
        invariant LastDcAfter(scan, mcu, blkn, lastDc) == LastDcAfter(scan, mcu, 0, start)
      {
        var ci := scan.membership[blkn];
        ghost var block := BlockTokens(Zigzag(scan.order, mcu[blkn]), lastDc[ci], scan.dcTbl[ci], scan.acTbl[ci]);
        ghost var more := McuTokens(scan, mcu, blkn + 1, lastDc[ci := mcu[blkn][0]]);
        ok := CountBlock(ci, mcu[blkn], seen + out);
        if !ok {
          return;
        }
        Assoc(out, block, more);
        Assoc(seen, out, block);
        lastDc := lastDc[ci := mcu[blkn][0]];
        out := out + block;
      }
      assert out + [] == out;
      seen := seen + out;
      ok := true;
    }

    /** encode_mcu_gather: the statistics of exactly the tokens that encode_mcu_huff would send. */
    method EncodeMcu(mcu: Mcu) returns (ok: bool)
      requires Valid() && |mcu| == |scan.membership|
      modifies this, dcCounts, acCounts
      ensures ok <==> StepInRange(scan, old(Position()), mcu)
      ensures dcBase == old(dcBase) && acBase == old(acBase)
      ensures ok ==>
                && Valid() && Position() == StepPos(scan, old(Position()), mcu)
                && seen == old(seen) + StepTokens(scan, old(Position()), mcu)
    {
      hide McuTokens, McuInRange, LastDcAfter, Counted;
      ghost var pos, before := Position(), seen;
      if scan.restartInterval != 0 {
        if restartsToGo == 0 {
          ClearDc();
          restartsToGo := scan.restartInterval;
          CountMark();
        }
        restartsToGo := restartsToGo - 1;
      }
      assert lastDc == StartDc(scan, pos);
      assert seen == before + MarkOf(scan, pos);
      ok := CountBlocks(mcu);
      Assoc(before, MarkOf(scan, pos), McuTokens(scan, mcu, 0, StartDc(scan, pos)));
    }

    /** The marker the coder would send is not counted. */
    ghost method CountMark()
      requires Separate() && Tallied(seen)
      modifies `seen, `nextNum
      ensures Tallied(seen) && seen == old(seen) + [Mark(old(nextNum))] && nextNum == (old(nextNum) + 1) % 8
    {
      var mark := [Mark(nextNum)];
      hide Counted;
      forall t | 0 <= t < NUM_HUFF_TBLS
        ensures Counted(dcCounts[t][..], dcBase[t], true, t, seen + mark)
        ensures Counted(acCounts[t][..], acBase[t], false, t, seen + mark)
      {
        CountOthers(dcCounts[t][..], dcBase[t], true, t, seen, mark);
        CountOthers(acCounts[t][..], acBase[t], false, t, seen, mark);
      }
      seen, nextNum := seen + mark, (nextNum + 1) % 8;
    }

    /** The pass has counted a run that jpeg_gen_optimal_table can take. */
    ghost predicate Finishable()
      requires Valid()
      reads this, dcCounts, acCounts
    {
      && AllPossible(scan, seen) && |seen| < SENTINEL
      && forall c :: 0 <= c < scan.Comps() ==>
           && Uses(seen, true, scan.dcTbl[c]) && Uses(seen, false, scan.acTbl[c])
           && dcBase[scan.dcTbl[c]] == ZeroCounts() && acBase[scan.acTbl[c]] == ZeroCounts()
    }

    /** Every count table of the scan has counts that a table can be made of. */
    predicate AllWithinLimit(dc: seq<seq<nat>>, ac: seq<seq<nat>>) {
      forall c :: 0 <= c < scan.Comps() ==> ComponentFits(dc, ac, c)
    }

    predicate ComponentFits(dc: seq<seq<nat>>, ac: seq<seq<nat>>, c: nat)
      requires c < scan.Comps()
    {
      && |dc| == |ac| == NUM_HUFF_TBLS
      && FitsLimit(dc[scan.dcTbl[c]]) && FitsLimit(ac[scan.acTbl[c]])
    }

    /** The first n components are done, and their counts fit. */
    ghost predicate DoneUpTo(n: nat, didDc: seq<bool>, didAc: seq<bool>, dc: seq<seq<nat>>, ac: seq<seq<nat>>)
      requires n <= scan.Comps()
    {
      && |didDc| == |didAc| == NUM_HUFF_TBLS
      && forall c :: 0 <= c < n ==> didDc[scan.dcTbl[c]] && didAc[scan.acTbl[c]] && ComponentFits(dc, ac, c)
    }

    lemma NothingDone(didDc: seq<bool>, didAc: seq<bool>, dc: seq<seq<nat>>, ac: seq<seq<nat>>)
      requires |didDc| == |didAc| == NUM_HUFF_TBLS
      ensures DoneUpTo(0, didDc, didAc, dc, ac)
    {
    }

    lemma OneMoreDone(n: nat, didDc: seq<bool>, didAc: seq<bool>, dc: seq<seq<nat>>, ac: seq<seq<nat>>)
      requires n < scan.Comps() && DoneUpTo(n, didDc, didAc, dc, ac) && ComponentFits(dc, ac, n)
      ensures |didDc| == |didAc| == NUM_HUFF_TBLS
      ensures DoneUpTo(n + 1, didDc[scan.dcTbl[n] := true], didAc[scan.acTbl[n] := true], dc, ac)
    {
      hide HuffGatherer.ComponentFits;
    }

    lemma AllDone(didDc: seq<bool>, didAc: seq<bool>, dc: seq<seq<nat>>, ac: seq<seq<nat>>)
      requires DoneUpTo(scan.Comps(), didDc, didAc, dc, ac)
      ensures AllWithinLimit(dc, ac) && |didDc| == |didAc| == NUM_HUFF_TBLS
      ensures forall c :: 0 <= c < |scan.dcTbl| ==> didDc[scan.dcTbl[c]]
      ensures forall c :: 0 <= c < |scan.acTbl| ==> didAc[scan.acTbl[c]]
    {
      hide HuffGatherer.ComponentFits;
    }

    lemma NotAllFit(dc: seq<seq<nat>>, ac: seq<seq<nat>>, c: nat)
      requires c < scan.Comps() && !ComponentFits(dc, ac, c)
      ensures !AllWithinLimit(dc, ac)
    {
    }

    /** The table of every component was generated from its counts. */
    ghost predicate AllMade(newDc: seq<Option<HuffTable>>, newAc: seq<Option<HuffTable>>,
                            dc: seq<seq<nat>>, ac: seq<seq<nat>>)
    {
      && |newDc| == |newAc| == |dc| == |ac| == NUM_HUFF_TBLS
      && (forall c :: 0 <= c < |scan.dcTbl| ==> GeneratedFor(newDc[scan.dcTbl[c]], dc[scan.dcTbl[c]]))
      && (forall c :: 0 <= c < |scan.acTbl| ==> GeneratedFor(newAc[scan.acTbl[c]], ac[scan.acTbl[c]]))
    }

    lemma AreMade(newDc: seq<Option<HuffTable>>, newAc: seq<Option<HuffTable>>,
                  dc: seq<seq<nat>>, ac: seq<seq<nat>>)
      requires TableSlots(newDc) && TableSlots(newAc) && |dc| == |ac| == NUM_HUFF_TBLS
      requires forall c :: 0 <= c < |scan.dcTbl| ==> GeneratedFor(newDc[scan.dcTbl[c]], dc[scan.dcTbl[c]])
      requires forall c :: 0 <= c < |scan.acTbl| ==> GeneratedFor(newAc[scan.acTbl[c]], ac[scan.acTbl[c]])
      ensures AllMade(newDc, newAc, dc, ac)
    {
    }

    /**
     finish_pass_gather: one table for every count table of the scan. It fails exactly
     when the code for one of them would need more than 32 bits, which a run of fewer
     than 9227464 tokens cannot cause.
     */
    method FinishPass(dcTables: seq<Option<HuffTable>>, acTables: seq<Option<HuffTable>>)
      returns (ok: bool, newDc: seq<Option<HuffTable>>, newAc: seq<Option<HuffTable>>)
      requires TableSlots(dcTables) && TableSlots(acTables) && Valid() && Finishable()
      modifies dcCounts, acCounts
      ensures TableSlots(newDc) && TableSlots(newAc)
      ensures ok <==> AllWithinLimit(old(Contents(dcCounts)), old(Contents(acCounts)))
      ensures ok ==> AllMade(newDc, newAc, old(Contents(dcCounts)), old(Contents(acCounts)))
      ensures |seen| + 1 < OVERFLOW_TOTAL ==> ok
    {
      ghost var dcWas := Contents(dcCounts);
      ghost var acWas := Contents(acCounts);
      hide *;
      SlotsAreSeparate();
      AllCountsAreReady(dcWas, acWas);
      FewTokensMeanAllFit(dcWas, acWas);
      ok, newDc, newAc := GenerateAll(dcTables, acTables, dcWas, acWas);
    }

    lemma SlotsAreSeparate()
      requires Valid()
      ensures Separate()
    {
    }

    /** The loop over the components. */
    method GenerateAll(dcTables: seq<Option<HuffTable>>, acTables: seq<Option<HuffTable>>,
                       ghost dcWas: seq<seq<nat>>, ghost acWas: seq<seq<nat>>)
      returns (ok: bool, newDc: seq<Option<HuffTable>>, newAc: seq<Option<HuffTable>>)
      requires Separate() && TableSlots(dcTables) && TableSlots(acTables) && AllReady(dcWas, acWas)
      requires dcWas == Contents(dcCounts) && acWas == Contents(acCounts)
      modifies dcCounts, acCounts
      ensures TableSlots(newDc) && TableSlots(newAc)
      ensures ok <==> AllWithinLimit(dcWas, acWas)
      ensures ok ==> AllMade(newDc, newAc, dcWas, acWas)
    {
      hide TableSlots, GeneratedFor, Generating, Ready, Countable, HuffGatherer.ComponentFits, 
        HuffGatherer.AllWithinLimit, HuffGatherer.AllMade, HuffGatherer.DoneUpTo, HuffGatherer.AllReady;
      newDc, newAc, ok := dcTables, acTables, true;
      var didDc, didAc := seq(NUM_HUFF_TBLS, _ => false), seq(NUM_HUFF_TBLS, _ => false);
      StartGenerating(newDc, dcWas);
      StartGenerating(newAc, acWas);
      NothingDone(didDc, didAc, dcWas, acWas);
      for ci := 0 to scan.Comps()
        invariant TableSlots(newDc) && TableSlots(newAc) && |didDc| == |didAc| == NUM_HUFF_TBLS
        invariant Generating(newDc, didDc, Contents(dcCounts), dcWas)
        invariant Generating(newAc, didAc, Contents(acCounts), acWas)
        invariant DoneUpTo(ci, didDc, didAc, dcWas, acWas)
      {
        ReadyAt(dcWas, acWas, ci);
        ghost var wasDc, wasAc := didDc, didAc;
        ok, newDc, didDc, newAc, didAc := GenerateComponent(ci, newDc, didDc, dcWas, newAc, didAc, acWas);
        if !ok {
          NotAllFit(dcWas, acWas, ci);
          return;
        }
        OneMoreDone(ci, wasDc, wasAc, dcWas, acWas);
      }
      ok := true;
      AllDone(didDc, didAc, dcWas, acWas);
      AllGenerated(newDc, didDc, Contents(dcCounts), dcWas, scan.dcTbl);
      AllGenerated(newAc, didAc, Contents(acCounts), acWas, scan.acTbl);
      AreMade(newDc, newAc, dcWas, acWas);
    }

    /** The DC and the AC table of one component. */
    method GenerateComponent(ci: nat, dcTables: seq<Option<HuffTable>>, didDc: seq<bool>, ghost dcWas: seq<seq<nat>>,
                             acTables: seq<Option<HuffTable>>, didAc: seq<bool>, ghost acWas: seq<seq<nat>>)
      returns (ok: bool, newDc: seq<Option<HuffTable>>, newDidDc: seq<bool>,
               newAc: seq<Option<HuffTable>>, newDidAc: seq<bool>)
      requires Separate() && ci < scan.Comps() && TableSlots(dcTables) && TableSlots(acTables)
      requires |didDc| == |dcWas| == |didAc| == |acWas| == NUM_HUFF_TBLS
      requires Generating(dcTables, didDc, Contents(dcCounts), dcWas) && Countable(dcWas[scan.dcTbl[ci]])
      requires Generating(acTables, didAc, Contents(acCounts), acWas) && Countable(acWas[scan.acTbl[ci]])
      modifies dcCounts, acCounts
      ensures TableSlots(newDc) && TableSlots(newAc)
      ensures ok ==> Generating(newDc, newDidDc, Contents(dcCounts), dcWas) && newDidDc == didDc[scan.dcTbl[ci] := true]
      ensures ok ==> Generating(newAc, newDidAc, Contents(acCounts), acWas) && newDidAc == didAc[scan.acTbl[ci] := true]
      ensures ok <==> ComponentFits(dcWas, acWas, ci)
    {
      hide Generating, Countable, TableSlots, FitsLimit;
      newAc, newDidAc := acTables, didAc;
      var dcTbl, acTbl := scan.dcTbl[ci], scan.acTbl[ci];
      assert dcCounts[dcTbl] !in acCounts && acCounts[acTbl] !in dcCounts;
      ok, newDc, newDidDc := GenerateOnce(dcTables, didDc, dcCounts, dcTbl, dcWas);
      if ok {
        ok, newAc, newDidAc := GenerateOnce(acTables, didAc, acCounts, acTbl, acWas);
      }
    }

    lemma CountsAreReady(c: nat)
      requires Valid() && Finishable() && c < scan.Comps()
      ensures Countable(dcCounts[scan.dcTbl[c]][..]) && Sum(dcCounts[scan.dcTbl[c]][..][..PSEUDO]) <= |seen|
      ensures Countable(acCounts[scan.acTbl[c]][..]) && Sum(acCounts[scan.acTbl[c]][..][..PSEUDO]) <= |seen|
    {
      hide Counted, AllPossible, Uses, Countable, Sum;
      CountsAreCountable(scan, seen, true, scan.dcTbl[c], dcCounts[scan.dcTbl[c]][..]);
      CountsAreCountable(scan, seen, false, scan.acTbl[c], acCounts[scan.acTbl[c]][..]);
    }

    ghost predicate AllReady(dcWas: seq<seq<nat>>, acWas: seq<seq<nat>>)
      reads `seen
    {
      && |dcWas| == |acWas| == NUM_HUFF_TBLS
      && forall c :: 0 <= c < scan.Comps() ==>
           Ready(dcWas[scan.dcTbl[c]], |seen|) && Ready(acWas[scan.acTbl[c]], |seen|)
    }

    lemma ReadyAt(dcWas: seq<seq<nat>>, acWas: seq<seq<nat>>, c: nat)
      requires AllReady(dcWas, acWas) && c < scan.Comps()
      ensures |dcWas| == |acWas| == NUM_HUFF_TBLS
      ensures Countable(dcWas[scan.dcTbl[c]]) && Countable(acWas[scan.acTbl[c]])
    {
      hide Countable, Sum;
    }

    lemma FewTokensMeanAllFit(dcWas: seq<seq<nat>>, acWas: seq<seq<nat>>)
      requires AllReady(dcWas, acWas)
      ensures |seen| + 1 < OVERFLOW_TOTAL ==> AllWithinLimit(dcWas, acWas)
    {
      hide Countable, Sum, FitsLimit;
      if |seen| + 1 < OVERFLOW_TOTAL {
        forall c | 0 <= c < scan.Comps() ensures ComponentFits(dcWas, acWas, c) {
          FewTokensFit(dcWas[scan.dcTbl[c]], |seen|);
          FewTokensFit(acWas[scan.acTbl[c]], |seen|);
        }
      }
    }

    lemma AllCountsAreReady(dcWas: seq<seq<nat>>, acWas: seq<seq<nat>>)
      requires Valid() && Finishable() && dcWas == Contents(dcCounts) && acWas == Contents(acCounts)
      ensures AllReady(dcWas, acWas)
    {
      hide Counted, AllPossible, Uses, Countable, Sum;
      forall c | 0 <= c < scan.Comps()
        ensures Ready(dcWas[scan.dcTbl[c]], |seen|) && Ready(acWas[scan.acTbl[c]], |seen|)
      {
        CountsAreReady(c);
      }
    }
  }

  /** The generator may be called, and the total is no more than n. */
  ghost predicate Ready(counts: seq<nat>, n: nat) {
    Countable(counts) && Sum(counts[..PSEUDO]) <= n
  }

  /** A table can be made of the counts. */
  predicate FitsLimit(counts: seq<nat>) {
    |counts| == COUNT_SIZE && WithinLimit(counts)
  }

  lemma FewTokensFit(counts: seq<nat>, n: nat)
    requires Ready(counts, n) && n + 1 < OVERFLOW_TOTAL
    ensures FitsLimit(counts)
  {
    LightCountsFit(counts);
  }

  ghost predicate GeneratedFor(t: Option<HuffTable>, counts: seq<nat>) {
    |counts| == COUNT_SIZE && t.Some? && Generated(t.value, counts)
  }

  ghost function Contents(arrays: seq<array<nat>>): (f: seq<seq<nat>>)
    reads arrays
    ensures |f| == |arrays| && forall t :: 0 <= t < |arrays| ==> f[t] == arrays[t][..]
  {
    seq(|arrays|, t requires 0 <= t < |arrays| reads arrays => arrays[t][..])
  }

  /** Tables done hold the result for the counts they had; the counts of the others are untouched. */
  ghost predicate Generating(tables: seq<Option<HuffTable>>, did: seq<bool>, now: seq<seq<nat>>, was: seq<seq<nat>>) {
    && TableSlots(tables) && |did| == |now| == |was| == NUM_HUFF_TBLS
    && forall t :: 0 <= t < NUM_HUFF_TBLS ==> if did[t] then GeneratedFor(tables[t], was[t]) else now[t] == was[t]
  }

  lemma GenerateStep(tables: seq<Option<HuffTable>>, did: seq<bool>, now: seq<seq<nat>>, was: seq<seq<nat>>, tbl: nat,
                     tables': seq<Option<HuffTable>>, now': seq<seq<nat>>)
    requires Generating(tables, did, now, was) && tbl < NUM_HUFF_TBLS && TableSlots(tables') && |now'| == NUM_HUFF_TBLS
    requires forall t :: 0 <= t < NUM_HUFF_TBLS && t != tbl ==> tables'[t] == tables[t] && now'[t] == now[t]
    requires GeneratedFor(tables'[tbl], was[tbl])
    ensures Generating(tables', did[tbl := true], now', was)
  {
    hide GeneratedFor;
  }

  lemma StartGenerating(tables: seq<Option<HuffTable>>, was: seq<seq<nat>>)
    requires TableSlots(tables) && |was| == NUM_HUFF_TBLS
    ensures Generating(tables, seq(NUM_HUFF_TBLS, _ => false), was, was)
  {
  }

  /** It's important not to generate more than once per table, because the counts are used up. */
  method GenerateOnce(tables: seq<Option<HuffTable>>, did: seq<bool>, counts: seq<array<nat>>, tbl: nat,
                      ghost was: seq<seq<nat>>)
    returns (ok: bool, tables': seq<Option<HuffTable>>, did': seq<bool>)
    requires |counts| == NUM_HUFF_TBLS && |did| == |was| == NUM_HUFF_TBLS && TableSlots(tables)
    requires Generating(tables, did, Contents(counts), was) && tbl < NUM_HUFF_TBLS && Countable(was[tbl])
    requires forall i, j :: 0 <= i < j < NUM_HUFF_TBLS ==> counts[i] != counts[j]
    modifies counts[tbl]
    ensures TableSlots(tables') && |did'| == NUM_HUFF_TBLS
    ensures ok ==> Generating(tables', did', Contents(counts), was) && did' == did[tbl := true]
    ensures ok <==> FitsLimit(was[tbl])
  {
    hide Countable, Sum, GeneratedFor, Generated, Generating, FitsLimit;
    ok, tables', did' := true, tables, did;
    if did[tbl] {
      DoneFits(tables, did, Contents(counts), was, tbl);
    } else {
      ghost var now := Contents(counts);
      UntouchedCounts(tables, did, now, was, tbl);
      ok, tables' := GenerateTable(tables, tbl, counts[tbl]);
      did' := did[tbl := true];
      if ok {
        IsGeneratedFor(tables'[tbl], was[tbl]);
        GenerateStep(tables, did, now, was, tbl, tables', Contents(counts));
      }
    }
    assert ok && did[tbl] ==> did' == did[tbl := true];
  }

  lemma AllGenerated(tables: seq<Option<HuffTable>>, did: seq<bool>, now: seq<seq<nat>>, was: seq<seq<nat>>,
                     slots: seq<nat>)
    requires Generating(tables, did, now, was)
    requires forall c :: 0 <= c < |slots| ==> slots[c] < NUM_HUFF_TBLS && did[slots[c]]
    ensures TableSlots(tables) && forall c :: 0 <= c < |slots| ==> GeneratedFor(tables[slots[c]], was[slots[c]])
  {
    hide GeneratedFor;
  }

  lemma UntouchedCounts(tables: seq<Option<HuffTable>>, did: seq<bool>, now: seq<seq<nat>>, was: seq<seq<nat>>,
                        tbl: nat)
    requires Generating(tables, did, now, was) && tbl < NUM_HUFF_TBLS && !did[tbl]
    ensures now[tbl] == was[tbl]
  {
  }

  lemma DoneFits(tables: seq<Option<HuffTable>>, did: seq<bool>, now: seq<seq<nat>>, was: seq<seq<nat>>, tbl: nat)
    requires Generating(tables, did, now, was) && tbl < NUM_HUFF_TBLS && did[tbl]
    ensures FitsLimit(was[tbl])
  {
    hide WithinLimit, LegalFor, MadeFrom;
  }

  lemma IsGeneratedFor(t: Option<HuffTable>, counts: seq<nat>)
    requires |counts| == COUNT_SIZE && t.Some? && Generated(t.value, counts)
    ensures GeneratedFor(t, counts)
  {
  }

  /** One call of jpeg_gen_optimal_table, into a table slot that may still be empty. */
  method GenerateTable(tables: seq<Option<HuffTable>>, tbl: nat, counts: array<nat>)
    returns (ok: bool, r: seq<Option<HuffTable>>)
    requires TableSlots(tables) && tbl < NUM_HUFF_TBLS && Countable(counts[..])
    modifies counts
    ensures TableSlots(r) && forall t :: 0 <= t < NUM_HUFF_TBLS && t != tbl ==> r[t] == tables[t]
    ensures ok ==> |old(counts[..])| == COUNT_SIZE && r[tbl].Some? && Generated(r[tbl].value, old(counts[..]))
    ensures ok <==> FitsLimit(old(counts[..]))
  {
    hide Countable, OptimalLengths, MadeFrom, LegalFor, Sum, WithinLimit, CodeLengths;
    assert counts.Length == COUNT_SIZE by { CountableSize(counts[..]); }
    var previous := match tables[tbl] case Some(t) => t.huffval case None => seq(256, _ => 0);
    assert |previous| == 256;
    r := tables;
    ghost var f := counts[..];
    var t := GenOptimalTable(counts, previous);
    ok := t.Some?;
    if ok {
      assert t.value.WellFormed() by { LegalIsWellFormed(t.value, f); }
      r := r[tbl := t];
    }
  }

  lemma CountableSize(f: seq<nat>)
    requires Countable(f)
    ensures |f| == COUNT_SIZE
  {
  }

  lemma LegalIsWellFormed(t: HuffTable, f: seq<nat>)
    requires |f| == NUM_SYMBOLS && LegalFor(t, f)
    ensures t.WellFormed()
  {
  }

  /** MEMZERO of a count table. */
  method Clear(a: array<nat>)
    requires a.Length == COUNT_SIZE
    modifies a
    ensures a[..] == ZeroCounts()
  {
    for i := 0 to COUNT_SIZE
      invariant forall k :: 0 <= k < i ==> a[k] == 0
    {
      a[i] := 0;
    }
  }

  lemma OtherSlotAbsent(tokens: seq<Token>, dcTbl: nat, acTbl: nat, dc: bool, t: nat)
    requires OnlySlots(tokens, dcTbl, acTbl) && t != if dc then dcTbl else acTbl
    ensures Absent(dc, t, tokens)
  {
  }
}
