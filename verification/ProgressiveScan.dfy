/**
 Whole progressive AC scans, with given tables or with tables made from their own
 statistics; and refinement scans on top of each other.
 */
module ProgressiveScan {
  import opened BitString
  import opened ByteStream
  import opened HuffmanCode
  import opened MergeProcedure
  import opened OptimalTable
  import opened Tokens
  import opened SequentialCode
  import opened SequentialScan
  import opened BitWriter
  import opened BlockEncoder
  import opened BlockStatistics
  import opened SymbolStatistics
  import opened SequentialEncoder
  import opened StatisticsPass
  import opened ProgressiveBand
  import opened ProgressiveRun
  import opened ProgressiveBlock
  import opened ProgressiveEmitter
  import opened ProgressiveEncoder

  function BandsOf(p: Params, blocks: seq<Coefs>): (bands: Bands)
    ensures |bands| == |blocks|
  {
    seq(|blocks|, i requires 0 <= i < |blocks| => BandOf(p, blocks[i]))
  }

  /** Every coefficient to the precision of a scan. */
  function PreciseAll(p: Params, blocks: seq<Coefs>, al: nat): (v: seq<seq<int>>)
    ensures |v| == |blocks|
  {
    seq(|blocks|, i requires 0 <= i < |blocks| => Precise(p, blocks[i], al))
  }

  // ----- a run of blocks

  lemma BandsOfRest(p: Params, blocks: seq<Coefs>, i: nat)
    requires i < |blocks|
    ensures BandsOf(p, blocks[i..]) != [] && BandsOf(p, blocks[i..])[0] == BandOf(p, blocks[i])
    ensures BandsOf(p, blocks[i..])[1..] == BandsOf(p, blocks[i + 1..])
  {
    assert blocks[i..][1..] == blocks[i + 1..];
  }

  lemma SplitOne(scan: AcScan, pos: AcPos, bands: Bands, done: seq<Token>, all: seq<Token>)
    requires bands != [] && done + AcRunTokens(scan, pos, bands) == all
    ensures var step, more := AcStepTokens(scan, pos, bands[0]),
              AcRunTokens(scan, AcStepPos(scan, pos, bands[0]), bands[1..]);
            done + step + more == all == done + (step + more)
  {
    hide AcStepTokens, AcStepPos;
    Assoc(done, AcStepTokens(scan, pos, bands[0]), AcRunTokens(scan, AcStepPos(scan, pos, bands[0]), bands[1..]));
  }

  /** Every block of a run. */
  method EncodeAcRun(enc: AcEncoder, blocks: seq<Coefs>) returns (result: Outcome)
    requires enc.Valid()
    modifies enc, enc.status, enc.status.bitBuffer, enc.counts, enc.dest, enc.dest.buffer
    ensures enc.dest.buffer == old(enc.dest.buffer) || fresh(enc.dest.buffer)
    ensures enc.ts == old(enc.ts) && enc.table == old(enc.table)
    ensures var tokens := AcRunTokens(enc.p.scan, old(enc.Position()), BandsOf(enc.p, blocks));
            && (result.Done? ==>
                  && enc.Valid() && enc.Kept(old(enc.gather), old(enc.ts), old(enc.table), old(enc.s0), old(enc.base))
                  && enc.sent + EobTokens(enc.p.scan.tbl, enc.Position().eobrun, enc.Position().be)
                      == old(enc.sent) + tokens
                  && BandsInRange(enc.p.scan, BandsOf(enc.p, blocks)))
            && (result == Error(BadCoefficient) ==> !BandsInRange(enc.p.scan, BandsOf(enc.p, blocks)))
            && (result == Error(MissingCode) ==> !old(enc.ts).Covers(tokens))
    ensures result == Error(BadCoefficient) || CannotSuspend(result, old(enc.gather))
    ensures result == Error(CantSuspend) ==> EndsRefused(old(enc.dest.log), enc.dest.log)
    ensures result.Done? ==> old(enc.dest.log) <= enc.dest.log
  {
    hide AcStepTokens, AcStepPos, BandOf, NewInRange, Knows, ShortCodes, Holds, EobTokens, AcEncoder.Progress;
    ghost var scan, bands, ts := enc.p.scan, BandsOf(enc.p, blocks), enc.ts;
    ghost var all, done: seq<Token>, before := AcRunTokens(scan, enc.Position(), bands), [], enc.sent;
    assert blocks[0..] == blocks;
    assert done + all == all && before + done == before;
    var i := 0;
    while i < |blocks|
      invariant i <= |blocks| && enc.Valid()
                  && enc.Kept(old(enc.gather), ts, old(enc.table), old(enc.s0), old(enc.base))
      invariant enc.dest.buffer == old(enc.dest.buffer) || fresh(enc.dest.buffer)
      invariant old(enc.dest.log) <= enc.dest.log
      invariant enc.sent == before + done
      invariant done + AcRunTokens(scan, enc.Position(), BandsOf(enc.p, blocks[i..])) == all
      invariant forall j :: 0 <= j < i ==> NewInRange(bands[j], scan.refining)
    {
      ghost var pos := enc.Position();
      ghost var step := AcStepTokens(scan, pos, BandOf(enc.p, blocks[i]));
      BandsOfRest(enc.p, blocks, i);
      assert bands[i] == BandOf(enc.p, blocks[i]);
      SplitOne(scan, pos, BandsOf(enc.p, blocks[i..]), done, all);
      result := enc.EncodeMcu(blocks[i]);
      if !result.Done? {
        if result == Error(MissingCode) {
          NotCoveredByPart(ts, done, step);
          NotCoveredByPart(ts, done + step,
              AcRunTokens(scan, AcStepPos(scan, pos, BandOf(enc.p, blocks[i])), BandsOf(enc.p, blocks[i + 1..])));
        }
        return;
      }
      Assoc(before, done, step);
      done := done + step;
      i := i + 1;
    }
    Assoc(before, done, EobTokens(scan.tbl, enc.Position().eobrun, enc.Position().be));
    result := Done;
  }

  /** The bytes of a finished scan, appended to the stream. */
  lemma FlushedScan(ts: Coder, before: seq<byte>, tokens: seq<Token>)
    requires ts.Covers(tokens) && WellNumbered(Items(ts, tokens))
    ensures Flush(PutAll(Sink(before, []), Items(ts, tokens))).bytes == before + ScanBytes(Items(ts, tokens))
  {
    hide PutAll;
    PutAllAppends(Sink(before, []), Items(ts, tokens));
    PutItemAppends(before, PutAll(EMPTY, Items(ts, tokens)), Data([]));
  }

  /**
   A progressive AC scan, first or refinement. When it is done, every new coefficient
   was in range and had a code, and from the bytes added a decoder that knows the
   coefficients to the precision before the scan gets them to the precision after it.
   It fails only for an unusable table, a coefficient out of range, a symbol without a code,
   or a refused buffer.
   */
  method EncodeAcScan(enc: AcEncoder, acTables: seq<Option<HuffTable>>, blocks: seq<Coefs>) returns (result: Outcome)
    requires enc.Separate() && enc.dest.Valid() && TableSlots(acTables)
    modifies enc, enc.status, enc.status.bitBuffer, enc.counts, enc.dest, enc.dest.buffer
    ensures result == Error(BadTable) <==> !Usable(acTables[enc.p.scan.tbl], false)
    ensures result != Error(BadTable) ==>
              Knows(enc.table, enc.ts, false, enc.p.scan.tbl) && acTables[enc.p.scan.tbl] == Some(enc.table)
    ensures var tokens, bands := AcRunTokens(enc.p.scan, AcStartPos(enc.p.scan), BandsOf(enc.p, blocks)),
              BandsOf(enc.p, blocks);
            && (result == Error(BadCoefficient) ==> !BandsInRange(enc.p.scan, bands))
            && (result == Error(MissingCode) ==> !enc.ts.Covers(tokens))
            && (result.Done? ==>
                  && BandsInRange(enc.p.scan, bands) && enc.ts.Covers(tokens) && enc.dest.Valid()
                  && WellNumbered(Items(enc.ts, tokens))
                  && enc.dest.Stream() == old(enc.dest.Stream()) + ScanBytes(Items(enc.ts, tokens))
                  && DecodeAcScan(enc.table, enc.p.scan, BeforeScan(bands), ScanBytes(Items(enc.ts, tokens)))
                      == Some(AfterScan(bands)))
    ensures !result.Suspended? && result != Error(CodeOverflow)
    ensures result == Error(CantSuspend) ==> EndsRefused(old(enc.dest.log), enc.dest.log)
  {
    hide Knows, ShortCodes, Holds, AcEncoder.Progress, AcRunTokens, BandsOf, BandsInRange, ScanBytes, DecodeAcScan,
      Flush;
    ghost var before, bands := enc.dest.Stream(), BandsOf(enc.p, blocks);
    var ok := enc.StartPass(false, acTables);
    if !ok {
      return Error(BadTable);
    }
    ghost var tokens := AcRunTokens(enc.p.scan, AcStartPos(enc.p.scan), bands);
    result := EncodeAcRun(enc, blocks);
    assert [] + tokens == tokens;
    if result.Done? {
      ghost var eob := EobTokens(enc.p.scan.tbl, enc.Position().eobrun, enc.Position().be);
      ghost var sent := enc.sent;
      assert sent + eob == tokens;
      result := enc.FinishPass();
      if result.Done? {
        FlushedScan(enc.ts, before, tokens);
        AcScanRoundTrip(enc.table, enc.ts, enc.p.scan, bands);
      } else if result == Error(MissingCode) {
        NotCoveredByPart(enc.ts, sent, eob);
      }
    }
  }

  // ----- what a run can contain

  /** The scan's table, for the statistics. */
  function TableOf(p: Params): Scan {
    ScanHeader(p.order, [], [p.scan.tbl], [p.scan.tbl], 0)
  }

  /** A symbol that the scan can send. */
  predicate PossibleAc(p: Params, t: Token) {
    t.Symbol? ==> !t.dc && t.tbl == p.scan.tbl && t.sym % 16 <= MAX_COEF_BITS + 1
  }

  predicate AllAc(p: Params, tokens: seq<Token>) {
    forall i :: 0 <= i < |tokens| ==> PossibleAc(p, tokens[i])
  }

  lemma AcConcat(p: Params, a: seq<Token>, b: seq<Token>)
    requires AllAc(p, a) && AllAc(p, b)
    ensures AllAc(p, a + b)
  {
    hide PossibleAc;
  }

  lemma AcIsPossible(p: Params, tokens: seq<Token>)
    requires AllAc(p, tokens)
    ensures AllPossible(TableOf(p), tokens)
  {
    forall i | 0 <= i < |tokens| ensures Possible(TableOf(p), tokens[i]) {
      assert PossibleAc(p, tokens[i]);
      assert TableOf(p).acTbl[0] == p.scan.tbl && 0 < TableOf(p).Comps();
    }
  }

  lemma SymbolIsPossible(p: Params, sym: byte)
    requires sym % 16 <= MAX_COEF_BITS + 1
    ensures PossibleAc(p, Symbol(false, p.scan.tbl, sym))
  {
  }

  lemma EobIsPossible(p: Params, e: nat, c: Bits)
    ensures AllAc(p, EobTokens(p.scan.tbl, e, c))
  {
    if e > 0 {
      SymbolIsPossible(p, EobSymbol(e));
    }
    hide PossibleAc, EobSymbol;
  }

  lemma {:induction false} ZrlsArePossible(p: Params, r: nat, br: Bits)
    ensures AllAc(p, Zrls(p.scan.tbl, r, br))
  {
    if r > 15 {
      SymbolIsPossible(p, 0xF0);
      hide PossibleAc;
      ZrlsArePossible(p, r - 16, []);
      assert Zrls(p.scan.tbl, r, br) == [Symbol(false, p.scan.tbl, 0xF0), Extra(br)] + Zrls(p.scan.tbl, r - 16, []);
      assert PossibleAc(p, Extra(br)) by { ExtraIsPossible(p, br); }
    }
  }

  lemma ExtraIsPossible(p: Params, b: Bits)
    ensures PossibleAc(p, Extra(b))
  {
  }

  lemma NewIsPossible(p: Params, r: nat, v: int, br: Bits)
    requires NumBits(Abs(v)) <= MAX_COEF_BITS
    ensures AllAc(p, NewTokens(p.scan.tbl, r, v, br))
  {
    hide NumBits, MagnitudeBits;
    DivModUnique(AcSymbol(r, v), 16, r % 16, NumBits(Abs(v)));
    SymbolIsPossible(p, AcSymbol(r, v));
    ExtraIsPossible(p, MagnitudeBits(v));
    ExtraIsPossible(p, br);
    hide PossibleAc, AcSymbol;
  }

  lemma {:induction false} BandIsPossible(p: Params, b: Band, k: nat, r: nat, br: Bits)
    requires k <= b.Len() && NewInRange(b, p.scan.refining)
    ensures AllAc(p, CodeBand(b, p.scan.tbl, k, r, br).syms)
    decreases b.Len() - k
  {
    hide NewAhead, CorrectionBit, Zrls, NewTokens, AllAc, NumBits, PossibleAc;
    if k == b.Len() {
      NothingIsPossible(p);
    } else if b.now[k] == 0 {
      BandIsPossible(p, b, k + 1, r + 1, br);
    } else if !NewAhead(b, k) {
      BandIsPossible(p, b, k + 1, r, br + [CorrectionBit(b.now[k])]);
    } else {
      CoefIsPossible(p, b, k, r, br);
    }
  }

  lemma CoefIsPossible(p: Params, b: Band, k: nat, r: nat, br: Bits)
    requires k < b.Len() && b.now[k] != 0 && NewAhead(b, k) && NewInRange(b, p.scan.refining)
    ensures AllAc(p, CodeBand(b, p.scan.tbl, k, r, br).syms)
    decreases b.Len() - k, 0
  {
    hide NewAhead, CorrectionBit, Zrls, NewTokens, AllAc, NumBits, PossibleAc;
    var zrls, br' := Zrls(p.scan.tbl, r, br), if r > 15 then [] else br;
    ZrlsArePossible(p, r, br);
    if b.was[k] != 0 {
      var next := CodeBand(b, p.scan.tbl, k + 1, r % 16, br' + [CorrectionBit(b.now[k])]);
      BandIsPossible(p, b, k + 1, r % 16, br' + [CorrectionBit(b.now[k])]);
      AcConcat(p, zrls, next.syms);
    } else {
      var sym, next := NewTokens(p.scan.tbl, r, b.now[k], br'), CodeBand(b, p.scan.tbl, k + 1, 0, []);
      assert IsNew(b, k);
      NewIsPossible(p, r, b.now[k], br');
      BandIsPossible(p, b, k + 1, 0, []);
      AcConcat(p, zrls, sym);
      AcConcat(p, zrls + sym, next.syms);
    }
  }

  lemma NothingIsPossible(p: Params)
    ensures AllAc(p, [])
  {
  }

  lemma MarkIsPossible(p: Params, n: nat)
    ensures AllAc(p, [Mark(n)])
  {
  }

  lemma StepIsPossible(p: Params, pos: AcPos, b: Band)
    requires NewInRange(b, p.scan.refining)
    ensures AllAc(p, AcStepTokens(p.scan, pos, b))
  {
    var start, code := AcStart(p.scan, pos), BlockCode(b, p.scan.tbl);
    BandIsPossible(p, b, 0, 0, []);
    var eob, eob' := EobTokens(p.scan.tbl, pos.eobrun, pos.be), EobTokens(p.scan.tbl, start.eobrun, start.be);
    var last := EobTokens(p.scan.tbl, Pending(start, code).0, Pending(start, code).1);
    EobIsPossible(p, pos.eobrun, pos.be);
    EobIsPossible(p, start.eobrun, start.be);
    EobIsPossible(p, Pending(start, code).0, Pending(start, code).1);
    MarkIsPossible(p, pos.nextNum);
    NothingIsPossible(p);
    hide AllAc, EobTokens, Pending, CodeBand, Forced;
    AcConcat(p, eob, [Mark(pos.nextNum)]);
    AcConcat(p, eob', code.syms);
    AcConcat(p, ProgressiveRun.Released(p.scan, start, code), if Forced(start, code) then last else []);
    AcConcat(p, AcLead(p.scan, pos), BlockSends(p.scan, start, code));
  }

  lemma {:induction false} AcRunIsPossible(p: Params, pos: AcPos, bands: Bands)
    requires BandsInRange(p.scan, bands)
    ensures AllAc(p, AcRunTokens(p.scan, pos, bands))
    decreases |bands|
  {
    hide AllAc, AcStepTokens, AcStepPos, NewInRange;
    if bands == [] {
      EobIsPossible(p, pos.eobrun, pos.be);
    } else {
      StepIsPossible(p, pos, bands[0]);
      AcRunIsPossible(p, AcStepPos(p.scan, pos, bands[0]), bands[1..]);
      AcConcat(p, AcStepTokens(p.scan, pos, bands[0]),
                     AcRunTokens(p.scan, AcStepPos(p.scan, pos, bands[0]), bands[1..]));
    }
  }

  lemma {:induction false} BandStartsWithSymbol(b: Band, tbl: nat, k: nat, r: nat, br: Bits)
    requires k <= b.Len() && CodeBand(b, tbl, k, r, br).syms != []
    ensures Uses(CodeBand(b, tbl, k, r, br).syms, false, tbl)
    decreases b.Len() - k
  {
    hide NewAhead, CorrectionBit, AcSymbol, Uses;
    if b.now[k] == 0 {
      BandStartsWithSymbol(b, tbl, k + 1, r + 1, br);
    } else if !NewAhead(b, k) {
      BandStartsWithSymbol(b, tbl, k + 1, r, br + [CorrectionBit(b.now[k])]);
    } else if r > 15 || b.was[k] == 0 {
      var syms := CodeBand(b, tbl, k, r, br).syms;
      FirstIsUsed(syms, syms[0].sym, tbl);
    } else {
      assert Zrls(tbl, r, br) == [];
      BandStartsWithSymbol(b, tbl, k + 1, r % 16, br + [CorrectionBit(b.now[k])]);
      var rest := CodeBand(b, tbl, k + 1, r % 16, br + [CorrectionBit(b.now[k])]).syms;
      assert [] + rest == rest;
    }
  }

  lemma EobIsUsed(tbl: nat, e: nat, c: Bits)
    requires e > 0
    ensures Uses(EobTokens(tbl, e, c), false, tbl)
  {
    hide EobSymbol;
    FirstIsUsed(EobTokens(tbl, e, c), EobSymbol(e), tbl);
  }

  /** A pending run, or any block at all, makes the scan use its table. */
  lemma {:induction false} AcRunUses(scan: AcScan, pos: AcPos, bands: Bands)
    requires pos.eobrun > 0 || bands != []
    ensures Uses(AcRunTokens(scan, pos, bands), false, scan.tbl)
    decreases |bands|
  {
    if bands == [] {
      EobIsUsed(scan.tbl, pos.eobrun, pos.be);
    } else {
      var next := AcStepPos(scan, pos, bands[0]);
      StepUses(scan, pos, bands[0]);
      hide AcStepTokens, AcStepPos, Uses;
      if next.eobrun > 0 {
        AcRunUses(scan, next, bands[1..]);
      }
      UsesPart(AcStepTokens(scan, pos, bands[0]), AcRunTokens(scan, next, bands[1..]), false, scan.tbl);
    }
  }

  lemma StepUses(scan: AcScan, pos: AcPos, b: Band)
    requires b.Len() > 0
    ensures AcStepPos(scan, pos, b).eobrun > 0 || Uses(AcStepTokens(scan, pos, b), false, scan.tbl)
  {
    var start, code := AcStart(scan, pos), BlockCode(b, scan.tbl);
    BlockCodeShape(b, scan.tbl);
    var eob := EobTokens(scan.tbl, start.eobrun, start.be);
    var (e, c) := Pending(start, code);
    var last := if Forced(start, code) then EobTokens(scan.tbl, e, c) else [];
    if code.syms != [] {
      BandStartsWithSymbol(b, scan.tbl, 0, 0, []);
      hide CodeBand, EobTokens, Uses, Forced, Pending;
      UsesPart(eob, code.syms, false, scan.tbl);
      UsesPart(eob + code.syms, last, false, scan.tbl);
      UsesPart(AcLead(scan, pos), BlockSends(scan, start, code), false, scan.tbl);
    } else if Forced(start, code) {
      EobIsUsed(scan.tbl, e, c);
      hide CodeBand, EobTokens, Uses;
      UsesPart(ProgressiveRun.Released(scan, start, code), last, false, scan.tbl);
      UsesPart(AcLead(scan, pos), BlockSends(scan, start, code), false, scan.tbl);
    }
  }

  // ----- optimised coding

  /** The statistics pass over at least one block. Its emitting routines leave the destination alone. */
  method GatherAcTable(p: Params, blocks: seq<Coefs>, acTables: seq<Option<HuffTable>>)
    returns (result: Outcome, newAc: seq<Option<HuffTable>>)
    requires TableSlots(acTables) && blocks != []
    requires |AcRunTokens(p.scan, AcStartPos(p.scan), BandsOf(p, blocks))| < SENTINEL
    ensures TableSlots(newAc)
    ensures var tokens, bands := AcRunTokens(p.scan, AcStartPos(p.scan), BandsOf(p, blocks)), BandsOf(p, blocks);
            && (result.Done? || result == Error(BadCoefficient) || result == Error(CodeOverflow))
            && (result.Done? ==> GeneratedFor(newAc[p.scan.tbl], TableCounts(tokens, false, p.scan.tbl)))
            && (result == Error(BadCoefficient) <==> !BandsInRange(p.scan, bands))
            && (result == Error(CodeOverflow) <==>
                BandsInRange(p.scan, bands) && !FitsLimit(TableCounts(tokens, false, p.scan.tbl)))
            && (result == Error(CodeOverflow) ==> |tokens| + 1 >= OVERFLOW_TOTAL)
  {
    hide Knows, ShortCodes, Holds, AcEncoder.Progress, AcRunTokens, BandsOf, BandsInRange, Counted, GeneratedFor, Uses,
      AllPossible, AllAc, EobTokens, FitsLimit, TableCounts;
    newAc := acTables;
    ghost var tokens, bands := AcRunTokens(p.scan, AcStartPos(p.scan), BandsOf(p, blocks)), BandsOf(p, blocks);
    var unused := new Destination(1, []);
    var enc := new AcEncoder(p, unused);
    var ok := enc.StartPass(true, acTables);
    result := EncodeAcRun(enc, blocks);
    if result.Done? {
      assert [] + tokens == tokens;
      AcRunIsPossible(p, AcStartPos(p.scan), bands);
      AcIsPossible(p, tokens);
      AcRunUses(p.scan, AcStartPos(p.scan), bands);
      ok, newAc := enc.FinishGathering(acTables, TableOf(p));
      result := if ok then Done else Error(CodeOverflow);
    }
  }

  /**
   Optimised coding of a scan of at least one block: the only failures left are a coefficient out
   of the range of a first scan, exactly for runs whose statistics need a code over 32 bits long,
   of which there are none of fewer than 9227464 tokens, and a destination that refuses a buffer. The
   new table is the one that the generator makes of the counts, and the one that is coded with.
   */
  method EncodeAcOptimized(enc: AcEncoder, acTables: seq<Option<HuffTable>>, blocks: seq<Coefs>)
    returns (result: Outcome, newAc: seq<Option<HuffTable>>)
    requires enc.Separate() && enc.dest.Valid() && TableSlots(acTables) && blocks != []
    requires |AcRunTokens(enc.p.scan, AcStartPos(enc.p.scan), BandsOf(enc.p, blocks))| < SENTINEL
    modifies enc, enc.status, enc.status.bitBuffer, enc.counts, enc.dest, enc.dest.buffer
    ensures result == Error(BadCoefficient) <==> !BandsInRange(enc.p.scan, BandsOf(enc.p, blocks))
    ensures result == Error(CodeOverflow) <==>
              && BandsInRange(enc.p.scan, BandsOf(enc.p, blocks))
              && !FitsLimit(TableCounts(AcRunTokens(enc.p.scan, AcStartPos(enc.p.scan), BandsOf(enc.p, blocks)), false,
                                        enc.p.scan.tbl))
    ensures result == Error(CodeOverflow) ==>
              |AcRunTokens(enc.p.scan, AcStartPos(enc.p.scan), BandsOf(enc.p, blocks))| + 1 >= OVERFLOW_TOTAL
    ensures result != Error(MissingCode) && result != Error(BadTable) && !result.Suspended? && TableSlots(newAc)
    ensures result != Error(BadCoefficient) && result != Error(CodeOverflow) ==>
              var tbl := enc.p.scan.tbl;
              var tokens := AcRunTokens(enc.p.scan, AcStartPos(enc.p.scan), BandsOf(enc.p, blocks));
              && GeneratedFor(newAc[tbl], TableCounts(tokens, false, tbl))
              && newAc[tbl] == Some(enc.table) && Knows(enc.table, enc.ts, false, tbl)
    ensures result == Error(CantSuspend) ==> EndsRefused(old(enc.dest.log), enc.dest.log)
    ensures var tokens, bands := AcRunTokens(enc.p.scan, AcStartPos(enc.p.scan), BandsOf(enc.p, blocks)),
              BandsOf(enc.p, blocks);
            result.Done? ==>
              && enc.ts.Covers(tokens) && WellNumbered(Items(enc.ts, tokens)) && enc.dest.Valid()
              && enc.dest.Stream() == old(enc.dest.Stream()) + ScanBytes(Items(enc.ts, tokens))
              && DecodeAcScan(enc.table, enc.p.scan, BeforeScan(bands), ScanBytes(Items(enc.ts, tokens)))
                  == Some(AfterScan(bands))
  {
    hide Knows, AcRunTokens, BandsOf, BandsInRange, GeneratedFor, ScanBytes, DecodeAcScan, AllAc, Usable,
      FitsLimit, TableCounts;
    ghost var bands := BandsOf(enc.p, blocks);
    ghost var tokens := AcRunTokens(enc.p.scan, AcStartPos(enc.p.scan), bands);
    result, newAc := GatherAcTable(enc.p, blocks, acTables);
    if !result.Done? {
      return;
    }
    AcRunIsPossible(enc.p, AcStartPos(enc.p.scan), bands);
    GeneratedIsUsable(newAc[enc.p.scan.tbl], TableCounts(tokens, false, enc.p.scan.tbl));
    result := EncodeAcScan(enc, newAc, blocks);
    GeneratedCoversRun(enc.p, newAc[enc.p.scan.tbl], tokens, enc.table, enc.ts);
  }

  lemma GeneratedIsUsable(t: Option<HuffTable>, f: seq<nat>)
    requires GeneratedFor(t, f)
    ensures t.Some? && t.value.WellFormed() && Usable(t, false)
  {
    hide SymbolsFit, WithinLimit, MadeFrom;
    GeneratedTableIsAccepted(t.value, f, 255);
  }

  /** The table made from a run's statistics has a code for everything the run sends. */
  lemma GeneratedCoversRun(p: Params, t: Option<HuffTable>, tokens: seq<Token>, table: LegalTable, ts: Coder)
    requires GeneratedFor(t, TableCounts(tokens, false, p.scan.tbl)) && t == Some(table)
    requires AllAc(p, tokens) && Knows(table, ts, false, p.scan.tbl)
    ensures ts.Covers(tokens)
  {
    hide Derives, Occurrences, WithinLimit, MadeFrom;
    var f := TableCounts(tokens, false, p.scan.tbl);
    forall i | 0 <= i < |tokens| && tokens[i].Symbol?
      ensures tokens[i].tbl < NUM_HUFF_TBLS && ts.At(tokens[i].dc, tokens[i].tbl).Codes(tokens[i].sym)
    {
      var k := tokens[i];
      assert PossibleAc(p, k) && k == Symbol(false, p.scan.tbl, k.sym);
      OccursIffCounted(tokens, false, p.scan.tbl, k.sym);
      assert f[k.sym] > 0;
      GeneratedTableCodesTheCounted(table, f, ts.At(false, p.scan.tbl), k.sym);
    }
  }
}
