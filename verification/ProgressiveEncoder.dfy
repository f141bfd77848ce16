/**
 The AC modes of the progressive encoder of jcphuff.c, one MCU (which is one block)
 at a time, for output and for statistics alike.
 */
module ProgressiveEncoder {
  import opened BitString
  import opened ByteStream
  import opened HuffmanCode
  import opened Tokens
  import opened SequentialCode
  import opened SequentialScan
  import opened BitWriter
  import opened BlockEncoder
  import opened BlockStatistics
  import opened SequentialEncoder
  import opened ProgressiveBand
  import opened ProgressiveRun
  import opened ProgressiveBlock
  import opened ProgressiveEmitter
  import opened AcCoder
  import opened StatisticsPass
  import opened SymbolStatistics
  import opened MergeProcedure
  import opened OptimalTable
  import opened Sums

  /** The committed output is that of these tokens, sent since s0. */
  ghost predicate OutputIs(ts: Coder, stream: seq<byte>, pending: Bits, s0: Sink, sent: seq<Token>) {
    && ts.Covers(sent) && WellNumbered(Items(ts, sent))
    && Sink(stream, pending) == PutAll(s0, Items(ts, sent))
  }

  class AcEncoder {
    const p: Params
    const dest: Destination
    const counts: array<nat>
    const status: AcStatus
    var gather: bool
    var ts: Coder
    ghost var table: LegalTable            // the table the scan's code was derived from
    var putBuffer: nat
    var putBits: nat
    var restartsToGo: nat
    var nextRestartNum: nat
    ghost var pending: Bits
    ghost var s0: Sink                     // the output and the counts when the pass began
    ghost var base: seq<nat>
    ghost var sent: seq<Token>             // everything sent, or counted, since

    ghost predicate Separate()
      reads dest`buffer
    {
      && counts.Length == COUNT_SIZE && status.bitBuffer.Length == MAX_CORR_BITS && status.tbl == p.scan.tbl
      && counts != status.bitBuffer && counts as object != dest.buffer && status.bitBuffer as object != dest.buffer
    }

    /** What has been sent or counted. */
    ghost predicate Progress()
      requires dest.Valid()
      reads this, dest, dest.buffer, counts
    {
      if gather then Counted(counts[..], base, false, p.scan.tbl, sent)
      else OutputIs(ts, dest.Stream(), pending, s0, sent)
    }

    ghost predicate Valid()
      reads this, dest, dest.buffer, counts, status
    {
      && Separate() && dest.Valid() && ShortCodes(ts) && status.InBounds()
      && Holds(putBuffer, putBits, pending) && |pending| <= 7 && nextRestartNum < 8
      && (!gather ==> Knows(table, ts, false, p.scan.tbl))
      && Progress()
    }

    ghost function Position(): AcPos
      requires status.be <= status.bitBuffer.Length
      reads this, status, status.bitBuffer
    {
      AcPos(status.eobrun, status.Buffered(), restartsToGo, nextRestartNum)
    }

    constructor (p: Params, dest: Destination)
      ensures this.p == p && this.dest == dest && fresh(counts) && fresh(status) && fresh(status.bitBuffer)
      ensures Separate()
    {
      this.p, this.dest := p, dest;
      counts := new nat[COUNT_SIZE];
      status := new AcStatus(p.scan.tbl);
      gather := false;
      ts := Tables(seq(NUM_HUFF_TBLS, _ => NO_TABLE), seq(NUM_HUFF_TBLS, _ => NO_TABLE));
      table := EmptyTable();
      putBuffer, putBits, restartsToGo, nextRestartNum := 0, 0, 0, 0;
      pending, s0, base, sent := [], EMPTY, [], [];
    }

    /** Load the local copies of the output position. */
    method Load() returns (e: Emitter)
      requires Valid()
      ensures fresh(e) && fresh(e.w) && e.w.dest == dest && e.counts == counts && e.ts == ts && e.gather == gather
      ensures e.s0 == s0 && e.base == base && e.w.log == dest.log
      ensures status.At(e, Position(), sent) && e.sent == sent && status.InBounds() && nextRestartNum < 8
      ensures status.tbl == p.scan.tbl && Separate() && ShortCodes(ts)
                && (!gather ==> Knows(table, ts, false, p.scan.tbl))
      ensures Position().toGo == restartsToGo && Position().nextNum == nextRestartNum
    {
      hide DecoderKnows, Counted, ShortCodes, Holds;
      var w := new Writer(dest, putBuffer, putBits, pending, []);
      e := new Emitter(gather, w, ts, counts, false, p.scan.tbl, s0, base, sent);
    }

    /** Emit a restart marker if needed: whatever is pending goes out first. */
    method EmitLead(e: Emitter) returns (r: Outcome)
      requires nextRestartNum < 8 && status.InBounds() && status.At(e, Position(), e.sent) && status.tbl == p.scan.tbl
      modifies status, e, e.counts, e.w, e.w.dest, e.w.dest.buffer
      ensures e.w.dest.buffer == old(e.w.dest.buffer) || fresh(e.w.dest.buffer)
      ensures r.Done? ==> status.At(e, AcStart(p.scan, old(Position())), old(e.sent) + AcLead(p.scan, old(Position())))
      ensures r == Error(MissingCode) ==> !e.ts.Covers(AcLead(p.scan, old(Position())))
      ensures CannotSuspend(r, e.gather) && (r == Error(CantSuspend) ==> e.w.Refused())
    {
      hide Emitter.Ok, EobTokens, Writer.Refused;
      r := Done;
      if p.scan.restartInterval != 0 && restartsToGo == 0 {
        ghost var eob, mark := EobTokens(p.scan.tbl, status.eobrun, status.Buffered()), [Mark(nextRestartNum)];
        r := status.EmitEobrun(e);
        if !r.Done? {
          if r == Error(MissingCode) {
            NotCoveredByPart(e.ts, eob, mark);
          }
          return;
        }
        r := e.EmitRestart(nextRestartNum);
        if !r.Done? {
          return;
        }
        Assoc(old(e.sent), eob, mark);
        status.eobrun, status.be := 0, 0;
      } else {
        assert e.sent + [] == e.sent;
      }
    }

    /** Store the output position back. */
    method Store(e: Emitter)
      requires e.Ok() && e.w.dest == dest && e.gather == gather && e.ts == ts && e.counts == counts
      requires e.s0 == s0 && e.base == base && !e.isDC && e.tbl == p.scan.tbl
      modifies `putBuffer, `putBits, `pending, `sent, dest`next, dest`free
      ensures dest.Valid() && dest.buffer == old(dest.buffer) && Holds(putBuffer, putBits, pending) && |pending| <= 7
      ensures sent == e.sent && Progress()
    {
      hide Counted, ShortCodes, Holds;
      dest.next, dest.free := e.w.next, e.w.free;
      putBuffer, putBits, pending := e.w.putBuffer, e.w.putBits, e.w.pending;
      sent := e.sent;
    }

    /** Update restart-interval state too. */
    method CountRestart()
      requires nextRestartNum < 8
      modifies `restartsToGo, `nextRestartNum
      ensures restartsToGo == AcNextToGo(p.scan, old(restartsToGo)) && nextRestartNum < 8
      ensures nextRestartNum ==
                if AcRestartDue(p.scan, old(restartsToGo)) then (old(nextRestartNum) + 1) % 8 else old(nextRestartNum)
    {
      if p.scan.restartInterval != 0 {
        if restartsToGo == 0 {
          restartsToGo := p.scan.restartInterval;
          nextRestartNum := (nextRestartNum + 1) % 8;
        }
        restartsToGo := restartsToGo - 1;
      }
    }

    /** Restart marker and block, on the local copies. */
    method WriteMcu(e: Emitter, block: Coefs) returns (result: Outcome)
      requires nextRestartNum < 8 && status.InBounds() && status.At(e, Position(), e.sent) && status.tbl == p.scan.tbl
      modifies status, e, e.counts, e.w, e.w.dest, e.w.dest.buffer, status.bitBuffer
      ensures e.w.dest.buffer == old(e.w.dest.buffer) || fresh(e.w.dest.buffer)
      ensures var b, pos := BandOf(p, block), old(Position());
              && (result.Done? ==> status.At(e, AcStepPos(p.scan, pos, b), old(e.sent) + AcStepTokens(p.scan, pos, b)))
              && (result.Done? ==> NewInRange(b, p.scan.refining))
              && (result == Error(BadCoefficient) ==> !NewInRange(b, p.scan.refining))
              && (result == Error(MissingCode) ==> !e.ts.Covers(AcStepTokens(p.scan, pos, b)))
      ensures result == Error(BadCoefficient) || CannotSuspend(result, e.gather)
      ensures result == Error(CantSuspend) ==> e.w.Refused()
    {
      ghost var b, pos, sent0 := BandOf(p, block), Position(), e.sent;
      ghost var lead, start := AcLead(p.scan, pos), AcStart(p.scan, pos);
      ghost var sends := BlockSends(p.scan, start, BlockCode(b, p.scan.tbl));
      if p.scan.refining {
        RefinementIsInRange(p, block);
      }
      hide BlockSends, BlockLeaves, BlockCode, BandOf, AcLead, AcStart, NewInRange, AcStatus.At, Writer.Refused;
      result := EmitLead(e);
      if result.Done? {
        if p.scan.refining {
          result := status.RefineBlock(e, p, block, start, sent0 + lead);
        } else {
          result := status.FirstBlock(e, p, block, start, sent0 + lead);
        }
        if result == Error(MissingCode) {
          NotCoveredByPart(e.ts, lead, sends);
        }
        Assoc(sent0, lead, sends);
      } else if result == Error(MissingCode) {
        NotCoveredByPart(e.ts, lead, sends);
      }
    }

    /** encode_mcu_AC_first and encode_mcu_AC_refine. */
    method EncodeMcu(block: Coefs) returns (result: Outcome)
      requires Valid()
      modifies this, status, status.bitBuffer, counts, dest, dest.buffer
      ensures dest.buffer == old(dest.buffer) || fresh(dest.buffer)
      ensures ts == old(ts) && table == old(table)
      ensures var b, pos := BandOf(p, block), old(Position());
              && (result.Done? ==> Valid() && Kept(old(gather), old(ts), old(table), old(s0), old(base)))
              && (result.Done? ==>
                  Position() == AcStepPos(p.scan, pos, b) && sent == old(sent) + AcStepTokens(p.scan, pos, b))
              && (result.Done? ==> NewInRange(b, p.scan.refining))
              && (result == Error(BadCoefficient) ==> !NewInRange(b, p.scan.refining))
              && (result == Error(MissingCode) ==> !old(ts).Covers(AcStepTokens(p.scan, pos, b)))
      ensures result == Error(BadCoefficient) || CannotSuspend(result, old(gather))
      ensures result == Error(CantSuspend) ==> EndsRefused(old(dest.log), dest.log)
      ensures result.Done? ==> old(dest.log) <= dest.log
    {
      hide *;
      ghost var pos := NoteCall();
      var e := Load();
      result := WriteMcu(e, block);
      RefusedCall(e.w, old(dest.log));
      if result.Done? {
        Complete(e, BandOf(p, block), pos, old(sent));
        SettingsStay();
      }
    }

    /** A call begins. */
    ghost method NoteCall() returns (pos: AcPos)
      requires Valid()
      modifies dest`log
      ensures Valid() && pos == Position() == old(Position()) && dest.log == old(dest.log) + [Called]
    {
      hide Counted, ShortCodes, Holds, Knows, OutputIs;
      dest.log := dest.log + [Called];
      pos := Position();
    }

    /** Completed MCU, so update state. */
    method Complete(e: Emitter, ghost b: Band, ghost pos: AcPos, ghost before: seq<Token>)
      requires nextRestartNum < 8 && status.tbl == p.scan.tbl && ShortCodes(ts)
      requires !gather ==> Knows(table, ts, false, p.scan.tbl)
      requires status.At(e, AcStepPos(p.scan, pos, b), before + AcStepTokens(p.scan, pos, b))
      requires e.w.dest == dest && e.gather == gather && e.ts == ts && e.counts == counts && e.s0 == s0
                 && e.base == base
      requires pos.toGo == restartsToGo && pos.nextNum == nextRestartNum
      modifies `putBuffer, `putBits, `pending, `sent, `restartsToGo, `nextRestartNum, dest`next, dest`free
      ensures Valid() && Position() == AcStepPos(p.scan, pos, b) && sent == before + AcStepTokens(p.scan, pos, b)
      ensures old(e.w.Noted())
    {
      hide AcStepTokens, Counted, ShortCodes, Holds, Knows, OutputIs, Emitter.Ok, Writer.Kept, Writer.Noted,
        AcStatus.At, Separate;
      AfterMcu(e, AcStepPos(p.scan, pos, b), before + AcStepTokens(p.scan, pos, b));
      WriterIsKept(e);
      Store(e);
      CountRestart();
    }

    /** The settings of the pass. */
    ghost predicate Kept(gather: bool, ts: Coder, table: LegalTable, s0: Sink, base: seq<nat>)
      reads this
    {
      this.gather == gather && this.ts == ts && this.table == table && this.s0 == s0 && this.base == base
    }

    lemma WriterIsKept(e: Emitter)
      requires e.Ok()
      ensures e.w.Noted()
    {
    }

    lemma AfterMcu(e: Emitter, pos: AcPos, tokens: seq<Token>)
      requires status.At(e, pos, tokens)
      ensures e.Ok() && status.InBounds() && e.sent == tokens && status.eobrun == pos.eobrun
                && status.Buffered() == pos.be
      ensures !e.isDC && e.tbl == status.tbl
      ensures e.counts == counts && e.w.dest == dest && status.tbl == p.scan.tbl ==> Separate()
    {
    }

    lemma SettingsStay()
      ensures Kept(gather, ts, table, s0, base)
    {
    }

    /** start_pass_phuff: zero the counts, or derive the table; then nothing is pending. */
    method StartPass(gather: bool, acTables: seq<Option<HuffTable>>) returns (ok: bool)
      requires Separate() && dest.Valid() && TableSlots(acTables)
      modifies this, status, counts
      ensures ok <==> gather || Usable(acTables[p.scan.tbl], false)
      ensures ok ==> Valid() && Position() == AcStartPos(p.scan) && sent == [] && pending == []
      ensures ok ==> this.gather == gather && s0 == Sink(dest.Stream(), []) && (gather ==> base == ZeroCounts())
      ensures ok && !gather ==> acTables[p.scan.tbl] == Some(table)
    {
      hide *;
      this.gather := gather;
      ok := true;
      if gather {
        ClearCounts();
      } else {
        ok := DeriveTable(acTables);
        if !ok {
          return;
        }
      }
      Reset();
    }

    method ClearCounts()
      requires Separate()
      modifies counts, `ts
      ensures ShortCodes(ts) && counts[..] == ZeroCounts()
    {
      Clear(counts);
      ts := Tables(seq(NUM_HUFF_TBLS, _ => NO_TABLE), seq(NUM_HUFF_TBLS, _ => NO_TABLE));
      NoCodesAreShort();
    }

    /** Nothing is pending, sent or counted. */
    method Reset()
      requires Separate() && dest.Valid() && ShortCodes(ts) && (!gather ==> Knows(table, ts, false, p.scan.tbl))
      modifies `putBuffer, `putBits, `pending, `restartsToGo, `nextRestartNum, `s0, `base, `sent, status`eobrun,
        status`be
      ensures Valid() && Position() == AcStartPos(p.scan) && sent == [] && pending == []
      ensures s0 == Sink(dest.Stream(), []) && base == counts[..]
    {
      hide Counted, Knows, Holds, ShortCodes, OutputIs;
      status.eobrun, status.be := 0, 0;
      putBuffer, putBits, pending := 0, 0, [];
      HoldsNothing();
      restartsToGo, nextRestartNum := p.scan.restartInterval, 0;
      StartCounting();
    }

    method DeriveTable(acTables: seq<Option<HuffTable>>) returns (ok: bool)
      requires TableSlots(acTables)
      modifies `ts, `table
      ensures ok <==> Usable(acTables[p.scan.tbl], false)
      ensures ok ==> acTables[p.scan.tbl] == Some(table) && Knows(table, ts, false, p.scan.tbl) && ShortCodes(ts)
    {
      var derived := MakeDerivedTable(acTables, false, p.scan.tbl);
      ok := derived.Some?;
      if ok {
        table := acTables[p.scan.tbl].value;
        ts := Tables(seq(NUM_HUFF_TBLS, _ => NO_TABLE), seq(NUM_HUFF_TBLS, _ => NO_TABLE)[p.scan.tbl := derived.value]);
        OneTableIsShort(table, derived.value, ts, p.scan.tbl);
      }
    }

    ghost method StartCounting()
      requires dest.Valid() && counts.Length == COUNT_SIZE && pending == []
      modifies `s0, `base, `sent
      ensures sent == [] && s0 == Sink(dest.Stream(), []) && base == counts[..] && Progress()
    {
      s0, base, sent := Sink(dest.Stream(), []), counts[..], [];
      CountedNothing(counts[..], false, p.scan.tbl);
      NothingSentYet(ts, s0);
    }

    /** Flush the last bits and store the output position back. */
    method FlushAndStore(e: Emitter) returns (result: Outcome)
      requires e.Ok() && !e.gather && e.w.dest == dest && e.ts == ts && e.s0 == s0
      modifies `putBuffer, `putBits, `pending, `sent, e.w, dest, dest.buffer
      ensures result.Done? ==>
                && dest.Valid() && sent == e.sent && ts.Covers(sent) && WellNumbered(Items(ts, sent))
                && dest.Stream() == Flush(PutAll(s0, Items(ts, sent))).bytes
      ensures result.Done? || (result == Error(CantSuspend) && e.w.Refused())
      ensures result.Done? ==> e.w.Noted()
    {
      hide ShortCodes, Holds, Flush, PutAll, WroteAll;
      WroteMeaning(e.w, ts, s0, e.sent);
      result := e.w.FlushBits();
      if !result.Done? {
        return Error(CantSuspend);
      }
      dest.next, dest.free := e.w.next, e.w.free;
      putBuffer, putBits, pending := e.w.putBuffer, e.w.putBits, e.w.pending;
      sent := e.sent;
    }

    /** finish_pass_phuff: send what is pending and flush. */
    method FinishPass() returns (result: Outcome)
      requires Valid() && !gather
      modifies this, status, counts, dest, dest.buffer
      ensures ts == old(ts) && table == old(table)
      ensures var eob := EobTokens(p.scan.tbl, old(Position()).eobrun, old(Position()).be);
              && (result.Done? ==>
                    && dest.Valid() && Kept(false, old(ts), old(table), old(s0), old(base)) && sent == old(sent) + eob
                    && ts.Covers(sent) && WellNumbered(Items(ts, sent))
                    && dest.Stream() == Flush(PutAll(s0, Items(ts, sent))).bytes)
              && (result == Error(MissingCode) ==> !old(ts).Covers(eob))
      ensures CannotSuspend(result, false)
      ensures result == Error(CantSuspend) ==> EndsRefused(old(dest.log), dest.log)
      ensures result.Done? ==> old(dest.log) <= dest.log
    {
      hide Writer.Refused, Writer.Kept, Counted, ShortCodes, Holds, Knows, OutputIs, EobTokens, Flush, PutAll,
        Emitter.Ok;
      dest.log := dest.log + [Called];
      var e := Load();
      result := status.EmitEobrun(e);
      if result.Done? {
        result := FlushAndStore(e);
      }
      RefusedCall(e.w, old(dest.log));
    }

    /** Count the last end-of-band code. */
    method CountLast()
      requires Valid() && gather
      modifies status, counts, `sent, dest, dest.buffer
      ensures sent == old(sent) + old(EobTokens(p.scan.tbl, status.eobrun, status.Buffered()))
      ensures Counted(counts[..], base, false, p.scan.tbl, sent)
    {
      hide Counted, ShortCodes, Holds, Knows, OutputIs, EobTokens;
      var e := Load();
      var r := status.EmitEobrun(e);
      sent := e.sent;
    }

    /** finish_pass_gather_phuff: count the last end-of-band code and generate the table. */
    method FinishGathering(acTables: seq<Option<HuffTable>>, ghost seqScan: Scan)
      returns (ok: bool, newAc: seq<Option<HuffTable>>)
      requires Valid() && gather && TableSlots(acTables) && base == ZeroCounts()
      requires var all := sent + EobTokens(p.scan.tbl, status.eobrun, status.Buffered());
               Uses(all, false, p.scan.tbl) && |all| < SENTINEL && AllPossible(seqScan, all)
      modifies this, status, counts, dest, dest.buffer
      ensures TableSlots(newAc)
      ensures var all := old(sent + EobTokens(p.scan.tbl, status.eobrun, status.Buffered()));
              && (ok <==> FitsLimit(TableCounts(all, false, p.scan.tbl)))
              && (ok ==> GeneratedFor(newAc[p.scan.tbl], TableCounts(all, false, p.scan.tbl)))
              && (|all| + 1 < OVERFLOW_TOTAL ==> ok)
    {
      hide Counted, ShortCodes, Holds, Knows, OutputIs, EobTokens, AllPossible, Uses, GeneratedFor, Countable,
        Sum, Generated, FitsLimit, TableCounts;
      CountLast();
      ghost var f := counts[..];
      CountsAreCountable(seqScan, sent, false, p.scan.tbl, f);
      CountedIs(f, sent, false, p.scan.tbl);
      if |sent| + 1 < OVERFLOW_TOTAL {
        FewTokensFit(f, |sent|);
      }
      ok, newAc := GenerateTable(acTables, p.scan.tbl, counts);
      if ok {
        IsGeneratedFor(newAc[p.scan.tbl], f);
      }
    }
  }

  lemma NoCodesAreShort()
    ensures ShortCodes(Tables(seq(NUM_HUFF_TBLS, _ => NO_TABLE), seq(NUM_HUFF_TBLS, _ => NO_TABLE)))
  {
  }

  lemma OneTableIsShort(t: LegalTable, d: DerivedTable, ts: Coder, tbl: nat)
    requires tbl < NUM_HUFF_TBLS && Derives(t, d) && ts.ac[tbl] == d
    requires forall i :: 0 <= i < NUM_HUFF_TBLS ==> ts.dc[i] == NO_TABLE && (i != tbl ==> ts.ac[i] == NO_TABLE)
    ensures ShortCodes(ts)
  {
    forall isDC: bool, i: nat, s: byte | i < NUM_HUFF_TBLS ensures ts.At(isDC, i).ehufsi[s] <= 16 {
      if !isDC && i == tbl && d.Codes(s) {
        NoCodeIsAllOnes(t, d, s);
      }
    }
  }

  lemma NothingSentYet(ts: Coder, s: Sink)
    ensures OutputIs(ts, s.bytes, s.pending, s, [])
  {
  }
}
