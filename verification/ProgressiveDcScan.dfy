/**
 The DC modes of the progressive encoder of jcphuff.c, one MCU at a time, and whole DC scans: a first
 scan and refinements on top of it.
 */
module ProgressiveDcScan {
  import opened BitString
  import opened ByteStream
  import opened HuffmanCode
  import opened Tokens
  import opened SequentialCode
  import opened SequentialScan
  import opened BitWriter
  import opened BlockEncoder
  import opened SequentialEncoder
  import opened ScanDriver
  import opened ProgressiveDc
  import opened ProgressiveScan

  /** The DC coefficients of an MCU's blocks. */
  function DcOf(mcu: Mcu): (dc: DcMcu)
    ensures |dc| == |mcu|
  {
    seq(|mcu|, b requires 0 <= b < |mcu| => mcu[b][0])
  }

  function DcOfAll(mcus: seq<Mcu>): (r: seq<DcMcu>)
    ensures |r| == |mcus| && forall i :: 0 <= i < |r| ==> |r[i]| == |mcus[i]|
  {
    seq(|mcus|, i requires 0 <= i < |mcus| => DcOf(mcus[i]))
  }

  /** The tables of the first n components can be coded with. */
  predicate DcUsable(scan: Scan, dcTables: seq<Option<HuffTable>>, n: nat)
    requires TableSlots(dcTables) && n <= scan.Comps()
  {
    forall c :: 0 <= c < n ==> Usable(dcTables[scan.dcTbl[c]], true)
  }

  /** The decoder's tables for the first n components are the compressor's. */
  predicate DcLoaded(scan: Scan, tables: Decoder, dcTables: seq<Option<HuffTable>>, n: nat)
    requires TableSlots(dcTables) && n <= scan.Comps()
  {
    forall c :: 0 <= c < n ==> dcTables[scan.dcTbl[c]] == Some(tables.dc[scan.dcTbl[c]])
  }

  lemma NothingToLoadDc(scan: Scan, tables: Decoder, dcTables: seq<Option<HuffTable>>)
    requires TableSlots(dcTables)
    ensures DcUsable(scan, dcTables, 0) && DcLoaded(scan, tables, dcTables, 0)
  {
  }

  lemma LoadOneMoreDc(scan: Scan, before: Decoder, dcTables: seq<Option<HuffTable>>, n: nat)
    requires TableSlots(dcTables) && n < scan.Comps()
    requires DcUsable(scan, dcTables, n) && DcLoaded(scan, before, dcTables, n)
    ensures var dcTbl := scan.dcTbl[n];
            if Usable(dcTables[dcTbl], true) then
              && DcUsable(scan, dcTables, n + 1)
              && LegalCode(dcTables[dcTbl].value.bits)
              && DcLoaded(scan, before.(dc := before.dc[dcTbl := dcTables[dcTbl].value]), dcTables, n + 1)
            else !DcUsable(scan, dcTables, scan.Comps())
  {
    hide LegalCode, SymbolsFit;
  }

  /** The output after an MCU. */
  function SinkAfterDc(ts: Coder, p: DcScan, s: Sink, pos: Pos, mcu: DcMcu): Sink
    requires |pos.lastDc| == p.head.Comps() && |mcu| == |p.head.membership| && pos.nextNum < 8
    requires ts.Covers(DcStepTokens(p, pos, mcu))
  {
    DcStepIsWellNumbered(ts, p, pos, mcu);
    PutAll(s, Items(ts, DcStepTokens(p, pos, mcu)))
  }

  lemma DcStepIsWellNumbered(ts: Coder, p: DcScan, pos: Pos, mcu: DcMcu)
    requires |pos.lastDc| == p.head.Comps() && |mcu| == |p.head.membership| && pos.nextNum < 8
    requires ts.Covers(DcStepTokens(p, pos, mcu))
    ensures WellNumbered(Items(ts, DcStepTokens(p, pos, mcu)))
  {
    NoMarksInDcMcu(p, mcu, 0, StartDc(p.head, pos));
    hide DcMcuTokens;
  }

  /** First the marker that is due, then the blocks. */
  lemma DcStepInTwoParts(ts: Coder, p: DcScan, s: Sink, pos: Pos, mcu: DcMcu)
    requires |pos.lastDc| == p.head.Comps() && |mcu| == |p.head.membership| && pos.nextNum < 8
    requires Sendable(ts, DcMcuTokens(p, mcu, 0, StartDc(p.head, pos)))
    ensures ts.Covers(DcStepTokens(p, pos, mcu))
    ensures var s' := if RestartDue(p.head, pos) then PutItem(s, Restart(pos.nextNum)) else s;
            SinkAfterDc(ts, p, s, pos, mcu) == SentTo(ts, s', DcMcuTokens(p, mcu, 0, StartDc(p.head, pos)))
  {
    var mark, toks := MarkOf(p.head, pos), DcMcuTokens(p, mcu, 0, StartDc(p.head, pos));
    hide DcMcuTokens, PutItem, Sendable;
    assert ts.Covers(mark) && ts.Covers(toks) by {
      assert Sendable(ts, toks);
      SendableCovers(ts, toks);
    }
    ItemsConcat(ts, mark, toks);
    ItemsAreData(ts, toks);
    if RestartDue(p.head, pos) {
      var items := Items(ts, mark);
      assert items == [Restart(pos.nextNum)] && items[..0] == [];
      PutAllConcat(s, items, Items(ts, toks));
    } else {
      assert mark + toks == toks;
    }
  }

  lemma SendableCovers(ts: Coder, tokens: seq<Token>)
    requires Sendable(ts, tokens)
    ensures ts.Covers(tokens)
  {
  }

  /** The MCU is in range, and the tables have a code for all it sends. */
  predicate Codable(ts: Coder, p: DcScan, pos: Pos, mcu: DcMcu)
    requires |pos.lastDc| == p.head.Comps() && |mcu| == |p.head.membership|
  {
    DcMcuInRange(p, mcu, 0, StartDc(p.head, pos)) && ts.Covers(DcStepTokens(p, pos, mcu))
  }

  lemma CodableParts(ts: Coder, p: DcScan, pos: Pos, mcu: DcMcu)
    requires |pos.lastDc| == p.head.Comps() && |mcu| == |p.head.membership|
    ensures var start := StartDc(p.head, pos);
            Codable(ts, p, pos, mcu) ==> DcMcuInRange(p, mcu, 0, start) && ts.Covers(DcMcuTokens(p, mcu, 0, start))
  {
    hide DcMcuInRange, DcMcuTokens;
    if Codable(ts, p, pos, mcu) {
      CoversParts(ts, MarkOf(p.head, pos), DcMcuTokens(p, mcu, 0, StartDc(p.head, pos)));
    }
  }

  class DcEncoder {
    const p: DcScan
    const dest: Destination
    var ts: Coder
    ghost var tables: Decoder        // the tables ts was derived from
    var putBuffer: nat
    var putBits: nat
    var lastDc: seq<int>
    var restartsToGo: nat
    var nextRestartNum: nat
    ghost var pending: Bits

    ghost predicate Valid()
      reads this
    {
      && DecoderKnows(tables, ts)
      && Holds(putBuffer, putBits, pending) && |pending| <= 7
      && |lastDc| == p.head.Comps() && nextRestartNum < 8
    }

    ghost function Position(): Pos
      reads this
    {
      Pos(lastDc, restartsToGo, nextRestartNum)
    }

    /** The committed stream and the bits not yet in it. */
    ghost function Output(): Sink
      requires dest.Valid()
      reads `pending, dest`sent, dest`buffer, dest`next, dest`free, dest.buffer
    {
      Sink(dest.Stream(), pending)
    }

    constructor (p: DcScan, dest: Destination)
      ensures Valid() && this.p == p && this.dest == dest
    {
      NothingDerived();
      this.p, this.dest := p, dest;
      ts := Tables(seq(NUM_HUFF_TBLS, _ => NO_TABLE), seq(NUM_HUFF_TBLS, _ => NO_TABLE));
      tables := DecoderTables(seq(NUM_HUFF_TBLS, _ => EmptyTable()), seq(NUM_HUFF_TBLS, _ => EmptyTable()));
      putBuffer, putBits, pending := 0, 0, [];
      lastDc, restartsToGo, nextRestartNum := Zeros(p.head.Comps()), 0, 0;
    }

    /** start_pass_phuff for a DC scan with output: a first scan derives its tables, a refinement has none. */
    method StartPass(dcTables: seq<Option<HuffTable>>) returns (ok: bool)
      requires Valid() && TableSlots(dcTables)
      modifies this
      ensures Valid()
      ensures ok <==> p.refining || DcUsable(p.head, dcTables, p.head.Comps())
      ensures ok ==> Position() == StartPos(p.head) && pending == []
      ensures ok && !p.refining ==> DcLoaded(p.head, tables, dcTables, p.head.Comps())
    {
      hide DecoderKnows, Usable, DcUsable, DcLoaded, Holds;
      ok := true;
      NothingToLoadDc(p.head, tables, dcTables);
      for ci := 0 to p.head.Comps()
        invariant Valid() && ok
        invariant p.refining || (DcUsable(p.head, dcTables, ci) && DcLoaded(p.head, tables, dcTables, ci))
        invariant forall c :: 0 <= c < ci ==> lastDc[c] == 0
      {
        lastDc := lastDc[ci := 0];
        if !p.refining {
          LoadOneMoreDc(p.head, tables, dcTables, ci);
          ok := DeriveTable(dcTables, p.head.dcTbl[ci]);
          if !ok {
            return;
          }
        }
      }
      putBuffer, putBits, pending := 0, 0, [];
      restartsToGo, nextRestartNum := p.head.restartInterval, 0;
      HoldsNothing();
      assert lastDc == Zeros(p.head.Comps());
    }

    method DeriveTable(from: seq<Option<HuffTable>>, tbl: nat) returns (ok: bool)
      requires Valid() && TableSlots(from) && tbl < NUM_HUFF_TBLS
      modifies `ts, `tables
      ensures Valid() && (ok <==> Usable(from[tbl], true))
      ensures ok ==> tables == old(tables).(dc := old(tables).dc[tbl := from[tbl].value])
    {
      var derived := MakeDerivedTable(from, true, tbl);
      ok := derived.Some?;
      if ok {
        SetTable(tbl, from[tbl].value, derived.value);
      }
    }

    method SetTable(tbl: nat, ghost t: LegalTable, d: DerivedTable)
      requires Valid() && tbl < NUM_HUFF_TBLS && Derives(t, d)
      modifies `ts, `tables
      ensures Valid() && tables == old(tables).(dc := old(tables).dc[tbl := t])
    {
      hide Holds, LegalCode, CodedAt;
      ts := ts.(dc := ts.dc[tbl := d]);
      tables := tables.(dc := tables.dc[tbl := t]);
    }

    /** A block: encode_mcu_DC_first or encode_mcu_DC_refine. */
    method WriteBlock(w: Writer, ci: nat, v: int, ghost s: Sink, ghost sent: seq<Token>) returns (result: Outcome)
      requires |w.lastDc| == p.head.Comps() && ci < p.head.Comps() && Wrote(w, ts, s, sent) && ShortCodes(ts)
      modifies w, w.dest, w.dest.buffer
      ensures w.Kept() && (w.dest.buffer == old(w.dest.buffer) || fresh(w.dest.buffer))
      ensures var tokens := DcBlockTokens(p, ci, v, old(w.lastDc)[ci]);
              && (result.Suspended? ==> w.Refused())
              && (result.Error? ==> result.Uncodable() && w.Noted())
              && (result.Error? ==> !(DcFits(p, v, old(w.lastDc)[ci]) && ts.Covers(tokens)))
              && (result.Done? ==> DcFits(p, v, old(w.lastDc)[ci]) && Wrote(w, ts, s, sent + tokens))
              && (result.Done? ==> w.lastDc == old(w.lastDc)[ci := NextPred(p, v, old(w.lastDc)[ci])])
    {
      hide Wrote, ShortCodes, Writer.Valid, Writer.Kept, Writer.Refused, Writer.Noted, DcTokens, SentTo, Sendable;
      var temp := v / Pow2(p.al);
      if p.refining {
        result := EmitExtra(w, ts, temp, 1, s, sent);
        LastBit(temp);
        assert w.lastDc == old(w.lastDc)[ci := old(w.lastDc)[ci]];
      } else {
        result := EncodeDc(w, ts, temp - w.lastDc[ci], p.head.dcTbl[ci], s, sent);
        if result.Done? {
          w.lastDc := w.lastDc[ci := temp];
        }
      }
      KeptIsNoted(w);
    }

    /** The blocks of an MCU. */
    method WriteBlocks(w: Writer, mcu: Mcu, ghost s: Sink) returns (result: Outcome)
      requires |w.lastDc| == p.head.Comps() && |mcu| == |p.head.membership| && Wrote(w, ts, s, []) && ShortCodes(ts)
      modifies w, w.dest, w.dest.buffer
      ensures w.Kept() && (w.dest.buffer == old(w.dest.buffer) || fresh(w.dest.buffer))
      ensures var tokens := DcMcuTokens(p, DcOf(mcu), 0, old(w.lastDc));
              && (result.Suspended? ==> w.Refused())
              && (result.Error? ==> result.Uncodable() && w.Noted())
              && (result.Error? ==> !(DcMcuInRange(p, DcOf(mcu), 0, old(w.lastDc)) && ts.Covers(tokens)))
              && (result.Done? ==> DcMcuInRange(p, DcOf(mcu), 0, old(w.lastDc)) && Wrote(w, ts, s, tokens))
              && (result.Done? ==> w.lastDc == PredsAfter(p, DcOf(mcu), 0, old(w.lastDc)))
    {
      hide Wrote, ShortCodes, Writer.Kept, Writer.Refused, Writer.Noted, DcBlockTokens, DcFits;
      ghost var dc, start, sent: seq<Token> := DcOf(mcu), w.lastDc, [];
      assert [] + DcMcuTokens(p, dc, 0, start) == DcMcuTokens(p, dc, 0, start);
      var b := 0;
      while b < |mcu|
        invariant b <= |mcu| && |w.lastDc| == p.head.Comps() && Wrote(w, ts, s, sent)
        invariant w.dest.buffer == old(w.dest.buffer) || fresh(w.dest.buffer)
        invariant sent + DcMcuTokens(p, dc, b, w.lastDc) == DcMcuTokens(p, dc, 0, start)
        invariant DcMcuInRange(p, dc, b, w.lastDc) <==> DcMcuInRange(p, dc, 0, start)
        invariant PredsAfter(p, dc, b, w.lastDc) == PredsAfter(p, dc, 0, start)
      {
        var ci := p.head.membership[b];
        ghost var before := w.lastDc;
        ghost var tokens := DcBlockTokens(p, ci, dc[b], before[ci]);
        ghost var more := DcMcuTokens(p, dc, b + 1, before[ci := NextPred(p, dc[b], before[ci])]);
        Assoc(sent, tokens, more);
        result := WriteBlock(w, ci, mcu[b][0], s, sent);
        if !result.Done? {
          if result.Error? && DcFits(p, dc[b], before[ci]) {
            NotCoveredByPart(ts, sent, tokens);
            NotCoveredByPart(ts, sent + tokens, more);
          }
          return;
        }
        sent := sent + tokens;
        b := b + 1;
      }
      assert sent + [] == sent;
      result := Done;
    }

    /** The marker that is due, and the blocks. */
    method WriteMcu(w: Writer, mcu: Mcu) returns (result: Outcome)
      requires Valid() && w.dest == dest && w.Valid() && |mcu| == |p.head.membership| && w.lastDc == lastDc
      modifies w, dest, dest.buffer
      ensures w.Kept() && (dest.buffer == old(dest.buffer) || fresh(dest.buffer))
      ensures result.Suspended? ==> w.Refused()
      ensures result.Error? ==> result.Uncodable() && w.Noted() && !Codable(ts, p, Position(), DcOf(mcu))
      ensures result.Done? ==>
                && Codable(ts, p, Position(), DcOf(mcu)) && w.Valid()
                    && w.lastDc == DcStepPos(p, Position(), DcOf(mcu)).lastDc
                && w.State() == SinkAfterDc(ts, p, old(w.State()), Position(), DcOf(mcu))
    {
      hide DcMcuTokens, DcMcuInRange, PredsAfter, PutItem, PutAll, DecoderKnows, SinkAfterDc, Sendable, SentTo;
      hide Writer.Kept, Writer.Valid, Writer.State, Writer.Refused, Writer.Noted;
      ghost var pos, s := Position(), w.State();
      if p.head.restartInterval != 0 {
        if restartsToGo == 0 {
          result := w.EmitRestart(nextRestartNum);
          if !result.Done? {
            return;
          }
          s := PutItem(s, Restart(nextRestartNum));
        }
      }
      assert w.lastDc == StartDc(p.head, pos);
      ReadyToWrite(w, s);
      result := WriteBlocks(w, mcu, s);
      CodableParts(ts, p, pos, DcOf(mcu));
      if result.Done? {
        WroteMeans(w, ts, s, DcMcuTokens(p, DcOf(mcu), 0, StartDc(p.head, pos)));
        DcStepInTwoParts(ts, p, old(w.State()), pos, DcOf(mcu));
      }
    }

    lemma ReadyToWrite(w: Writer, s: Sink)
      requires Valid() && w.Valid() && w.State() == s
      ensures ShortCodes(ts) && Wrote(w, ts, s, [])
    {
      DerivedCodesAreShort(tables, ts);
      SendNothing(ts, s);
    }

    /**
     encode_mcu_DC_first and encode_mcu_DC_refine. After a failure, which no retry follows, nothing
     is promised of the encoder.
     */
    method EncodeMcu(mcu: Mcu) returns (result: Outcome)
      requires Valid() && dest.Valid() && |mcu| == |p.head.membership|
      modifies this, dest, dest.buffer
      ensures dest.buffer == old(dest.buffer) || fresh(dest.buffer)
      ensures ts == old(ts) && tables == old(tables) && old(dest.log) <= dest.log
      ensures !result.Suspended? && (result.Error? ==> result.Uncodable() || result == Error(CantSuspend))
      ensures result == Error(CantSuspend) ==> EndsRefused(old(dest.log), dest.log)
      ensures result.Uncodable() ==> !old(Codable(ts, p, Position(), DcOf(mcu)))
      ensures result.Done? ==>
                && Valid() && dest.Valid() && old(Codable(ts, p, Position(), DcOf(mcu)))
                && Position() == DcStepPos(p, old(Position()), DcOf(mcu))
                && Output() == SinkAfterDc(ts, p, old(Output()), old(Position()), DcOf(mcu))
    {
      hide *;
      Reasons();
      dest.log := dest.log + [Called];
      CanStart();
      var w := new Writer(dest, putBuffer, putBits, pending, lastDc);
      result := WriteMcu(w, mcu);
      KeptIsNoted(w);
      RefusedCall(w, old(dest.log));
      if result.Suspended? {
        result := Error(CantSuspend);
      } else if result.Done? {
        Complete(w, mcu);
      }
    }

    lemma CanStart()
      requires Valid()
      ensures Holds(putBuffer, putBits, pending) && |pending| <= 7 && |lastDc| == p.head.Comps() && nextRestartNum < 8
      ensures Position() == Pos(lastDc, restartsToGo, nextRestartNum)
      ensures dest.Valid() ==> Output() == Sink(dest.Stream(), pending)
    {
    }

    /** Completed MCU, so update state. */
    method Complete(w: Writer, ghost mcu: Mcu)
      requires Valid() && w.dest == dest && w.Valid() && |mcu| == |p.head.membership|
      requires w.lastDc == DcStepPos(p, Position(), DcOf(mcu)).lastDc
      modifies this, dest`next, dest`free
      ensures Valid() && dest.Valid() && ts == old(ts) && tables == old(tables)
      ensures Position() == DcStepPos(p, old(Position()), DcOf(mcu)) && Output() == w.State()
    {
      hide DecoderKnows, Holds, PredsAfter, Events, Foretold, Taken, Shut, Open, Asked, Total;
      Commit(w);
      CountRestart();
    }

    method Commit(w: Writer)
      requires w.dest == dest && w.Valid()
      modifies `putBuffer, `putBits, `pending, `lastDc, dest`next, dest`free
      ensures dest.Valid() && Holds(putBuffer, putBits, pending) && |pending| <= 7
      ensures Output() == old(w.State()) && lastDc == w.lastDc
    {
      dest.next, dest.free := w.next, w.free;
      putBuffer, putBits, pending, lastDc := w.putBuffer, w.putBits, w.pending, w.lastDc;
    }

    /** Update restart-interval state too. */
    method CountRestart()
      requires nextRestartNum < 8
      modifies `restartsToGo, `nextRestartNum
      ensures restartsToGo == NextToGo(p.head, old(restartsToGo)) && nextRestartNum < 8
      ensures nextRestartNum ==
                if p.head.restartInterval != 0 && old(restartsToGo) == 0 then (old(nextRestartNum) + 1) % 8
                else old(nextRestartNum)
    {
      if p.head.restartInterval != 0 {
        if restartsToGo == 0 {
          restartsToGo := p.head.restartInterval;
          nextRestartNum := (nextRestartNum + 1) % 8;
        }
        restartsToGo := restartsToGo - 1;
      }
    }

    /** finish_pass_phuff; there is never an end-of-band run in a DC scan. */
    method FinishPass() returns (result: Outcome)
      requires Valid() && dest.Valid()
      modifies this, dest, dest.buffer
      ensures ts == old(ts) && tables == old(tables) && old(dest.log) <= dest.log
      ensures result.Done? || (result == Error(CantSuspend) && EndsRefused(old(dest.log), dest.log))
      ensures result.Done? ==> Valid() && dest.Valid() && Output() == Flush(old(Output()))
    {
      hide *;
      dest.log := dest.log + [Called];
      CanStart();
      var w := new Writer(dest, putBuffer, putBits, pending, lastDc);
      result := w.FlushBits();
      KeptIsNoted(w);
      RefusedCall(w, old(dest.log));
      if result.Suspended? {
        result := Error(CantSuspend);
      } else {
        StaysValid(w);
        Commit(w);
        StillValid(old(Output()));
      }
    }

    lemma StaysValid(w: Writer)
      requires Valid() && w.Valid() && w.lastDc == lastDc
      ensures DecoderKnows(tables, ts) && |w.lastDc| == p.head.Comps() && nextRestartNum < 8
    {
    }

    lemma StillValid(s: Sink)
      requires DecoderKnows(tables, ts) && |lastDc| == p.head.Comps() && nextRestartNum < 8
      requires Holds(putBuffer, putBits, pending) && |pending| <= 7
      ensures Valid()
    {
    }
  }

  lemma KeptIsNoted(w: Writer)
    requires w.Kept()
    ensures w.Noted()
  {
  }

  lemma LastBit(v: int)
    ensures BitsOf(v, 1) == [v % 2 == 1]
  {
    assert BitsOf(v / 2, 0) == [];
  }

  // ----- a run of MCUs

  /** What has been sent of a run, and what is left of it. */
  ghost predicate SoFar(ts: Coder, p: DcScan, start: Pos, all: seq<DcMcu>, s0: Sink, sent: seq<Token>, pos: Pos,
                        rest: seq<DcMcu>, s: Sink)
  {
    && |start.lastDc| == |pos.lastDc| == p.head.Comps() && pos.nextNum < 8 && DcShaped(p, all) && DcShaped(p, rest)
    && sent + DcRunTokens(p, pos, rest) == DcRunTokens(p, start, all)
    && (DcRunInRange(p, start, all) <==> DcRunInRange(p, pos, rest))
    && ts.Covers(sent) && WellNumbered(Items(ts, sent)) && s == PutAll(s0, Items(ts, sent))
  }

  lemma NothingSoFar(ts: Coder, p: DcScan, start: Pos, all: seq<DcMcu>, s0: Sink)
    requires |start.lastDc| == p.head.Comps() && start.nextNum < 8 && DcShaped(p, all)
    ensures SoFar(ts, p, start, all, s0, [], start, all, s0)
  {
    assert [] + DcRunTokens(p, start, all) == DcRunTokens(p, start, all);
  }

  lemma OneMoreSent(ts: Coder, p: DcScan, start: Pos, all: seq<DcMcu>, s0: Sink, sent: seq<Token>, pos: Pos,
                    rest: seq<DcMcu>, s: Sink)
    requires SoFar(ts, p, start, all, s0, sent, pos, rest, s) && rest != []
    ensures |rest[0]| == |p.head.membership| && |pos.lastDc| == p.head.Comps()
    ensures if Codable(ts, p, pos, rest[0]) then
              SoFar(ts, p, start, all, s0, sent + DcStepTokens(p, pos, rest[0]), DcStepPos(p, pos, rest[0]), rest[1..],
                    SinkAfterDc(ts, p, s, pos, rest[0]))
            else !(DcRunInRange(p, start, all) && ts.Covers(DcRunTokens(p, start, all)))
  {
    hide DcMcuTokens, DcMcuInRange, PredsAfter, PutAll, DcStepTokens;
    var step, next := DcStepTokens(p, pos, rest[0]), DcStepPos(p, pos, rest[0]);
    var more := DcRunTokens(p, next, rest[1..]);
    Assoc(sent, step, more);
    if Codable(ts, p, pos, rest[0]) {
      DcStepIsWellNumbered(ts, p, pos, rest[0]);
      ItemsConcat(ts, sent, step);
      PutAllConcat(s0, Items(ts, sent), Items(ts, step));
    } else if !ts.Covers(step) {
      NotCoveredByPart(ts, sent, step);
      NotCoveredByPart(ts, sent + step, more);
    }
  }

  lemma AllSent(ts: Coder, p: DcScan, start: Pos, all: seq<DcMcu>, s0: Sink, sent: seq<Token>, pos: Pos, s: Sink)
    requires SoFar(ts, p, start, all, s0, sent, pos, [], s)
    ensures DcRunInRange(p, start, all) && ts.Covers(DcRunTokens(p, start, all))
    ensures WellNumbered(Items(ts, DcRunTokens(p, start, all)))
              && s == PutAll(s0, Items(ts, DcRunTokens(p, start, all)))
  {
    hide PutAll;
    assert sent + [] == sent;
  }

  lemma RestOfDcRun(p: DcScan, mcus: seq<Mcu>, i: nat)
    requires i < |mcus|
    ensures var rest := DcOfAll(mcus[i..]);
            rest != [] && rest[0] == DcOf(mcus[i]) && rest[1..] == DcOfAll(mcus[i + 1..])
  {
  }

  /** Every MCU of a run. */
  method EncodeDcRun(enc: DcEncoder, mcus: seq<Mcu>) returns (result: Outcome)
    requires enc.Valid() && enc.dest.Valid() && Shaped(enc.p.head, mcus)
    modifies enc, enc.dest, enc.dest.buffer
    ensures enc.dest.buffer == old(enc.dest.buffer) || fresh(enc.dest.buffer)
    ensures enc.ts == old(enc.ts) && enc.tables == old(enc.tables) && old(enc.dest.log) <= enc.dest.log
    ensures result.Done? || result.Uncodable() || result == Error(CantSuspend)
    ensures result == Error(CantSuspend) ==> EndsRefused(old(enc.dest.log), enc.dest.log)
    ensures var tokens := DcRunTokens(enc.p, old(enc.Position()), DcOfAll(mcus));
            var possible := DcRunInRange(enc.p, old(enc.Position()), DcOfAll(mcus)) && enc.ts.Covers(tokens);
            && (result.Uncodable() ==> !possible)
            && (result.Done? ==>
                  && possible && enc.Valid() && enc.dest.Valid() && WellNumbered(Items(enc.ts, tokens))
                  && enc.Output() == PutAll(old(enc.Output()), Items(enc.ts, tokens)))
  {
    hide *;
    ghost var p, ts, start, all, s0, since := enc.p, enc.ts, enc.Position(), DcOfAll(mcus), enc.Output(), enc.dest.log;
    ghost var pos, sent: seq<Token> := start, [];
    Reasons();
    StartsAt(enc, mcus);
    NothingSoFar(ts, p, start, all, s0);
    assert mcus[0..] == mcus;
    var i := 0;
    while i < |mcus|
      invariant i <= |mcus| && enc.Valid() && enc.dest.Valid() && since <= enc.dest.log
      invariant enc.dest.buffer == old(enc.dest.buffer) || fresh(enc.dest.buffer)
      invariant enc.ts == ts && enc.tables == old(enc.tables) && enc.Position() == pos
      invariant SoFar(ts, p, start, all, s0, sent, pos, DcOfAll(mcus[i..]), enc.Output())
    {
      ghost var s, log := enc.Output(), enc.dest.log;
      RestOfDcRun(p, mcus, i);
      OneMoreSent(ts, p, start, all, s0, sent, pos, DcOfAll(mcus[i..]), s);
      result := enc.EncodeMcu(mcus[i]);
      if !result.Done? {
        RefusedSince(since, log, enc.dest.log);
        return;
      }
      sent, pos := sent + DcStepTokens(p, pos, DcOf(mcus[i])), enc.Position();
      i := i + 1;
    }
    assert mcus[i..] == [];
    AllSent(ts, p, start, all, s0, sent, pos, enc.Output());
    result := Done;
  }

  lemma RefusedSince(since: seq<Event>, log: seq<Event>, after: seq<Event>)
    requires since <= log
    ensures EndsRefused(log, after) ==> EndsRefused(since, after)
  {
  }

  lemma StartsAt(enc: DcEncoder, mcus: seq<Mcu>)
    requires enc.Valid() && enc.dest.Valid() && Shaped(enc.p.head, mcus)
    ensures |enc.Position().lastDc| == enc.p.head.Comps() && enc.Position().nextNum < 8
    ensures DcShaped(enc.p, DcOfAll(mcus)) && enc.Output() == Sink(enc.dest.Stream(), enc.pending)
    ensures DecoderKnows(enc.tables, enc.ts)
  {
  }

  lemma BeforeDcScan(p: DcScan, mcus: seq<Mcu>, known: seq<DcMcu>)
    requires Shaped(p.head, mcus) && AllPrior(p, known, DcOfAll(mcus))
    ensures |StartPos(p.head).lastDc| == p.head.Comps() && DcShaped(p, DcOfAll(mcus)) && DcShaped(p, known)
  {
  }

  /**
   A DC scan, first or refinement. When it is done, every value was in range and had a code, and from
   the bytes added a decoder that has the tables and knows the DC values to the precision before the
   scan gets them to the precision after it. It fails only for an unusable table, for a value that is
   out of range or has no code in these tables, or for a refused buffer.
   */
  method EncodeDcScan(enc: DcEncoder, dcTables: seq<Option<HuffTable>>, mcus: seq<Mcu>, ghost known: seq<DcMcu>)
    returns (result: Outcome)
    requires enc.Valid() && enc.dest.Valid() && Shaped(enc.p.head, mcus) && TableSlots(dcTables)
    requires AllPrior(enc.p, known, DcOfAll(mcus))
    modifies enc, enc.dest, enc.dest.buffer
    ensures result == Error(BadTable) <==> !enc.p.refining && !DcUsable(enc.p.head, dcTables, enc.p.head.Comps())
    ensures result != Error(BadTable) ==>
              && DecoderKnows(enc.tables, enc.ts)
              && (enc.p.refining || DcLoaded(enc.p.head, enc.tables, dcTables, enc.p.head.Comps()))
    ensures result.Done? || result.Uncodable() || result == Error(CantSuspend) || result == Error(BadTable)
    ensures result == Error(CantSuspend) ==> EndsRefused(old(enc.dest.log), enc.dest.log)
    ensures var values := DcOfAll(mcus);
            var tokens := DcRunTokens(enc.p, StartPos(enc.p.head), values);
            var possible := DcRunInRange(enc.p, StartPos(enc.p.head), values) && enc.ts.Covers(tokens);
            && (result.Uncodable() ==> !possible)
            && (result.Done? ==>
                  && possible && enc.dest.Valid() && WellNumbered(Items(enc.ts, tokens))
                  && enc.dest.Stream() == old(enc.dest.Stream()) + ScanBytes(Items(enc.ts, tokens))
                  && DecodeDcScan(enc.tables, enc.p, known, ScanBytes(Items(enc.ts, tokens)))
                      == Some(AllAtPrecision(values, enc.p.al)))
  {
    hide *;
    ghost var p, before, values, since := enc.p, enc.dest.Stream(), DcOfAll(mcus), enc.dest.log;
    BeforeDcScan(p, mcus, known);
    ghost var tokens := DcRunTokens(p, StartPos(p.head), values);
    Reasons();
    var ok := enc.StartPass(dcTables);
    if !ok {
      return Error(BadTable);
    }
    StartsAt(enc, mcus);
    result := EncodeDcRun(enc, mcus);
    if result.Done? {
      ghost var log := enc.dest.log;
      result := enc.FinishPass();
      RefusedSince(since, log, enc.dest.log);
      if result.Done? {
        FlushedScan(enc.ts, before, tokens);
        StartsAt(enc, mcus);
        DcScanRoundTrip(enc.tables, p, enc.ts, values, known);
      }
    }
  }
}
