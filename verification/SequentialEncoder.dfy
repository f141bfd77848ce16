/**
 The sequential Huffman entropy encoder of jchuff.c: saved state, working state,
 suspension, restart counters and the statistics pass.
 */
module SequentialEncoder {
  import opened BitString
  import opened ByteStream
  import opened HuffmanCode
  import opened Tokens
  import opened SequentialCode
  import opened SequentialScan
  import opened BitWriter
  import opened BlockEncoder

  // ----- the blocks of an MCU

  method EncodeBlocks(w: Writer, ts: Coder, scan: Scan, mcu: Mcu, ghost s: Sink) returns (result: Outcome)
    requires Wrote(w, ts, s, []) && ShortCodes(ts)
    requires |mcu| == |scan.membership| && |w.lastDc| == scan.Comps()
    modifies w, w.dest, w.dest.buffer
    ensures w.dest.buffer == old(w.dest.buffer) || fresh(w.dest.buffer)
    ensures w.Kept() && Stopped(w, ts, s, McuTokens(scan, mcu, 0, old(w.lastDc)), result)
    ensures result.Error? ==>
              !(McuInRange(scan, mcu, 0, old(w.lastDc)) && ts.Covers(McuTokens(scan, mcu, 0, old(w.lastDc))))
    ensures result.Done? ==>
              && McuInRange(scan, mcu, 0, old(w.lastDc))
              && Wrote(w, ts, s, McuTokens(scan, mcu, 0, old(w.lastDc)))
              && w.lastDc == LastDcAfter(scan, mcu, 0, old(w.lastDc))
  {
    hide Wrote, ShortCodes, BlockTokens, BlockInRange, IsOrder, Zigzag, Stopped, Writer.Kept, Writer.Valid;
    ghost var start, out: seq<Token> := w.lastDc, [];
    assert out + McuTokens(scan, mcu, 0, start) == McuTokens(scan, mcu, 0, start);
    for blkn := 0 to |mcu|
      invariant |w.lastDc| == scan.Comps()
      invariant w.dest.buffer == old(w.dest.buffer) || fresh(w.dest.buffer)
      invariant w.Kept() && Wrote(w, ts, s, out)
      invariant out + McuTokens(scan, mcu, blkn, w.lastDc) == McuTokens(scan, mcu, 0, start)
      invariant McuInRange(scan, mcu, blkn, w.lastDc) <==> McuInRange(scan, mcu, 0, start)
      invariant LastDcAfter(scan, mcu, blkn, w.lastDc) == LastDcAfter(scan, mcu, 0, start)
    {
      var ci := scan.membership[blkn];
      ghost var z, before := Zigzag(scan.order, mcu[blkn]), w.lastDc;
      ghost var block := BlockTokens(z, before[ci], scan.dcTbl[ci], scan.acTbl[ci]);
      ghost var more := McuTokens(scan, mcu, blkn + 1, before[ci := mcu[blkn][0]]);
      Assoc(out, block, more);
      result := EncodeOneBlock(w, ts, scan.order, mcu[blkn], w.lastDc[ci], scan.dcTbl[ci], scan.acTbl[ci], s, out);
      if !result.Done? {
        if result.Error? && BlockInRange(z, before[ci]) {
          NotCoveredByPart(ts, out, block);
          NotCoveredByPart(ts, out + block, more);
        }
        StoppedBefore(w, ts, s, out + block, more, result);
        return;
      }
      out := out + block;
      w.lastDc := w.lastDc[ci := mcu[blkn][0]];
    }
    assert out + [] == out;
    result := Done;
    NotSuspended(w, ts, s, out, out, result);
  }

  lemma StoppedBefore(w: Writer, ts: Coder, s: Sink, a: seq<Token>, b: seq<Token>, result: Outcome)
    requires Stopped(w, ts, s, a, result)
    ensures Stopped(w, ts, s, a + b, result)
  {
    hide Stopped;
    assert [] + a == a && [] + (a + b) == a + b;
    StoppedIn(w, ts, s, [], a, b, result);
  }

  /** The sink after one call's tokens. */
  function SinkAfter(ts: Coder, scan: Scan, s: Sink, pos: Pos, mcu: Mcu): Sink
    requires |pos.lastDc| == scan.Comps() && |mcu| == |scan.membership| && pos.nextNum < 8
    requires ts.Covers(StepTokens(scan, pos, mcu))
  {
    StepIsWellNumbered(ts, scan, pos, mcu);
    PutAll(s, Items(ts, StepTokens(scan, pos, mcu)))
  }

  lemma StepIsWellNumbered(ts: Coder, scan: Scan, pos: Pos, mcu: Mcu)
    requires |pos.lastDc| == scan.Comps() && |mcu| == |scan.membership| && pos.nextNum < 8
    requires ts.Covers(StepTokens(scan, pos, mcu))
    ensures WellNumbered(Items(ts, StepTokens(scan, pos, mcu)))
  {
    NoMarksInMcu(scan, mcu, 0, StartDc(scan, pos));
    var items := Items(ts, StepTokens(scan, pos, mcu));
    hide McuTokens;
    forall i | 0 <= i < |items| && items[i].Restart? ensures items[i].num < 8 {
      assert StepTokens(scan, pos, mcu)[i].Mark?;
    }
  }

  /** The marker, if any, and then the blocks. */
  lemma StepInTwoParts(ts: Coder, scan: Scan, s: Sink, pos: Pos, mcu: Mcu)
    requires |pos.lastDc| == scan.Comps() && |mcu| == |scan.membership| && pos.nextNum < 8
    requires Sendable(ts, McuTokens(scan, mcu, 0, StartDc(scan, pos)))
    ensures ts.Covers(StepTokens(scan, pos, mcu))
    ensures var s' := if RestartDue(scan, pos) then PutItem(s, Restart(pos.nextNum)) else s;
            SinkAfter(ts, scan, s, pos, mcu) == SentTo(ts, s', McuTokens(scan, mcu, 0, StartDc(scan, pos)))
  {
    var mark, blocks := MarkOf(scan, pos), McuTokens(scan, mcu, 0, StartDc(scan, pos));
    ItemsConcat(ts, mark, blocks);
    ItemsAreData(ts, blocks);
    hide McuTokens, StartDc, PutItem;
    if RestartDue(scan, pos) {
      assert Items(ts, mark) == [Restart(pos.nextNum)];
      assert Items(ts, mark)[..0] == [];
      PutAllConcat(s, Items(ts, mark), Items(ts, blocks));
    } else {
      assert mark + blocks == blocks;
    }
  }

  // ----- a run of calls

  /** The sink after a run of calls, none of them refused. */
  function RunSink(ts: Coder, scan: Scan, s: Sink, pos: Pos, mcus: seq<Mcu>): Sink
    requires |pos.lastDc| == scan.Comps() && pos.nextNum < 8 && Shaped(scan, mcus)
    requires ts.Covers(RunTokens(scan, pos, mcus))
    decreases |mcus|
  {
    if mcus == [] then s
    else
      var next := StepPos(scan, pos, mcus[0]);
      CoversParts(ts, StepTokens(scan, pos, mcus[0]), RunTokens(scan, next, mcus[1..]));
      RunSink(ts, scan, SinkAfter(ts, scan, s, pos, mcus[0]), next, mcus[1..])
  }

  /** ... is what the run's tokens make of it. */
  lemma {:induction false} RunSinkIsPutAll(ts: Coder, scan: Scan, s: Sink, pos: Pos, mcus: seq<Mcu>)
    requires |pos.lastDc| == scan.Comps() && pos.nextNum < 8 && Shaped(scan, mcus)
    requires ts.Covers(RunTokens(scan, pos, mcus))
    ensures WellNumbered(Items(ts, RunTokens(scan, pos, mcus)))
    ensures RunSink(ts, scan, s, pos, mcus) == PutAll(s, Items(ts, RunTokens(scan, pos, mcus)))
    decreases |mcus|
  {
    if mcus != [] {
      var step, next := StepTokens(scan, pos, mcus[0]), StepPos(scan, pos, mcus[0]);
      var more := RunTokens(scan, next, mcus[1..]);
      hide StepTokens, PutAll;
      CoversParts(ts, step, more);
      ItemsConcat(ts, step, more);
      StepIsWellNumbered(ts, scan, pos, mcus[0]);
      RunSinkIsPutAll(ts, scan, SinkAfter(ts, scan, s, pos, mcus[0]), next, mcus[1..]);
      PutAllConcat(s, Items(ts, step), Items(ts, more));
    }
  }

  // ----- the encoder object

  /** The Huffman table slots of the compressor. */
  predicate TableSlots(tables: seq<Option<HuffTable>>) {
    |tables| == NUM_HUFF_TBLS && forall i :: 0 <= i < NUM_HUFF_TBLS && tables[i].Some? ==> tables[i].value.WellFormed()
  }

  /** A table that can be coded with. */
  predicate Usable(t: Option<HuffTable>, isDC: bool)
    requires t.Some? ==> t.value.WellFormed()
  {
    t.Some? && LegalCode(t.value.bits) && SymbolsFit(t.value, if isDC then 15 else 255)
  }

  predicate AllUsable(scan: Scan, dcTables: seq<Option<HuffTable>>, acTables: seq<Option<HuffTable>>, n: nat)
    requires TableSlots(dcTables) && TableSlots(acTables) && n <= scan.Comps()
  {
    forall c :: 0 <= c < n ==> Usable(dcTables[scan.dcTbl[c]], true) && Usable(acTables[scan.acTbl[c]], false)
  }

  /** The decoder's tables for the first n components are the compressor's. */
  predicate AllLoaded(scan: Scan, tables: Decoder, dcTables: seq<Option<HuffTable>>, acTables: seq<Option<HuffTable>>,
                      n: nat)
    requires TableSlots(dcTables) && TableSlots(acTables) && n <= scan.Comps()
  {
    forall c :: 0 <= c < n ==>
      && dcTables[scan.dcTbl[c]] == Some(tables.dc[scan.dcTbl[c]])
      && acTables[scan.acTbl[c]] == Some(tables.ac[scan.acTbl[c]])
  }

  lemma NothingToLoad(scan: Scan, tables: Decoder, dcTables: seq<Option<HuffTable>>, acTables: seq<Option<HuffTable>>)
    requires TableSlots(dcTables) && TableSlots(acTables)
    ensures AllUsable(scan, dcTables, acTables, 0) && AllLoaded(scan, tables, dcTables, acTables, 0)
  {
  }

  lemma LoadOneMore(scan: Scan, before: Decoder, after: Decoder, dcTables: seq<Option<HuffTable>>,
                    acTables: seq<Option<HuffTable>>, n: nat)
    requires TableSlots(dcTables) && TableSlots(acTables) && n < scan.Comps()
    requires AllUsable(scan, dcTables, acTables, n) && AllLoaded(scan, before, dcTables, acTables, n)
    ensures var dcTbl, acTbl := scan.dcTbl[n], scan.acTbl[n];
            if Usable(dcTables[dcTbl], true) && Usable(acTables[acTbl], false) then
              && AllUsable(scan, dcTables, acTables, n + 1)
              && (after.dc == before.dc[dcTbl := dcTables[dcTbl].value]
                  && after.ac == before.ac[acTbl := acTables[acTbl].value] ==>
                  AllLoaded(scan, after, dcTables, acTables, n + 1))
            else !AllUsable(scan, dcTables, acTables, scan.Comps())
  {
    hide LegalCode, SymbolsFit;
  }

  lemma NothingDerived()
    ensures DecoderKnows(DecoderTables(seq(NUM_HUFF_TBLS, _ => EmptyTable()), seq(NUM_HUFF_TBLS, _ => EmptyTable())),
                         Tables(seq(NUM_HUFF_TBLS, _ => NO_TABLE), seq(NUM_HUFF_TBLS, _ => NO_TABLE)))
  {
    assert Derives(EmptyTable(), NO_TABLE) by {
      NoSymbols(EmptyTable().bits, 17);
    }
  }

  /**
   The bytes of an MCU against the space for them: what was committed is their beginning, each
   buffer was full when it was handed in, and at the end the rest of the space is left.
   */
  predicate Accounted(before: seq<byte>, free: nat, answers: seq<nat>, stream: seq<byte>, left: nat, after: seq<byte>) {
    && stream <= after
    && (answers != [] ==> |before| + free + Asked(answers) <= |after|)
    && (stream == after && Open(answers) ==> |after| + left == |before| + free + Total(answers))
  }

  class HuffEncoder {
    const scan: Scan
    const dest: Destination
    var ts: Coder
    ghost var tables: Decoder        // the tables ts was derived from
    var putBuffer: nat
    var putBits: nat
    var lastDc: seq<int>
    var restartsToGo: nat
    var nextRestartNum: nat
    ghost var pending: Bits

    ghost predicate Valid()
      reads this
    {
      && DecoderKnows(tables, ts)
      && Holds(putBuffer, putBits, pending) && |pending| <= 7
      && |lastDc| == scan.Comps() && nextRestartNum < 8
    }

    ghost function Position(): Pos
      reads this
    {
      Pos(lastDc, restartsToGo, nextRestartNum)
    }

    /** The committed stream and the bits not yet in it. */
    ghost function Output(): Sink
      requires dest.Valid()
      reads `pending, dest`sent, dest`buffer, dest`next, dest`free, dest.buffer
    {
      Sink(dest.Stream(), pending)
    }

    constructor (scan: Scan, dest: Destination)
      ensures Valid() && this.scan == scan && this.dest == dest
    {
      NothingDerived();
      this.scan, this.dest := scan, dest;
      ts := Tables(seq(NUM_HUFF_TBLS, _ => NO_TABLE), seq(NUM_HUFF_TBLS, _ => NO_TABLE));
      tables := DecoderTables(seq(NUM_HUFF_TBLS, _ => EmptyTable()), seq(NUM_HUFF_TBLS, _ => EmptyTable()));
      putBuffer, putBits, pending := 0, 0, [];
      lastDc, restartsToGo, nextRestartNum := Zeros(scan.Comps()), 0, 0;
    }

    /**
     start_pass_huff for an output pass: derive the tables the scan uses and reset
     everything. It succeeds exactly when all these tables are usable.
     */
    method StartPass(dcTables: seq<Option<HuffTable>>, acTables: seq<Option<HuffTable>>) returns (ok: bool)
      requires Valid() && TableSlots(dcTables) && TableSlots(acTables)
      modifies this
      ensures Valid()
      ensures ok <==> AllUsable(scan, dcTables, acTables, scan.Comps())
      ensures ok ==> Position() == StartPos(scan) && pending == []
      ensures ok ==> AllLoaded(scan, tables, dcTables, acTables, scan.Comps())
    {
      hide DecoderKnows, AllUsable, AllLoaded, Usable, Holds;
      NothingToLoad(scan, tables, dcTables, acTables);
      ok := true;
      for ci := 0 to scan.Comps()
        invariant Valid() && ok
        invariant AllUsable(scan, dcTables, acTables, ci) && AllLoaded(scan, tables, dcTables, acTables, ci)
        invariant forall c :: 0 <= c < ci ==> lastDc[c] == 0
      {
        ghost var before := tables;
        ok := DeriveTables(dcTables, acTables, ci);
        LoadOneMore(scan, before, tables, dcTables, acTables, ci);
        if !ok {
          return;
        }
        lastDc := lastDc[ci := 0];
      }
      putBuffer, putBits, pending := 0, 0, [];
      restartsToGo, nextRestartNum := scan.restartInterval, 0;
      HoldsNothing();
      assert lastDc == Zeros(scan.Comps());
    }

    method DeriveTables(dcTables: seq<Option<HuffTable>>, acTables: seq<Option<HuffTable>>, ci: nat) returns (ok: bool)
      requires Valid() && TableSlots(dcTables) && TableSlots(acTables) && ci < scan.Comps()
      modifies `ts, `tables
      ensures Valid()
      ensures var dcTbl, acTbl := scan.dcTbl[ci], scan.acTbl[ci];
              && (ok <==> Usable(dcTables[dcTbl], true) && Usable(acTables[acTbl], false))
              && (ok ==> tables.dc == old(tables).dc[dcTbl := dcTables[dcTbl].value])
              && (ok ==> tables.ac == old(tables).ac[acTbl := acTables[acTbl].value])
    {
      hide DecoderKnows, Holds, Usable;
      ok := DeriveTable(dcTables, true, scan.dcTbl[ci]);
      if ok {
        ok := DeriveTable(acTables, false, scan.acTbl[ci]);
      }
    }

    method DeriveTable(from: seq<Option<HuffTable>>, isDC: bool, tbl: nat) returns (ok: bool)
      requires Valid() && TableSlots(from) && tbl < NUM_HUFF_TBLS
      modifies `ts, `tables
      ensures Valid()
      ensures ok <==> Usable(from[tbl], isDC)
      ensures !ok ==> tables == old(tables)
      ensures ok && isDC ==> tables == old(tables).(dc := old(tables).dc[tbl := from[tbl].value])
      ensures ok && !isDC ==> tables == old(tables).(ac := old(tables).ac[tbl := from[tbl].value])
    {
      var derived := MakeDerivedTable(from, isDC, tbl);
      ok := derived.Some?;
      if ok {
        SetTable(isDC, tbl, from[tbl].value, derived.value);
      }
    }

    method SetTable(isDC: bool, tbl: nat, ghost t: LegalTable, d: DerivedTable)
      requires Valid() && tbl < NUM_HUFF_TBLS && Derives(t, d)
      modifies `ts, `tables
      ensures Valid()
      ensures isDC ==> tables == old(tables).(dc := old(tables).dc[tbl := t])
      ensures !isDC ==> tables == old(tables).(ac := old(tables).ac[tbl := t])
    {
      hide Holds, LegalCode, CodedAt;
      if isDC {
        ts := ts.(dc := ts.dc[tbl := d]);
        tables := tables.(dc := tables.dc[tbl := t]);
      } else {
        ts := ts.(ac := ts.ac[tbl := d]);
        tables := tables.(ac := tables.ac[tbl := t]);
      }
    }

    /** finish_pass_huff: flush out the last data; suspending is an error here. */
    method FinishPass() returns (result: Outcome, ghost answers: seq<nat>)
      requires Valid() && dest.Valid()
      modifies this, dest, dest.buffer
      ensures result.Done? || result == Error(CantSuspend)
      ensures dest.log == old(dest.log) + [Called] + Events(answers)
      ensures if result.Done? then Open(answers) else Shut(answers)
      ensures result.Done? ==> Valid() && dest.Valid() && Output() == Flush(old(Output()))
      ensures ts == old(ts) && tables == old(tables)
    {
      hide DecoderKnows, Flush, Total, Asked, Taken;
      dest.log := dest.log + [Called];
      var w := new Writer(dest, putBuffer, putBits, pending, lastDc);
      result := w.FlushBits();
      answers := w.answers;
      if !result.Done? {
        result := Error(CantSuspend);
        return;
      }
      Commit(w);
    }

    /** The part of encode_mcu_huff that works on the local copy: restart marker and blocks. */
    method WriteMcu(w: Writer, mcu: Mcu) returns (result: Outcome)
      requires Valid() && w.dest == dest && w.Valid() && |mcu| == |scan.membership| && w.lastDc == lastDc
      modifies w, dest, dest.buffer
      ensures w.Kept() && (dest.buffer == old(dest.buffer) || fresh(dest.buffer))
      ensures result.Suspended? ==> w.Refused() && WithinStep(w.tried, old(w.State()), mcu)
      ensures result.Error? ==> Open(w.answers) && result.Uncodable()
      ensures result.Error? ==> !(StepInRange(scan, Position(), mcu) && ts.Covers(StepTokens(scan, Position(), mcu)))
      ensures result.Done? ==>
                && StepInRange(scan, Position(), mcu) && ts.Covers(StepTokens(scan, Position(), mcu))
                && w.Valid() && w.lastDc == StepPos(scan, Position(), mcu).lastDc
                && w.State() == SinkAfter(ts, scan, old(w.State()), Position(), mcu)
    {
      hide McuTokens, McuInRange, LastDcAfter, PutItem, PutAll, DecoderKnows, SinkAfter, Sendable, SentTo;
      hide Writer.Kept, Writer.Valid, Writer.State, Writer.Refused, WithinStep, Stopped;
      ghost var pos, s := Position(), w.State();
      if scan.restartInterval != 0 {
        if restartsToGo == 0 {
          result := w.EmitRestart(nextRestartNum);
          if !result.Done? {
            RefusedAtRestart(w.tried, s, mcu);
            return;
          }
          s := PutItem(s, Restart(nextRestartNum));
        }
      }
      assert w.lastDc == StartDc(scan, pos);
      StartsToWrite(w, s);
      result := EncodeBlocks(w, ts, scan, mcu, s);
      if result.Error? && McuInRange(scan, mcu, 0, StartDc(scan, pos)) {
        NotCoveredByPart(ts, MarkOf(scan, pos), McuTokens(scan, mcu, 0, StartDc(scan, pos)));
      }
      StoppedMeans(w, s, mcu, old(w.State()), result);
      if result.Done? {
        WroteMeans(w, ts, s, McuTokens(scan, mcu, 0, StartDc(scan, pos)));
        StepInTwoParts(ts, scan, old(w.State()), pos, mcu);
      }
    }

    /** These bytes are the beginning of what the MCU makes of the stream. */
    ghost predicate WithinStep(tried: seq<byte>, s: Sink, mcu: Mcu)
      requires |lastDc| == scan.Comps() && |mcu| == |scan.membership| && nextRestartNum < 8
      reads this
    {
      ts.Covers(StepTokens(scan, Position(), mcu)) ==> tried <= SinkAfter(ts, scan, s, Position(), mcu).bytes
    }

    lemma StepSendsBlocks(mcu: Mcu)
      requires |lastDc| == scan.Comps() && |mcu| == |scan.membership| && nextRestartNum < 8
      requires ts.Covers(StepTokens(scan, Position(), mcu))
      ensures Sendable(ts, McuTokens(scan, mcu, 0, StartDc(scan, Position())))
    {
      NoMarksInMcu(scan, mcu, 0, StartDc(scan, Position()));
      CoversParts(ts, MarkOf(scan, Position()), McuTokens(scan, mcu, 0, StartDc(scan, Position())));
    }

    lemma RefusedAtRestart(tried: seq<byte>, s: Sink, mcu: Mcu)
      requires |lastDc| == scan.Comps() && |mcu| == |scan.membership| && nextRestartNum < 8
      requires RestartDue(scan, Position()) && tried <= PutItem(s, Restart(nextRestartNum)).bytes
      ensures WithinStep(tried, s, mcu)
    {
      hide PutItem, SinkAfter, StepTokens, McuTokens, Sendable, SentTo;
      if ts.Covers(StepTokens(scan, Position(), mcu)) {
        StepSendsBlocks(mcu);
        StepInTwoParts(ts, scan, s, Position(), mcu);
        SentNothing(ts, PutItem(s, Restart(nextRestartNum)), McuTokens(scan, mcu, 0, StartDc(scan, Position())));
        SentToGrows(ts, PutItem(s, Restart(nextRestartNum)), [], McuTokens(scan, mcu, 0, StartDc(scan, Position())));
      }
    }

    lemma StoppedMeans(w: Writer, s': Sink, mcu: Mcu, s: Sink, result: Outcome)
      requires |lastDc| == scan.Comps() && |mcu| == |scan.membership| && nextRestartNum < 8
      requires s' == if RestartDue(scan, Position()) then PutItem(s, Restart(nextRestartNum)) else s
      requires Stopped(w, ts, s', McuTokens(scan, mcu, 0, StartDc(scan, Position())), result)
      ensures result.Suspended? ==> w.Refused() && WithinStep(w.tried, s, mcu)
      ensures result.Error? ==> Open(w.answers) && result.Uncodable()
    {
      hide PutItem, SinkAfter, StepTokens, McuTokens, Sendable, SentTo, Writer.Refused, Open;
      if ts.Covers(StepTokens(scan, Position(), mcu)) {
        StepSendsBlocks(mcu);
        StepInTwoParts(ts, scan, s, Position(), mcu);
      }
    }

    lemma StartsToWrite(w: Writer, s: Sink)
      requires Valid() && w.Valid() && w.State() == s
      ensures ShortCodes(ts) && Wrote(w, ts, s, [])
    {
      DerivedCodesAreShort(tables, ts);
      SendNothing(ts, s);
    }

    /**
     encode_mcu_huff. Done: the MCU is coded. Error: it cannot be coded. Suspended: a buffer was
     refused; nothing in the encoder has changed, and the stream has grown, by the beginning of the
     MCU's own bytes, exactly when a buffer was taken before that. `answers` is what the application
     answered.
     */
    method EncodeMcu(mcu: Mcu) returns (result: Outcome, ghost answers: seq<nat>)
      requires Valid() && dest.Valid() && |mcu| == |scan.membership|
      modifies this, dest, dest.buffer
      ensures Valid() && dest.Valid() && (dest.buffer == old(dest.buffer) || fresh(dest.buffer))
      ensures ts == old(ts) && tables == old(tables)
      ensures dest.log == old(dest.log) + [Called] + Events(answers) && Foretold(old(dest.plan), answers, dest.plan)
      ensures if result.Suspended? then Shut(answers) else Open(answers)
      ensures !result.Done? ==> unchanged(this)
      ensures !result.Done? ==> if Taken(answers) then |old(dest.Stream())| < |dest.Stream()|
                                else dest.Stream() == old(dest.Stream())
      ensures result.Error? ==>
                && result.Uncodable()
                && !(StepInRange(scan, old(Position()), mcu) && ts.Covers(StepTokens(scan, old(Position()), mcu)))
      ensures result.Done? ==>
                && StepInRange(scan, old(Position()), mcu) && ts.Covers(StepTokens(scan, old(Position()), mcu))
                && Position() == StepPos(scan, old(Position()), mcu)
                && Output() == SinkAfter(ts, scan, old(Output()), old(Position()), mcu)
      ensures StepInRange(scan, old(Position()), mcu) && ts.Covers(StepTokens(scan, old(Position()), mcu)) ==>
                Accounted(old(dest.Stream()), old(dest.free), answers, dest.Stream(), dest.free,
                          SinkAfter(ts, scan, old(Output()), old(Position()), mcu).bytes)
    {
      hide *;
      dest.log := dest.log + [Called];
      CanStart();
      var w := new Writer(dest, putBuffer, putBits, pending, lastDc);
      StartedWith(w);
      result := WriteMcu(w, mcu);
      answers := w.answers;
      KeptMeans(w, result);
      if result.Done? {
        DoneAccounts(w);
        Complete(w, mcu);
      } else if result.Suspended? {
        RefusedAccounts(w, old(Output()), mcu);
      }
    }

    lemma CanStart()
      requires Valid()
      ensures Holds(putBuffer, putBits, pending) && |pending| <= 7 && |lastDc| == scan.Comps() && nextRestartNum < 8
      ensures Position() == Pos(lastDc, restartsToGo, nextRestartNum)
      ensures dest.Valid() ==> Output() == Sink(dest.Stream(), pending)
    {
    }

    lemma StartedWith(w: Writer)
      requires w.Kept() && w.answers == []
      ensures w.dest.log == w.log
    {
    }

    lemma KeptMeans(w: Writer, result: Outcome)
      requires w.Kept() && (result.Suspended? ==> w.Refused()) && (result.Error? ==> Open(w.answers))
      requires result.Done? ==> w.Valid()
      ensures w.dest.Valid() && w.dest.log == w.log + Events(w.answers) && Foretold(w.plan, w.answers, w.dest.plan)
      ensures if Taken(w.answers) then |w.start| < |w.dest.Stream()| else w.dest.Stream() == w.start
      ensures if result.Suspended? then Shut(w.answers) else Open(w.answers)
    {
      hide Events, Foretold, Taken, Shut, Open, Holds, Asked, Total;
    }

    /** Completed MCU, so update state. */
    method Complete(w: Writer, ghost mcu: Mcu)
      requires Valid() && w.dest == dest && w.Valid() && |mcu| == |scan.membership|
      requires w.lastDc == StepPos(scan, Position(), mcu).lastDc
      modifies this, dest`next, dest`free
      ensures Valid() && dest.Valid() && ts == old(ts) && tables == old(tables)
      ensures Position() == StepPos(scan, old(Position()), mcu) && Output() == w.State() && dest.free == w.free
      ensures dest.Stream() == w.tried
    {
      hide DecoderKnows, Holds, LastDcAfter, Events, Foretold, Taken, Shut, Open, Asked, Total;
      Commit(w);
      CountRestart();
    }

    lemma DoneAccounts(w: Writer)
      requires w.Valid()
      ensures w.State().bytes == w.tried && Accounted(w.start, w.room, w.answers, w.tried, w.free, w.tried)
    {
    }

    lemma RefusedAccounts(w: Writer, s: Sink, mcu: Mcu)
      requires |lastDc| == scan.Comps() && |mcu| == |scan.membership| && nextRestartNum < 8
      requires w.Kept() && w.Refused() && WithinStep(w.tried, s, mcu)
      ensures ts.Covers(StepTokens(scan, Position(), mcu)) ==>
                Accounted(w.start, w.room, w.answers, w.dest.Stream(), w.dest.free,
                          SinkAfter(ts, scan, s, Position(), mcu).bytes)
    {
      hide SinkAfter, StepTokens, Total, Asked, Taken, Events, Foretold;
    }

    method Commit(w: Writer)
      requires w.dest == dest && w.Valid()
      modifies `putBuffer, `putBits, `pending, `lastDc, dest`next, dest`free
      ensures dest.Valid() && Holds(putBuffer, putBits, pending) && |pending| <= 7
      ensures Output() == old(w.State()) && lastDc == w.lastDc
    {
      dest.next, dest.free := w.next, w.free;
      putBuffer, putBits, pending, lastDc := w.putBuffer, w.putBits, w.pending, w.lastDc;
    }

    /** Update restart-interval state too. */
    method CountRestart()
      requires nextRestartNum < 8
      modifies `restartsToGo, `nextRestartNum
      ensures restartsToGo == NextToGo(scan, old(restartsToGo)) && nextRestartNum < 8
      ensures nextRestartNum ==
                if scan.restartInterval != 0 && old(restartsToGo) == 0 then (old(nextRestartNum) + 1) % 8
                else old(nextRestartNum)
    {
      if scan.restartInterval != 0 {
        if restartsToGo == 0 {
          restartsToGo := scan.restartInterval;
          nextRestartNum := (nextRestartNum + 1) % 8;
        }
        restartsToGo := restartsToGo - 1;
      }
    }
  }

  lemma SentNothing(ts: Coder, s: Sink, more: seq<Token>)
    ensures Sendable(ts, []) && SentTo(ts, s, []) == s && [] + more == more
  {
    SendNothing(ts, s);
  }

  lemma WroteMeans(w: Writer, ts: Coder, s: Sink, tokens: seq<Token>)
    requires Wrote(w, ts, s, tokens)
    ensures w.Valid() && Sendable(ts, tokens) && w.State() == SentTo(ts, s, tokens)
  {
  }
}
