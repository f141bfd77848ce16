/**
 The limit of suspension, shown on a scan of two MCUs: a refusal after a buffer was taken
 repeats bytes in the stream.
 */
module LostBytes {
  import opened BitString
  import opened ByteStream
  import opened HuffmanCode
  import opened Tokens
  import opened SequentialCode
  import opened SequentialScan
  import opened BitWriter
  import opened BlockEncoder
  import opened SequentialEncoder
  import opened ScanDriver

  /** One symbol, 0, with the code 0. */
  function OneSymbol(): (t: HuffTable)
    ensures t.WellFormed()
  {
    HuffTable(seq(17, l => if l == 1 then 1 else 0), seq(256, _ => 0))
  }

  lemma OneSymbolIsLegal()
    ensures LegalCode(OneSymbol().bits) && SymbolsFit(OneSymbol(), 15) && SymbolsFit(OneSymbol(), 255)
    ensures CountBelow(OneSymbol().bits, 17) == 1 && InClass(OneSymbol().bits, 1, 0)
  {
    OneSymbolBelow(OneSymbol().bits, 17);
    var bits := OneSymbol().bits;
    assert CountBelow(bits, 1) == 0 && CountBelow(bits, 2) == CountBelow(bits, 1) + bits[1];
  }

  /** Only the length 1 occurs, and once. */
  predicate OneShortCode(bits: seq<nat>) {
    |bits| == 17 && forall l :: 1 <= l <= 16 ==> bits[l] == if l == 1 then 1 else 0
  }

  lemma {:induction false} OneSymbolBelow(bits: seq<nat>, l: nat)
    requires OneShortCode(bits) && 2 <= l <= 17
    ensures CountBelow(bits, l) == 1 && (l <= 16 ==> FirstCode(bits, l) == Pow2(l - 1))
    ensures forall k :: 1 <= k < l ==> Fits(bits, k)
  {
    if l == 2 {
      assert CountBelow(bits, 1) == 0 && FirstCode(bits, 1) == 0;
      assert Pow2(1) == 2;
    } else {
      hide CountBelow, FirstCode, Fits, Pow2;
      OneSymbolBelow(bits, l - 1);
      NoSymbolAt(bits, l);
    }
  }

  lemma NoSymbolAt(bits: seq<nat>, l: nat)
    requires |bits| == 17 && 3 <= l <= 17 && bits[l - 1] == 0 && FirstCode(bits, l - 1) == Pow2(l - 2)
    ensures CountBelow(bits, l) == CountBelow(bits, l - 1) && Fits(bits, l - 1)
    ensures l <= 16 ==> FirstCode(bits, l) == Pow2(l - 1)
  {
    assert Pow2(l - 1) == 2 * Pow2(l - 2);
  }

  /** One component, one block an MCU, a restart marker after each. */
  function Example(): (scan: Scan) {
    ScanHeader(seq(DCTSIZE2, i => i), [0], [0], [0], 1)
  }

  function Flat(): (mcu: Mcu)
    ensures |mcu| == 1
  {
    [Zeros(DCTSIZE2)]
  }

  /** What a flat block after a flat block sends. */
  function FlatTokens(): seq<Token> {
    [Symbol(true, 0, 0), Symbol(false, 0, 0)]
  }

  lemma {:induction false} OnlyEob(k: nat, r: nat)
    requires 1 <= k <= DCTSIZE2 && (k == DCTSIZE2 ==> r > 0)
    ensures AcTokens(Zeros(DCTSIZE2), 0, k, r) == [Symbol(false, 0, 0)]
    decreases DCTSIZE2 - k
  {
    if k < DCTSIZE2 {
      OnlyEob(k + 1, r + 1);
    }
  }

  lemma FlatMcu()
    ensures McuInRange(Example(), Flat(), 0, [0]) && McuTokens(Example(), Flat(), 0, [0]) == FlatTokens()
    ensures LastDcAfter(Example(), Flat(), 0, [0]) == [0]
  {
    assert Zigzag(Example().order, Zeros(DCTSIZE2)) == Zeros(DCTSIZE2);
    OnlyEob(1, 0);
    assert McuTokens(Example(), Flat(), 1, [0]) == [] && LastDcAfter(Example(), Flat(), 1, [0]) == [0];
    assert [0][0 := 0] == [0];
    assert NumBits(Abs(0)) == 0;
  }

  /** The decoder's tables are all that symbol, in slot 0. */
  predicate OneSymbolTables(tables: Decoder) {
    tables.dc[0] == OneSymbol() && tables.ac[0] == OneSymbol()
  }

  lemma FlatIsCovered(tables: Decoder, ts: Coder)
    requires OneSymbolTables(tables) && DecoderKnows(tables, ts)
    ensures Sendable(ts, FlatTokens()) && |ts.dc[0].CodeBits(0)| == 1 && |ts.ac[0].CodeBits(0)| == 1
  {
    assert Knows(tables.dc[0], ts, true, 0) && Knows(tables.ac[0], ts, false, 0);
    OneSymbolIsLegal();
    CodeOfOne(ts.dc[0]);
    CodeOfOne(ts.ac[0]);
  }

  lemma CodeOfOne(d: DerivedTable)
    requires Derives(OneSymbol(), d)
    ensures d.ehufsi[0] == 1
  {
    OneSymbolIsLegal();
    assert CodedAt(OneSymbol(), d, OneSymbol().huffval[0], 0);
  }

  /** The first MCU fits into the pending bits. */
  lemma FirstMcu(tables: Decoder, ts: Coder)
    requires OneSymbolTables(tables) && DecoderKnows(tables, ts)
    ensures var scan, pos := Example(), StartPos(Example());
            && pos == Pos([0], 1, 0) && !RestartDue(scan, pos)
            && StepInRange(scan, pos, Flat()) && ts.Covers(StepTokens(scan, pos, Flat()))
            && SinkAfter(ts, scan, EMPTY, pos, Flat()).bytes == []
            && StepPos(scan, pos, Flat()) == Pos([0], 0, 0)
  {
    var scan, pos := Example(), StartPos(Example());
    assert Zeros(1) == [0];
    FlatMcu();
    FlatIsCovered(tables, ts);
    hide McuTokens, McuInRange, LastDcAfter;
    assert StepTokens(scan, pos, Flat()) == FlatTokens();
    TwoTokens(ts, EMPTY);
    StepInTwoParts(ts, scan, EMPTY, pos, Flat());
  }

  lemma TwoTokens(ts: Coder, s: Sink)
    requires Sendable(ts, FlatTokens()) && |ts.dc[0].CodeBits(0)| == 1 && |ts.ac[0].CodeBits(0)| == 1
    requires |s.pending| < 6
    ensures SentTo(ts, s, FlatTokens()).bytes == s.bytes
  {
    var a, b := Symbol(true, 0, 0), Symbol(false, 0, 0);
    assert FlatTokens() == [a] + [b];
    SendableParts(ts, [a], [b]);
    assert [] + [a] == [a];
    SendNothing(ts, s);
    SendOneMore(ts, s, [], a);
    SendOneMore(ts, s, [a], b);
  }

  /** The second brings a restart marker, and so at least two bytes. */
  lemma SecondMcu(tables: Decoder, ts: Coder, s: Sink)
    requires OneSymbolTables(tables) && DecoderKnows(tables, ts)
    ensures var scan, pos := Example(), Pos([0], 0, 0);
            && StepInRange(scan, pos, Flat()) && ts.Covers(StepTokens(scan, pos, Flat()))
            && |SinkAfter(ts, scan, s, pos, Flat()).bytes| >= |s.bytes| + 2
  {
    var scan, pos := Example(), Pos([0], 0, 0);
    assert Zeros(1) == [0] && RestartDue(scan, pos) && StartDc(scan, pos) == [0];
    FlatMcu();
    FlatIsCovered(tables, ts);
    hide McuTokens, McuInRange, LastDcAfter;
    var s' := PutItem(s, Restart(0));
    StepInTwoParts(ts, scan, s, pos, Flat());
    SentNothing(ts, s', FlatTokens());
    SentToGrows(ts, s', [], FlatTokens());
  }

  /** But no more than four. */
  lemma SecondMcuIsShort(tables: Decoder, ts: Coder, s: Sink)
    requires OneSymbolTables(tables) && DecoderKnows(tables, ts) && |s.pending| < 8
    ensures var scan, pos := Example(), Pos([0], 0, 0);
            && StepInRange(scan, pos, Flat()) && ts.Covers(StepTokens(scan, pos, Flat()))
            && |SinkAfter(ts, scan, s, pos, Flat()).bytes| <= |s.bytes| + 4
  {
    var scan, pos := Example(), Pos([0], 0, 0);
    assert Zeros(1) == [0] && RestartDue(scan, pos) && StartDc(scan, pos) == [0];
    FlatMcu();
    FlatIsCovered(tables, ts);
    hide McuTokens, McuInRange, LastDcAfter;
    var s' := PutItem(s, Restart(0));
    ShortMarker(s);
    StepInTwoParts(ts, scan, s, pos, Flat());
    TwoTokens(ts, s');
  }

  lemma ShortMarker(s: Sink)
    requires |s.pending| < 8
    ensures PutItem(s, Restart(0)).pending == [] && |PutItem(s, Restart(0)).bytes| <= |s.bytes| + 4
  {
    var b := s.pending + Ones(7);
    if |b| >= 8 {
      assert Pack(b[8..]) == [];
    }
  }

  /** With room for five bytes the call asks for no buffer, and so it is done. */
  lemma GoesThrough(before: seq<byte>, answers: seq<nat>, stream: seq<byte>, free: nat, after: seq<byte>)
    requires Accounted(before, 5, answers, stream, free, after) && |after| <= |before| + 4
    ensures answers == [] && !Shut(answers)
  {
    RoomIsEnough(before, 5, answers, stream, free, after);
  }

  lemma PlannedAnswers(answers: seq<nat>, left: seq<nat>)
    requires Foretold([1, 0], answers, left)
    ensures |answers| >= 2 ==> answers[0] == 1 && answers[1] == 0
    ensures |answers| == 1 ==> answers[0] == 1
    ensures |answers| <= 1 ==> Total(answers) <= 1
  {
    if |answers| >= 2 {
      assert answers[..2] == [1, 0];
    } else if |answers| == 1 {
      assert (answers + left)[0] == [1, 0][0];
      assert answers[..0] == [] && Total(answers) == Total([]) + answers[0];
    }
  }

  /** A plan to take one buffer and refuse the next leads to just that when two bytes are due. */
  lemma PlanUnfolds(before: seq<byte>, answers: seq<nat>, left: seq<nat>, stream: seq<byte>, free: nat,
                    after: seq<byte>,
                    suspended: bool)
    requires Foretold([1, 0], answers, left) && Accounted(before, 1, answers, stream, free, after)
    requires |after| >= |before| + 2 && free > 0
    requires if suspended then Shut(answers) else Open(answers) && stream == after
    ensures suspended && Taken(answers) && answers == [1, 0] && stream <= after
  {
    hide Foretold, Total, Asked;
    PlannedAnswers(answers, left);
  }

  /** The two MCUs in one run. */
  lemma BothMcus(tables: Decoder, ts: Coder)
    requires OneSymbolTables(tables) && DecoderKnows(tables, ts)
    ensures var scan, pos, both := Example(), StartPos(Example()), [Flat(), Flat()];
            && ts.Covers(RunTokens(scan, pos, both))
            && ts.Covers(StepTokens(scan, pos, Flat())) && ts.Covers(StepTokens(scan, Pos([0], 0, 0), Flat()))
            && RunSink(ts, scan, EMPTY, pos, both)
                 == SinkAfter(ts, scan, SinkAfter(ts, scan, EMPTY, pos, Flat()), Pos([0], 0, 0), Flat())
  {
    var scan, pos, next, both := Example(), StartPos(Example()), Pos([0], 0, 0), [Flat(), Flat()];
    FirstMcu(tables, ts);
    SecondMcu(tables, ts, SinkAfter(ts, scan, EMPTY, pos, Flat()));
    hide StepTokens, SinkAfter, StepPos;
    var last := StepPos(scan, next, Flat());
    assert both[1..] == [Flat()] && [Flat()][1..] == [];
    var second := RunTokens(scan, next, [Flat()]);
    assert second == StepTokens(scan, next, Flat()) + [] == StepTokens(scan, next, Flat());
    assert RunTokens(scan, pos, both) == StepTokens(scan, pos, Flat()) + second;
    ItemsConcat(ts, StepTokens(scan, pos, Flat()), second);
  }

  lemma CanUse(tables: seq<Option<HuffTable>>)
    requires tables == [Some(OneSymbol()), None, None, None]
    ensures TableSlots(tables) && AllUsable(Example(), tables, tables, Example().Comps())
  {
    OneSymbolIsLegal();
  }

  lemma AreLoaded(d: Decoder, tables: seq<Option<HuffTable>>)
    requires tables == [Some(OneSymbol()), None, None, None] && TableSlots(tables)
    requires AllLoaded(Example(), d, tables, tables, Example().Comps())
    ensures OneSymbolTables(d)
  {
    assert 0 < Example().Comps() && Example().dcTbl[0] == 0 && Example().acTbl[0] == 0;
  }

  lemma ExampleShape()
    ensures |Example().membership| == 1 && Example().Comps() == 1 && EMPTY == Sink([], [])
    ensures StartPos(Example()) == Pos([0], 1, 0)
  {
    assert Zeros(1) == [0];
  }

  /** The call for the first MCU asks for no buffer. */
  lemma NothingAsked(answers: seq<nat>, left: seq<nat>, free: nat, stream: seq<byte>)
    requires Accounted([], 1, answers, stream, free, []) && Foretold([1, 0], answers, left)
    ensures answers == [] && left == [1, 0] && !Shut(answers) && (stream == [] ==> free == 1)
  {
    RoomIsEnough([], 1, answers, stream, free, []);
    assert [] + left == left;
  }

  /** The first MCU goes through without a request, leaving one byte of space and a marker due. */
  method FirstCall() returns (enc: HuffEncoder)
    ensures fresh(enc) && fresh(enc.dest) && fresh(enc.dest.buffer) && enc.Valid() && enc.dest.Valid()
    ensures enc.scan == Example() && OneSymbolTables(enc.tables) && DecoderKnows(enc.tables, enc.ts)
    ensures enc.dest.log == [Called] && enc.dest.free == 1 && enc.dest.plan == [1, 0]
    ensures enc.Position() == Pos([0], 0, 0)
    ensures enc.ts.Covers(StepTokens(Example(), StartPos(Example()), Flat()))
    ensures enc.Output() == SinkAfter(enc.ts, Example(), EMPTY, StartPos(Example()), Flat()) && enc.Output().bytes == []
  {
    hide *;
    var tables := [Some(OneSymbol()), None, None, None];
    CanUse(tables);
    ExampleShape();
    var dest := new Destination(1, [1, 0]);
    enc := new HuffEncoder(Example(), dest);
    var ok := enc.StartPass(tables, tables);
    AreLoaded(enc.tables, tables);
    StartsScan(enc, []);
    FirstMcu(enc.tables, enc.ts);
    ghost var answers;
    var result;
    result, answers := enc.EncodeMcu(Flat());
    NothingAsked(answers, dest.plan, dest.free, dest.Stream());
    LogOfExample();
    OutputIsSink(enc);
  }

  /**
   Suspension is not invisible without its condition. The application has a buffer of one byte,
   takes it once and refuses it once, both during the second MCU; that call is suspended, and when
   it is repeated with room for five bytes, it is done without a request, and the stream holds the
   first of the MCU's bytes, and then all of them. The log says so: there are three calls, and the
   two answers come during the second one.
   */
  method RepeatedBytes() returns (enc: HuffEncoder, second: Outcome, third: Outcome, ghost extra: seq<byte>)
    ensures fresh(enc) && fresh(enc.dest) && enc.Valid() && enc.dest.Valid()
    ensures second == Suspended && third == Done && extra != []
    ensures enc.dest.log == [Called, Called, Answered(1), Answered(0), Called] && Lost(enc.dest.log)
    ensures && enc.ts.Covers(RunTokens(Example(), StartPos(Example()), [Flat(), Flat()]))
            && var clean := RunSink(enc.ts, Example(), EMPTY, StartPos(Example()), [Flat(), Flat()]);
               extra <= clean.bytes && enc.dest.Stream() == extra + clean.bytes
  {
    hide *;
    ExampleShape();
    enc := FirstCall();
    BothMcus(enc.tables, enc.ts);
    ghost var pending, clean := enc.Output().pending,
        SinkAfter(enc.ts, Example(), enc.Output(), Pos([0], 0, 0), Flat());
    OutputIsSink(enc);
    SecondMcu(enc.tables, enc.ts, enc.Output());
    ghost var answers;
    second, answers := enc.EncodeMcu(Flat());
    OutputIsSink(enc);
    PlanUnfolds([], answers, enc.dest.plan, enc.dest.Stream(), enc.dest.free, clean.bytes, second.Suspended?);
    extra := enc.dest.Stream();
    enc.dest.Drain(5);
    OutputIsSink(enc);
    SecondMcuIsShort(enc.tables, enc.ts, enc.Output());
    AddedOnTop(enc.ts, extra, pending);
    third, answers := enc.EncodeMcu(Flat());
    LogOfExample();
    GoesThrough(extra, answers, enc.dest.Stream(), enc.dest.free, extra + clean.bytes);
    OutputIsSink(enc);
  }

  lemma LogOfExample()
    ensures [Called] + [Called] + Events([1, 0]) == [Called, Called, Answered(1), Answered(0)]
    ensures var log := [Called, Called, Answered(1), Answered(0), Called];
            [Called, Called, Answered(1), Answered(0)] + [Called] + Events([]) == log && Lost(log)
  {
    var log := [Called, Called, Answered(1), Answered(0), Called];
    assert TakenThenRefused(log[2], log[3]);
  }

  /** An MCU adds the same bytes to any stream. */
  lemma AddedOnTop(ts: Coder, extra: seq<byte>, pending: Bits)
    requires ts.Covers(StepTokens(Example(), Pos([0], 0, 0), Flat()))
    requires |Example().membership| == 1 && Example().Comps() == 1
    ensures SinkAfter(ts, Example(), Sink(extra, pending), Pos([0], 0, 0), Flat()).bytes
         == extra + SinkAfter(ts, Example(), Sink([], pending), Pos([0], 0, 0), Flat()).bytes
  {
    StepIsWellNumbered(ts, Example(), Pos([0], 0, 0), Flat());
    hide PutAll, StepTokens;
    PutAllAppends(Sink(extra, pending), Items(ts, StepTokens(Example(), Pos([0], 0, 0), Flat())));
  }
}
