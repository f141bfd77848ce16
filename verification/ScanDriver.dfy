/**
 A whole scan through the sequential encoder: the caller's loop of jccoefct.c that
 retries a refused MCU, and what the application receives in the end.
 */
module ScanDriver {
  import opened BitString
  import opened ByteStream
  import opened HuffmanCode
  import opened Tokens
  import opened SequentialScan
  import opened BitWriter
  import opened SequentialEncoder

  /** A call had a buffer taken and was refused later. */
  ghost predicate Lost(log: seq<Event>) {
    exists i, j :: 0 <= i && j == i + 1 && j < |log| && TakenThenRefused(log[i], log[j])
  }

  predicate TakenThenRefused(a: Event, b: Event) {
    a.Answered? && a.size > 0 && b == Answered(0)
  }

  /** A destination that never refuses loses nothing, nor does one that never takes a buffer during a call. */
  lemma NeverLost(log: seq<Event>)
    ensures Answered(0) !in log ==> !Lost(log)
    ensures (forall e :: e in log && e.Answered? ==> e.size == 0) ==> !Lost(log)
  {
  }

  lemma LostJoined(log: seq<Event>, call: seq<Event>)
    requires call != [] && call[0] == Called
    ensures Lost(log + call) <==> Lost(log) || Lost(call)
  {
    var all := log + call;
    if i, j :| 0 <= i && j == i + 1 && j < |log| && TakenThenRefused(log[i], log[j]) {
      assert all[i] == log[i] && all[j] == log[j];
    }
    if i, j :| 0 <= i && j == i + 1 && j < |call| && TakenThenRefused(call[i], call[j]) {
      assert all[|log| + i] == call[i] && all[|log| + j] == call[j];
    }
    if i, j :| 0 <= i && j == i + 1 && j < |all| && TakenThenRefused(all[i], all[j]) {
      if j < |log| {
        assert log[i] == all[i] && log[j] == all[j];
      } else if i >= |log| {
        assert call[i - |log|] == all[i] && call[j - |log|] == all[j];
      }
    }
  }

  /** Within one call, something is lost exactly when it is refused after a buffer was taken. */
  lemma LostInCall(answers: seq<nat>)
    requires Open(answers) || Shut(answers)
    ensures Lost([Called] + Events(answers)) <==> Shut(answers) && Taken(answers)
  {
    var call, n := [Called] + Events(answers), |answers|;
    assert forall k :: 0 <= k < n ==> call[k + 1] == Answered(answers[k]);
    if Open(answers) {
      assert !Lost(call);
    } else {
      assert forall k :: 0 <= k < n - 1 ==> answers[k] == answers[..n - 1][k] && answers[k] > 0;
      if Taken(answers) {
        assert TakenThenRefused(call[n - 1], call[n]);
      }
    }
  }

  lemma LostStep(log: seq<Event>, answers: seq<nat>)
    requires Open(answers) || Shut(answers)
    ensures Lost(log + ([Called] + Events(answers))) <==> Lost(log) || (Shut(answers) && Taken(answers))
  {
    hide Lost, Open, Shut, Taken, Events;
    LostJoined(log, [Called] + Events(answers));
    LostInCall(answers);
  }

  /**
   With room: if the first buffer an MCU's call is given is longer than the MCU's bytes, the call
   asks for no second one; if the space left at its start is, the call does not ask at all.
   */
  lemma RoomIsEnough(before: seq<byte>, free: nat, answers: seq<nat>, stream: seq<byte>, left: nat, after: seq<byte>)
    requires Accounted(before, free, answers, stream, left, after)
    ensures |after| - |before| < free ==> answers == []
    ensures |answers| > 0 && |after| - |before| < free + answers[0] ==> |answers| == 1
    ensures |answers| > 0 && |after| - |before| < free + answers[0] ==> !(Shut(answers) && Taken(answers))
  {
    if |answers| > 1 {
      FirstIsAsked(answers);
    }
  }

  lemma {:induction false} FirstIsAsked(answers: seq<nat>)
    requires |answers| > 1
    ensures Asked(answers) >= answers[0]
    decreases |answers|
  {
    var init := answers[..|answers| - 1];
    if |init| == 1 {
      assert init[..0] == [];
      assert Total(init) == Total([]) + init[0];
    } else {
      FirstIsAsked(init);
    }
  }

  /**
   The stream against that of a run without refusals (`clean`): the same, unless a
   call was refused after a buffer had been taken; then it is longer.
   */
  predicate Follows(stream: seq<byte>, pending: Bits, clean: Sink, lost: bool) {
    && pending == clean.pending
    && (if lost then |stream| > |clean.bytes| else stream == clean.bytes)
  }

  lemma FollowsStep(ts: Coder, scan: Scan, s: Sink, clean: Sink, lost: bool, pos: Pos, mcu: Mcu)
    requires |pos.lastDc| == scan.Comps() && |mcu| == |scan.membership| && pos.nextNum < 8
    requires ts.Covers(StepTokens(scan, pos, mcu))
    requires Follows(s.bytes, s.pending, clean, lost)
    ensures var s', clean' := SinkAfter(ts, scan, s, pos, mcu), SinkAfter(ts, scan, clean, pos, mcu);
            Follows(s'.bytes, s'.pending, clean', lost)
  {
    StepIsWellNumbered(ts, scan, pos, mcu);
    var items := Items(ts, StepTokens(scan, pos, mcu));
    hide PutAll, StepTokens;
    PutAllAppends(s, items);
    PutAllAppends(clean, items);
  }

  /** What is left of the run, from a given position. */
  ghost predicate Ahead(ts: Coder, scan: Scan, start: Pos, all: seq<Mcu>, s0: Sink, pos: Pos, rest: seq<Mcu>,
                        clean: Sink)
    requires |start.lastDc| == |pos.lastDc| == scan.Comps() && Shaped(scan, all) && Shaped(scan, rest)
    requires start.nextNum < 8 && pos.nextNum < 8
  {
    && (RunInRange(scan, pos, rest) <==> RunInRange(scan, start, all))
    && (ts.Covers(RunTokens(scan, pos, rest)) <==> ts.Covers(RunTokens(scan, start, all)))
    && RunPos(scan, pos, rest) == RunPos(scan, start, all)
    && (ts.Covers(RunTokens(scan, start, all)) ==>
          RunSink(ts, scan, clean, pos, rest) == RunSink(ts, scan, s0, start, all))
  }

  lemma AheadStep(ts: Coder, scan: Scan, start: Pos, all: seq<Mcu>, s0: Sink, pos: Pos, rest: seq<Mcu>, clean: Sink)
    requires |start.lastDc| == |pos.lastDc| == scan.Comps() && Shaped(scan, all) && Shaped(scan, rest) && rest != []
    requires start.nextNum < 8 && pos.nextNum < 8
    requires Ahead(ts, scan, start, all, s0, pos, rest, clean)
    ensures Shaped(scan, rest[1..])
    ensures !(StepInRange(scan, pos, rest[0]) && ts.Covers(StepTokens(scan, pos, rest[0]))) ==>
              !(RunInRange(scan, start, all) && ts.Covers(RunTokens(scan, start, all)))
    ensures StepInRange(scan, pos, rest[0]) && ts.Covers(StepTokens(scan, pos, rest[0])) ==>
              Ahead(ts, scan, start, all, s0, StepPos(scan, pos, rest[0]), rest[1..],
                    SinkAfter(ts, scan, clean, pos, rest[0]))
  {
    hide StepTokens, StepInRange, StepPos, SinkAfter;
    var step, more := StepTokens(scan, pos, rest[0]), RunTokens(scan, StepPos(scan, pos, rest[0]), rest[1..]);
    if ts.Covers(step + more) {
      CoversParts(ts, step, more);
    }
    if ts.Covers(step) && ts.Covers(more) {
      ItemsConcat(ts, step, more);
    }
  }

  /**
   One MCU, called again after every refusal; between the calls the application may
   drain the buffer. Suspended: the patience for refusals has run out.
   */
  method EncodeRetrying(enc: HuffEncoder, mcu: Mcu, patience: nat, ghost clean: Sink, ghost since: seq<Event>)
    returns (result: Outcome, left: nat)
    requires enc.Valid() && enc.dest.Valid() && |mcu| == |enc.scan.membership| && since <= enc.dest.log
    requires Follows(enc.dest.Stream(), enc.pending, clean, Lost(enc.dest.log[|since|..]))
    modifies enc, enc.dest, enc.dest.buffer
    ensures enc.Valid() && enc.dest.Valid() && (enc.dest.buffer == old(enc.dest.buffer) || fresh(enc.dest.buffer))
    ensures enc.ts == old(enc.ts) && enc.tables == old(enc.tables)
    ensures old(enc.dest.log) <= enc.dest.log && (result.Suspended? ==> EndsRefused(since, enc.dest.log))
    ensures var pos := old(enc.Position());
            var possible := StepInRange(enc.scan, pos, mcu) && enc.ts.Covers(StepTokens(enc.scan, pos, mcu));
            && (result.Error? ==> !possible && result.Uncodable())
            && (result.Done? ==>
                  && possible && enc.Position() == StepPos(enc.scan, pos, mcu)
                  && Follows(enc.dest.Stream(), enc.pending, SinkAfter(enc.ts, enc.scan, clean, pos, mcu),
                             Lost(enc.dest.log[|since|..])))
  {
    hide *;
    ghost var pos := enc.Position();
    PositionIsSound(enc);
    left := patience;
    while true
      invariant enc.Valid() && enc.dest.Valid() && since <= old(enc.dest.log) <= enc.dest.log
      invariant enc.dest.buffer == old(enc.dest.buffer) || fresh(enc.dest.buffer)
      invariant enc.ts == old(enc.ts) && enc.tables == old(enc.tables) && enc.Position() == pos
      invariant Follows(enc.dest.Stream(), enc.pending, clean, Lost(enc.dest.log[|since|..]))
      decreases left
    {
      ghost var s, log, answers := enc.Output(), enc.dest.log, [];
      OutputIsSink(enc);
      result, answers := enc.EncodeMcu(mcu);
      LogGrows(since, log, answers, enc.dest.log);
      OutputIsSink(enc);
      if result.Done? {
        DoneFollows(enc, s, clean, pos, mcu, log, since, answers);
        return;
      }
      StillFollows(enc, s, clean, log, since, answers);
      if result.Suspended? {
        ShutEndsRefused(since, log, answers);
      }
      if result.Error? || left == 0 {
        return;
      }
      var room: nat :| room > 0;
      enc.dest.Drain(room);
      left := left - 1;
    }
  }

  lemma PositionIsSound(enc: HuffEncoder)
    requires enc.Valid()
    ensures |enc.Position().lastDc| == enc.scan.Comps() && enc.Position().nextNum < 8
  {
  }

  lemma LogGrows(since: seq<Event>, log: seq<Event>, answers: seq<nat>, after: seq<Event>)
    requires since <= log && after == log + [Called] + Events(answers)
    ensures log <= after && after[|since|..] == log[|since|..] + ([Called] + Events(answers))
  {
  }

  lemma DoneFollows(enc: HuffEncoder, s: Sink, clean: Sink, pos: Pos, mcu: Mcu, log: seq<Event>, since: seq<Event>,
                    answers: seq<nat>)
    requires enc.Valid() && enc.dest.Valid() && since <= log && enc.dest.log == log + [Called] + Events(answers)
    requires Open(answers) && Follows(s.bytes, s.pending, clean, Lost(log[|since|..]))
    requires |pos.lastDc| == enc.scan.Comps() && |mcu| == |enc.scan.membership| && pos.nextNum < 8
    requires enc.ts.Covers(StepTokens(enc.scan, pos, mcu)) && enc.Output() == SinkAfter(enc.ts, enc.scan, s, pos, mcu)
    ensures Follows(enc.dest.Stream(), enc.pending, SinkAfter(enc.ts, enc.scan, clean, pos, mcu),
                    Lost(enc.dest.log[|since|..]))
  {
    hide Lost, StepTokens, SinkAfter, Destination.Stream, Follows, Open;
    LogGrows(since, log, answers, enc.dest.log);
    LostStep(log[|since|..], answers);
    OpenIsNotShut(answers);
    FollowsStep(enc.ts, enc.scan, s, clean, Lost(log[|since|..]), pos, mcu);
  }

  lemma OpenIsNotShut(answers: seq<nat>)
    requires Open(answers)
    ensures !Shut(answers)
  {
  }

  lemma StillFollows(enc: HuffEncoder, s: Sink, clean: Sink, log: seq<Event>, since: seq<Event>, answers: seq<nat>)
    requires enc.dest.Valid() && since <= log && enc.dest.log == log + [Called] + Events(answers)
    requires Open(answers) || Shut(answers)
    requires Follows(s.bytes, s.pending, clean, Lost(log[|since|..])) && enc.pending == s.pending
    requires if Taken(answers) then |s.bytes| < |enc.dest.Stream()| else enc.dest.Stream() == s.bytes
    ensures Shut(answers) ==> Follows(enc.dest.Stream(), enc.pending, clean, Lost(enc.dest.log[|since|..]))
  {
    hide Lost, Destination.Stream, Open, Shut, Taken, Events;
    LogGrows(since, log, answers, enc.dest.log);
    LostStep(log[|since|..], answers);
  }

  /** Every MCU of a run. */
  method EncodeRun(enc: HuffEncoder, mcus: seq<Mcu>, patience: nat) returns (result: Outcome)
    requires enc.Valid() && enc.dest.Valid() && Shaped(enc.scan, mcus)
    modifies enc, enc.dest, enc.dest.buffer
    ensures enc.Valid() && enc.dest.Valid() && (enc.dest.buffer == old(enc.dest.buffer) || fresh(enc.dest.buffer))
    ensures enc.ts == old(enc.ts) && enc.tables == old(enc.tables)
    ensures old(enc.dest.log) <= enc.dest.log
    ensures result.Suspended? ==> EndsRefused(old(enc.dest.log), enc.dest.log)
    ensures var pos := old(enc.Position());
            var possible := RunInRange(enc.scan, pos, mcus) && enc.ts.Covers(RunTokens(enc.scan, pos, mcus));
            && (result.Error? ==> !possible && result.Uncodable())
            && (result.Done? ==>
                  && possible && enc.Position() == RunPos(enc.scan, pos, mcus)
                  && Follows(enc.dest.Stream(), enc.pending,
                             RunSink(enc.ts, enc.scan, old(enc.Output()), pos, mcus),
                             Lost(enc.dest.log[|old(enc.dest.log)|..])))
  {
    hide *;
    ghost var scan, ts, start, s0, since := enc.scan, enc.ts, enc.Position(), enc.Output(), enc.dest.log;
    ghost var clean, pos := s0, start;
    PositionIsSound(enc);
    StartOfRun(ts, scan, start, mcus, s0);
    StartFollows(enc);
    var left, i := patience, 0;
    while i < |mcus|
      invariant i <= |mcus| && enc.Valid() && enc.dest.Valid() && since <= enc.dest.log
      invariant enc.dest.buffer == old(enc.dest.buffer) || fresh(enc.dest.buffer)
      invariant enc.ts == ts && enc.tables == old(enc.tables) && enc.Position() == pos
      invariant |pos.lastDc| == scan.Comps() && pos.nextNum < 8
      invariant Follows(enc.dest.Stream(), enc.pending, clean, Lost(enc.dest.log[|since|..]))
      invariant Shaped(scan, mcus[i..]) && Ahead(ts, scan, start, mcus, s0, pos, mcus[i..], clean)
    {
      RestOfRun(scan, mcus, i);
      NextIsShaped(scan, mcus, i);
      AheadStep(ts, scan, start, mcus, s0, pos, mcus[i..], clean);
      result, left := EncodeRetrying(enc, mcus[i], left, clean, since);
      if !result.Done? {
        return;
      }
      PositionIsSound(enc);
      clean, pos := SinkAfter(ts, scan, clean, pos, mcus[i]), enc.Position();
      i := i + 1;
    }
    assert mcus[i..] == [];
    EndOfRun(ts, scan, start, mcus, s0, pos, clean);
    result := Done;
  }

  lemma NextIsShaped(scan: Scan, mcus: seq<Mcu>, i: nat)
    requires i < |mcus| && Shaped(scan, mcus[i..])
    ensures |mcus[i]| == |scan.membership|
  {
    assert mcus[i..][0] == mcus[i];
  }

  lemma StartFollows(enc: HuffEncoder)
    requires enc.Valid() && enc.dest.Valid()
    ensures enc.dest.log[|enc.dest.log|..] == []
    ensures Follows(enc.dest.Stream(), enc.pending, enc.Output(), Lost([]))
  {
  }

  lemma StartOfRun(ts: Coder, scan: Scan, start: Pos, mcus: seq<Mcu>, s0: Sink)
    requires |start.lastDc| == scan.Comps() && Shaped(scan, mcus) && start.nextNum < 8
    ensures mcus[0..] == mcus && Ahead(ts, scan, start, mcus, s0, start, mcus, s0)
    ensures Follows(s0.bytes, s0.pending, s0, false)
  {
  }

  lemma RestOfRun(scan: Scan, mcus: seq<Mcu>, i: nat)
    requires i < |mcus|
    ensures mcus[i..] != [] && mcus[i..][0] == mcus[i] && mcus[i..][1..] == mcus[i + 1..]
  {
  }

  lemma EndOfRun(ts: Coder, scan: Scan, start: Pos, mcus: seq<Mcu>, s0: Sink, pos: Pos, clean: Sink)
    requires |start.lastDc| == |pos.lastDc| == scan.Comps() && Shaped(scan, mcus)
    requires start.nextNum < 8 && pos.nextNum < 8
    requires Ahead(ts, scan, start, mcus, s0, pos, [], clean)
    ensures RunInRange(scan, start, mcus) && ts.Covers(RunTokens(scan, start, mcus))
    ensures RunPos(scan, start, mcus) == pos && RunSink(ts, scan, s0, start, mcus) == clean
  {
  }

  /** The bytes of the finished scan, given the stream before the final flush. */
  lemma FinishedBytes(ts: Coder, scan: Scan, mcus: seq<Mcu>, before: seq<byte>, s: Sink, lost: bool)
    requires Shaped(scan, mcus) && ts.Covers(RunTokens(scan, StartPos(scan), mcus))
    requires Follows(s.bytes, s.pending, RunSink(ts, scan, Sink(before, []), StartPos(scan), mcus), lost)
    ensures WellNumbered(Items(ts, RunTokens(scan, StartPos(scan), mcus)))
    ensures !lost <==> Flush(s).bytes == before + ScanBytes(Items(ts, RunTokens(scan, StartPos(scan), mcus)))
  {
    var pos, items := StartPos(scan), Items(ts, RunTokens(scan, StartPos(scan), mcus));
    hide PutAll, RunTokens, RunSink;
    RunSinkIsPutAll(ts, scan, Sink(before, []), pos, mcus);
    PutAllAppends(Sink(before, []), items);
    PutItemAppends(before, PutAll(EMPTY, items), Data([]));
  }

  /**
   The stream of a finished scan, `before` being what it was, and `log` what passed between coder
   and application: unless something was lost the added bytes are those of a run without refusals,
   they hold no marker besides the restarts, and the decoder that has the tables gets every MCU back
   from them; if something was lost they are not.
   */
  ghost predicate Conveys(d: Decoder, scan: Scan, ts: Coder, mcus: seq<Mcu>, before: seq<byte>, stream: seq<byte>,
                           log: seq<Event>)
  {
    Shaped(scan, mcus) &&
    var tokens := RunTokens(scan, StartPos(scan), mcus);
    && RunInRange(scan, StartPos(scan), mcus) && ts.Covers(tokens)
    && WellNumbered(Items(ts, tokens))
    && (!Lost(log) <==> stream == before + ScanBytes(Items(ts, tokens)))
    && (!Lost(log) ==> before <= stream && OnlyRestartMarkers(stream[|before|..]))
    && (!Lost(log) ==> DecodeBlocks(d, scan, stream[|before|..], |mcus|) == Some(mcus))
  }

  lemma IsConveyed(d: Decoder, scan: Scan, ts: Coder, mcus: seq<Mcu>, before: seq<byte>, s: Sink, log: seq<Event>,
                   answers: seq<nat>)
    requires Shaped(scan, mcus) && RunInRange(scan, StartPos(scan), mcus) && DecoderKnows(d, ts)
    requires ts.Covers(RunTokens(scan, StartPos(scan), mcus)) && Open(answers)
    requires Follows(s.bytes, s.pending, RunSink(ts, scan, Sink(before, []), StartPos(scan), mcus), Lost(log))
    ensures Conveys(d, scan, ts, mcus, before, Flush(s).bytes, log + ([Called] + Events(answers)))
  {
    FinishedBytes(ts, scan, mcus, before, s, Lost(log));
    ScanRoundTrip(d, scan, ts, mcus);
    ScanHasOnlyMarkers(Items(ts, RunTokens(scan, StartPos(scan), mcus)));
    OpenIsNotShut(answers);
    LostStep(log, answers);
    hide OnlyRestartMarkers, RunTokens, RunInRange, DecoderKnows, Follows, Lost, RunSink, DecodeBlocks, Flush,
      ScanBytes, Open, Shut, Events;
    var added := ScanBytes(Items(ts, RunTokens(scan, StartPos(scan), mcus)));
    assert (before + added)[|before|..] == added;
  }

  /**
   The whole scan, with these tables. It fails only if they are unusable, if an MCU cannot be coded
   with them, or if the application refuses a buffer; so with an application that never refuses, it
   is done exactly when all MCUs can be coded.
   */
  method EncodeScan(enc: HuffEncoder, dcTables: seq<Option<HuffTable>>, acTables: seq<Option<HuffTable>>,
                    mcus: seq<Mcu>, patience: nat)
    returns (result: Outcome)
    requires enc.Valid() && enc.dest.Valid() && Shaped(enc.scan, mcus)
    requires TableSlots(dcTables) && TableSlots(acTables)
    modifies enc, enc.dest, enc.dest.buffer
    ensures result == Error(BadTable) <==> !AllUsable(enc.scan, dcTables, acTables, enc.scan.Comps())
    ensures AllUsable(enc.scan, dcTables, acTables, enc.scan.Comps()) ==>
              && DecoderKnows(enc.tables, enc.ts)
              && AllLoaded(enc.scan, enc.tables, dcTables, acTables, enc.scan.Comps())
    ensures result.Uncodable() ==>
              !(RunInRange(enc.scan, StartPos(enc.scan), mcus)
                && enc.ts.Covers(RunTokens(enc.scan, StartPos(enc.scan), mcus)))
    ensures result != Error(CodeOverflow)
    ensures result == Suspended || result == Error(CantSuspend) ==> EndsRefused(old(enc.dest.log), enc.dest.log)
    ensures result.Done? ==>
              && enc.dest.Valid() && old(enc.dest.log) <= enc.dest.log
              && Conveys(enc.tables, enc.scan, enc.ts, mcus, old(enc.dest.Stream()), enc.dest.Stream(),
                          enc.dest.log[|old(enc.dest.log)|..])
  {
    hide *;
    ghost var scan, before, since := enc.scan, enc.dest.Stream(), enc.dest.log;
    Reasons();
    var ok := enc.StartPass(dcTables, acTables);
    if !ok {
      return Error(BadTable);
    }
    StartsScan(enc, before);
    result := EncodeRun(enc, mcus, patience);
    if result.Done? {
      ghost var s, log, answers := enc.Output(), enc.dest.log, [];
      OutputIsSink(enc);
      result, answers := enc.FinishPass();
      LogGrows(since, log, answers, enc.dest.log);
      if result.Done? {
        IsConveyed(enc.tables, scan, enc.ts, mcus, before, s, log[|since|..], answers);
        OutputIsSink(enc);
      } else {
        ShutEndsRefused(since, log, answers);
      }
    }
  }

  lemma Reasons()
    ensures forall r: Outcome :: r.Uncodable() <==> r == Error(MissingCode) || r == Error(BadCoefficient)
  {
  }

  lemma StartsScan(enc: HuffEncoder, before: seq<byte>)
    requires enc.Valid() && enc.dest.Valid() && enc.pending == [] && enc.dest.Stream() == before
    ensures enc.Output() == Sink(before, []) && DecoderKnows(enc.tables, enc.ts)
  {
  }

  lemma OutputIsSink(enc: HuffEncoder)
    requires enc.Valid() && enc.dest.Valid()
    ensures enc.Output().bytes == enc.dest.Stream() && enc.Output().pending == enc.pending
              && DecoderKnows(enc.tables, enc.ts)
    ensures Flush(enc.Output()).pending == [] && enc.dest.free > 0 && |enc.Output().pending| < 8
  {
  }
}
