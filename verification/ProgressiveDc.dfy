/**
 The DC scans of progressive coding (section G.1.2.1 of ITU-T T.81): a first scan of the DC values
 without their low-order bits, as differences, and refinement scans that add one bit each. Scans may
 interleave components.
 */
module ProgressiveDc {
  import opened BitString
  import opened ByteStream
  import opened HuffmanCode
  import opened Tokens
  import opened SequentialCode
  import opened SequentialScan

  /** A DC scan: its components and restart interval, the precision it reaches, and whether it refines. */
  datatype DcScan = DcScan(head: Scan, al: nat, refining: bool)

  /** The point transform, an arithmetic shift to the right. */
  function Shifted(v: int, al: nat): int {
    v / Pow2(al)
  }

  /** One more bit of precision. */
  lemma ShiftedSplits(v: int, al: nat)
    ensures Shifted(v, al) == 2 * Shifted(v, al + 1) + Shifted(v, al) % 2
    ensures Shifted(v, 0) == v
  {
    var p, w := Pow2(al), v / Pow2(al);
    assert v == w * p + v % p;
    assert w == w / 2 * 2 + w % 2;
    HalfOfProduct(w, p);
    RemainderRange(w % 2, v % p, p);
    DivModUnique(v, 2 * p, w / 2, (w % 2) * p + v % p);
  }

  lemma HalfOfProduct(w: int, p: int)
    ensures w * p == (w / 2) * (2 * p) + (w % 2) * p
  {
    assert w == w / 2 * 2 + w % 2;
  }

  lemma RemainderRange(b: int, r: int, p: int)
    requires 0 <= b <= 1 && 0 <= r < p
    ensures 0 <= b * p + r < 2 * p
  {
  }

  /** The DC values of an MCU's blocks. */
  type DcMcu = seq<int>

  // ----- the tokens

  predicate DcFits(p: DcScan, v: int, pred: int) {
    p.refining || DcInRange(Shifted(v, p.al) - pred)
  }

  function DcBlockTokens(p: DcScan, ci: nat, v: int, pred: int): (t: seq<Token>)
    requires ci < p.head.Comps()
  {
    if p.refining then [Extra([Shifted(v, p.al) % 2 == 1])]
    else DcTokens(Shifted(v, p.al) - pred, p.head.dcTbl[ci])
  }

  /** The prediction for the next block of the component; a refinement scan has none. */
  function NextPred(p: DcScan, v: int, pred: int): int {
    if p.refining then pred else Shifted(v, p.al)
  }

  predicate DcMcuInRange(p: DcScan, mcu: DcMcu, b: nat, lastDc: seq<int>)
    requires |mcu| == |p.head.membership| && b <= |mcu| && |lastDc| == p.head.Comps()
    decreases |mcu| - b
  {
    b < |mcu| ==>
      var ci := p.head.membership[b];
      DcFits(p, mcu[b], lastDc[ci]) && DcMcuInRange(p, mcu, b + 1, lastDc[ci := NextPred(p, mcu[b], lastDc[ci])])
  }

  function DcMcuTokens(p: DcScan, mcu: DcMcu, b: nat, lastDc: seq<int>): (t: seq<Token>)
    requires |mcu| == |p.head.membership| && b <= |mcu| && |lastDc| == p.head.Comps()
    decreases |mcu| - b
  {
    if b == |mcu| then []
    else
      var ci := p.head.membership[b];
      DcBlockTokens(p, ci, mcu[b], lastDc[ci])
      + DcMcuTokens(p, mcu, b + 1, lastDc[ci := NextPred(p, mcu[b], lastDc[ci])])
  }

  function PredsAfter(p: DcScan, mcu: DcMcu, b: nat, lastDc: seq<int>): (r: seq<int>)
    requires |mcu| == |p.head.membership| && b <= |mcu| && |lastDc| == p.head.Comps()
    ensures |r| == |lastDc|
    decreases |mcu| - b
  {
    if b == |mcu| then lastDc
    else
      var ci := p.head.membership[b];
      PredsAfter(p, mcu, b + 1, lastDc[ci := NextPred(p, mcu[b], lastDc[ci])])
  }

  // ----- one call, and a run of calls

  function DcStepTokens(p: DcScan, pos: Pos, mcu: DcMcu): seq<Token>
    requires |pos.lastDc| == p.head.Comps() && |mcu| == |p.head.membership|
  {
    MarkOf(p.head, pos) + DcMcuTokens(p, mcu, 0, StartDc(p.head, pos))
  }

  function DcStepPos(p: DcScan, pos: Pos, mcu: DcMcu): (r: Pos)
    requires |pos.lastDc| == p.head.Comps() && |mcu| == |p.head.membership|
    ensures |r.lastDc| == p.head.Comps()
  {
    Pos(PredsAfter(p, mcu, 0, StartDc(p.head, pos)),
        NextToGo(p.head, pos.toGo),
        if RestartDue(p.head, pos) then (pos.nextNum + 1) % 8 else pos.nextNum)
  }

  predicate DcShaped(p: DcScan, mcus: seq<DcMcu>) {
    forall i :: 0 <= i < |mcus| ==> |mcus[i]| == |p.head.membership|
  }

  predicate DcRunInRange(p: DcScan, pos: Pos, mcus: seq<DcMcu>)
    requires |pos.lastDc| == p.head.Comps() && DcShaped(p, mcus)
    decreases |mcus|
  {
    mcus != [] ==>
      && DcMcuInRange(p, mcus[0], 0, StartDc(p.head, pos))
      && DcRunInRange(p, DcStepPos(p, pos, mcus[0]), mcus[1..])
  }

  function DcRunTokens(p: DcScan, pos: Pos, mcus: seq<DcMcu>): seq<Token>
    requires |pos.lastDc| == p.head.Comps() && DcShaped(p, mcus)
    decreases |mcus|
  {
    if mcus == [] then []
    else DcStepTokens(p, pos, mcus[0]) + DcRunTokens(p, DcStepPos(p, pos, mcus[0]), mcus[1..])
  }

  // ----- the decoder

  /** A block: a difference to the prediction, or a bit behind the bits known (section G.2.1). */
  function DecodeDcBlock(p: DcScan, t: LegalTable, pred: int, known: int, input: Bits): (r: Option<(int, Bits)>) {
    if p.refining then
      if input == [] then None else Some((2 * known + (if input[0] then 1 else 0), input[1..]))
    else
      match DecodeDc(t, input)
      case None => None
      case Some((diff, rest)) => Some((pred + diff, rest))
  }

  /** Blocks b and up of an MCU, and the predictions after them. */
  function DecodeDcMcu(d: Decoder, p: DcScan, b: nat, lastDc: seq<int>, known: seq<int>, input: Bits)
    : (r: Option<(seq<int>, seq<int>, Bits)>)
    requires b <= |p.head.membership| == |known| && |lastDc| == p.head.Comps()
    ensures r.Some? ==> |r.value.0| == |p.head.membership| - b && |r.value.1| == |lastDc|
    decreases |p.head.membership| - b
  {
    if b == |p.head.membership| then Some(([], lastDc, input))
    else
      var ci := p.head.membership[b];
      match DecodeDcBlock(p, d.dc[p.head.dcTbl[ci]], lastDc[ci], known[b], input)
      case None => None
      case Some((v, rest)) =>
        match DecodeDcMcu(d, p, b + 1, if p.refining then lastDc else lastDc[ci := v], known, rest)
        case None => None
        case Some((vs, last, rest')) => Some(([v] + vs, last, rest'))
  }

  /** One MCU for each of those known so far, from MCU i on. */
  function DecodeDcMcus(d: Decoder, p: DcScan, segs: seq<Bits>, lastDc: seq<int>, i: nat, known: seq<DcMcu>)
    : (r: Option<seq<DcMcu>>)
    requires |lastDc| == p.head.Comps() && DcShaped(p, known)
    decreases |known|
  {
    if known == [] then Some([])
    else
      var restart := StartsInterval(p.head.restartInterval, i);
      var segs' := if restart && segs != [] then segs[1..] else segs;
      if segs' == [] then None
      else
        match DecodeDcMcu(d, p, 0, if restart then Zeros(p.head.Comps()) else lastDc, known[0], segs'[0])
        case None => None
        case Some((vs, last, rest)) =>
          match DecodeDcMcus(d, p, [rest] + segs'[1..], last, i + 1, known[1..])
          case None => None
          case Some(more) => Some([vs] + more)
  }

  /** The whole scan, from its bytes. */
  function DecodeDcScan(d: Decoder, p: DcScan, known: seq<DcMcu>, bytes: seq<byte>): Option<seq<DcMcu>>
    requires DcShaped(p, known)
  {
    match ReadScan(bytes, 0)
    case None => None
    case Some(segs) => DecodeDcMcus(d, p, segs, Zeros(p.head.Comps()), 0, known)
  }

  // ----- what is known, and what is conveyed

  function AtPrecision(mcu: DcMcu, al: nat): (r: DcMcu)
    ensures |r| == |mcu|
  {
    seq(|mcu|, b requires 0 <= b < |mcu| => Shifted(mcu[b], al))
  }

  function AllAtPrecision(mcus: seq<DcMcu>, al: nat): (r: seq<DcMcu>)
    ensures |r| == |mcus| && forall i :: 0 <= i < |r| ==> |r[i]| == |mcus[i]|
  {
    seq(|mcus|, i requires 0 <= i < |mcus| => AtPrecision(mcus[i], al))
  }

  /** What a decoder must know of an MCU before the scan: for a refinement one bit less, else nothing. */
  predicate Prior(p: DcScan, known: DcMcu, mcu: DcMcu) {
    |known| == |mcu| && (p.refining ==> known == AtPrecision(mcu, p.al + 1))
  }

  predicate AllPrior(p: DcScan, known: seq<DcMcu>, mcus: seq<DcMcu>) {
    |known| == |mcus| && forall i :: 0 <= i < |mcus| ==> Prior(p, known[i], mcus[i])
  }

  // ----- decoding undoes coding

  lemma NoMarksInDcMcu(p: DcScan, mcu: DcMcu, b: nat, lastDc: seq<int>)
    requires |mcu| == |p.head.membership| && b <= |mcu| && |lastDc| == p.head.Comps()
    ensures NoMarks(DcMcuTokens(p, mcu, b, lastDc))
    decreases |mcu| - b
  {
    if b < |mcu| {
      var ci := p.head.membership[b];
      var more := lastDc[ci := NextPred(p, mcu[b], lastDc[ci])];
      NoMarksInDcMcu(p, mcu, b + 1, more);
      assert NoMarks(DcBlockTokens(p, ci, mcu[b], lastDc[ci]));
      hide DcBlockTokens, NoMarks;
      NoMarksConcat(DcBlockTokens(p, ci, mcu[b], lastDc[ci]), DcMcuTokens(p, mcu, b + 1, more));
    }
  }

  lemma DcBlockDecodes(p: DcScan, t: LegalTable, ts: Coder, ci: nat, v: int, pred: int, known: int, tail: Bits)
    requires ci < p.head.Comps() && DcFits(p, v, pred) && Knows(t, ts, true, p.head.dcTbl[ci])
    requires p.refining ==> known == Shifted(v, p.al + 1)
    requires Sendable(ts, DcBlockTokens(p, ci, v, pred))
    ensures DecodeDcBlock(p, t, pred, known, TokenBits(ts, DcBlockTokens(p, ci, v, pred)) + tail)
         == Some((Shifted(v, p.al), tail))
  {
    hide *;
    DcBlockIs(p, t, ts, ci, v, pred, known, tail);
    if p.refining {
      BitDecodes(ts, Shifted(v, p.al) % 2 == 1, tail);
      ShiftedSplits(v, p.al);
    } else {
      NoMoreTokens(DcTokens(Shifted(v, p.al) - pred, p.head.dcTbl[ci]), ts, tail);
      DecodeDcInverts(t, ts, p.head.dcTbl[ci], Shifted(v, p.al) - pred, [], tail);
    }
  }

  /** What the two kinds of block come to. */
  lemma DcBlockIs(p: DcScan, t: LegalTable, ts: Coder, ci: nat, v: int, pred: int, known: int, tail: Bits)
    requires ci < p.head.Comps() && DcFits(p, v, pred) && Sendable(ts, DcBlockTokens(p, ci, v, pred))
    ensures ci < |p.head.dcTbl|
    ensures DcBlockTokens(p, ci, v, pred)
         == if p.refining then [Extra([Shifted(v, p.al) % 2 == 1])]
            else DcTokens(Shifted(v, p.al) - pred, p.head.dcTbl[ci])
    ensures p.refining || DcInRange(Shifted(v, p.al) - pred)
    ensures var input := TokenBits(ts, DcBlockTokens(p, ci, v, pred)) + tail;
            DecodeDcBlock(p, t, pred, known, input)
              == if p.refining then
                   if input == [] then None else Some((2 * known + (if input[0] then 1 else 0), input[1..]))
                 else
                   match DecodeDc(t, input)
                   case None => None
                   case Some((diff, rest)) => Some((pred + diff, rest))
  {
    hide TokenBits, Sendable, DcTokens, DcInRange, Shifted, DecodeDc;
  }

  lemma BitDecodes(ts: Coder, b: bool, tail: Bits)
    requires Sendable(ts, [Extra([b])])
    ensures var input := TokenBits(ts, [Extra([b])]) + tail;
            input != [] && input[0] == b && input[1..] == tail
  {
    assert [Extra([b])] == [Extra([b])] + [];
    FirstTokenBits(ts, Extra([b]), []);
    assert [b] + [] == [b];
  }

  lemma NoMoreTokens(tokens: seq<Token>, ts: Coder, tail: Bits)
    ensures tokens + [] == tokens && Sendable(ts, []) && TokenBits(ts, []) + tail == tail
  {
  }

  lemma {:induction false} DcMcuDecodes(d: Decoder, p: DcScan, ts: Coder, mcu: DcMcu, b: nat, lastDc: seq<int>,
                                        known: DcMcu, tail: Bits)
    requires |mcu| == |p.head.membership| && b <= |mcu| && |lastDc| == p.head.Comps() && Prior(p, known, mcu)
    requires DcMcuInRange(p, mcu, b, lastDc) && DecoderKnows(d, ts)
    requires Sendable(ts, DcMcuTokens(p, mcu, b, lastDc))
    ensures DecodeDcMcu(d, p, b, lastDc, known, TokenBits(ts, DcMcuTokens(p, mcu, b, lastDc)) + tail)
         == Some((AtPrecision(mcu, p.al)[b..], PredsAfter(p, mcu, b, lastDc), tail))
    decreases |mcu| - b
  {
    hide DcBlockTokens, TokenBits, Sendable, DecodeDcBlock, DcFits, Knows, Shifted;
    if b == |mcu| {
      assert TokenBits(ts, []) + tail == tail by { EmptyTokens(ts); }
    } else {
      var ci, v := p.head.membership[b], mcu[b];
      var next := lastDc[ci := NextPred(p, v, lastDc[ci])];
      var block, more := DcBlockTokens(p, ci, v, lastDc[ci]), DcMcuTokens(p, mcu, b + 1, next);
      SendableParts(ts, block, more);
      TokenBitsConcat(ts, block, more);
      Assoc(TokenBits(ts, block), TokenBits(ts, more), tail);
      DcBlockDecodes(p, d.dc[p.head.dcTbl[ci]], ts, ci, v, lastDc[ci], known[b], TokenBits(ts, more) + tail);
      assert p.refining ==> next == lastDc;
      DcMcuDecodes(d, p, ts, mcu, b + 1, next, known, tail);
      assert [Shifted(v, p.al)] + AtPrecision(mcu, p.al)[b + 1..] == AtPrecision(mcu, p.al)[b..];
    }
  }

  /** The decoder's step on padded segments. */
  lemma DecodeOneDcMcu(d: Decoder, p: DcScan, ts: Coder, pos: Pos, mcu: DcMcu, known: seq<DcMcu>, bits: Bits,
                       rest: Bits, more: seq<Bits>, segs: seq<Bits>, next: Pos, i: nat)
    requires |pos.lastDc| == p.head.Comps() && |mcu| == |p.head.membership| && DecoderKnows(d, ts)
    requires DcMcuInRange(p, mcu, 0, StartDc(p.head, pos)) && next == DcStepPos(p, pos, mcu)
    requires known != [] && DcShaped(p, known) && Prior(p, known[0], mcu)
    requires Sendable(ts, DcMcuTokens(p, mcu, 0, StartDc(p.head, pos)))
    requires bits == TokenBits(ts, DcMcuTokens(p, mcu, 0, StartDc(p.head, pos)))
    requires if RestartDue(p.head, pos) then segs != [] && segs[1..] == [bits + rest] + more
             else segs == [bits + rest] + more
    requires InInterval(p.head.restartInterval, pos.toGo, i)
    requires DecodeDcMcus(d, p, [rest] + more, next.lastDc, i + 1, known[1..]).Some?
    ensures DecodeDcMcus(d, p, segs, pos.lastDc, i, known)
         == Some([AtPrecision(mcu, p.al)] + DecodeDcMcus(d, p, [rest] + more, next.lastDc, i + 1, known[1..]).value)
  {
    hide TokenBits, Sendable, DcMcuTokens, DcMcuInRange, DecodeDcMcu, AtPrecision, PredsAfter, Prior, DecoderKnows,
      DecodeDcMcus;
    var start := StartDc(p.head, pos);
    DcMcuDecodes(d, p, ts, mcu, 0, start, known[0], rest);
    assert AtPrecision(mcu, p.al)[0..] == AtPrecision(mcu, p.al);
    DecodeDcBy(d, p, segs, pos, known, bits + rest, more, AtPrecision(mcu, p.al), PredsAfter(p, mcu, 0, start), rest,
        i);
  }

  lemma DecodeDcBy(d: Decoder, p: DcScan, segs: seq<Bits>, pos: Pos, known: seq<DcMcu>, first: Bits, more: seq<Bits>,
                   vs: DcMcu, last: seq<int>, rest: Bits, i: nat)
    requires |pos.lastDc| == |last| == p.head.Comps() && known != [] && DcShaped(p, known)
    requires if RestartDue(p.head, pos) then segs != [] && segs[1..] == [first] + more else segs == [first] + more
    requires DecodeDcMcu(d, p, 0, StartDc(p.head, pos), known[0], first) == Some((vs, last, rest))
    requires InInterval(p.head.restartInterval, pos.toGo, i)
    requires DecodeDcMcus(d, p, [rest] + more, last, i + 1, known[1..]).Some?
    ensures DecodeDcMcus(d, p, segs, pos.lastDc, i, known)
         == Some([vs] + DecodeDcMcus(d, p, [rest] + more, last, i + 1, known[1..]).value)
  {
    IntervalStep(p.head.restartInterval, pos.toGo, i);
    hide DecodeDcMcu, StartsInterval, InInterval;
    var segs' := if RestartDue(p.head, pos) then segs[1..] else segs;
    assert segs'[0] == first && segs'[1..] == more;
  }

  lemma SegsOfDcRun(p: DcScan, ts: Coder, pos: Pos, mcus: seq<DcMcu>)
    requires |pos.lastDc| == p.head.Comps() && mcus != [] && DcShaped(p, mcus)
    requires ts.Covers(DcRunTokens(p, pos, mcus))
    ensures Sendable(ts, DcMcuTokens(p, mcus[0], 0, StartDc(p.head, pos)))
    ensures var more := DcRunTokens(p, DcStepPos(p, pos, mcus[0]), mcus[1..]);
            && ts.Covers(more)
            && Segs(ts, DcRunTokens(p, pos, mcus))
                 == ClosedBefore(p.head, pos)
                    + [TokenBits(ts, DcMcuTokens(p, mcus[0], 0, StartDc(p.head, pos))) + Segs(ts, more)[0]]
                    + Segs(ts, more)[1..]
  {
    var start, more := StartDc(p.head, pos), DcRunTokens(p, DcStepPos(p, pos, mcus[0]), mcus[1..]);
    NoMarksInDcMcu(p, mcus[0], 0, start);
    assert DcRunTokens(p, pos, mcus) == MarkOf(p.head, pos) + DcMcuTokens(p, mcus[0], 0, start) + more;
    hide DcRunTokens, DcMcuTokens, Segs, TokenBits;
    StepSegs(ts, MarkOf(p.head, pos), DcMcuTokens(p, mcus[0], 0, start), more);
  }

  /** Whatever padding follows the segments, the decoder gets every MCU of the run. */
  lemma {:induction false} DcRunDecodes(d: Decoder, p: DcScan, ts: Coder, pos: Pos, mcus: seq<DcMcu>,
                                        known: seq<DcMcu>, i: nat, pads: seq<Bits>)
    requires |pos.lastDc| == p.head.Comps() && DcShaped(p, mcus) && DcRunInRange(p, pos, mcus) && DecoderKnows(d, ts)
    requires AllPrior(p, known, mcus) && DcShaped(p, known)
    requires ts.Covers(DcRunTokens(p, pos, mcus)) && |pads| == |Segs(ts, DcRunTokens(p, pos, mcus))|
    requires InInterval(p.head.restartInterval, pos.toGo, i)
    ensures DecodeDcMcus(d, p, WithPads(Segs(ts, DcRunTokens(p, pos, mcus)), pads), pos.lastDc, i, known)
         == Some(AllAtPrecision(mcus, p.al))
    decreases |mcus|
  {
    hide Segs, TokenBits, Sendable, DcRunTokens, DecodeDcMcus, DcMcuTokens, DcStepPos, DcMcuInRange, DecoderKnows,
      AtPrecision, Prior, InInterval;
    if mcus == [] {
      NoDcMcus(d, p, WithPads(Segs(ts, DcRunTokens(p, pos, mcus)), pads), pos, i);
    } else {
      SegsOfDcRun(p, ts, pos, mcus);
      assert AllAtPrecision(mcus, p.al) == [AtPrecision(mcus[0], p.al)] + AllAtPrecision(mcus[1..], p.al);
      var next, front := DcStepPos(p, pos, mcus[0]), ClosedBefore(p.head, pos);
      var rest, pads' := Segs(ts, DcRunTokens(p, next, mcus[1..])), pads[|front|..];
      var bits := TokenBits(ts, DcMcuTokens(p, mcus[0], 0, StartDc(p.head, pos)));
      NextDcInterval(p, pos, mcus[0], i);
      DcRunDecodes(d, p, ts, next, mcus[1..], known[1..], i + 1, pads');
      PadsSplit(front, bits, rest, pads);
      var padded := WithPads(rest, pads');
      assert [padded[0]] + padded[1..] == padded;
      DecodeOneDcMcu(d, p, ts, pos, mcus[0], known, bits, padded[0], padded[1..],
                     WithPads(front + [bits + rest[0]] + rest[1..], pads), next, i);
    }
  }

  lemma NextDcInterval(p: DcScan, pos: Pos, mcu: DcMcu, i: nat)
    requires |pos.lastDc| == p.head.Comps() && |mcu| == |p.head.membership|
    requires InInterval(p.head.restartInterval, pos.toGo, i)
    ensures InInterval(p.head.restartInterval, DcStepPos(p, pos, mcu).toGo, i + 1)
  {
    IntervalStep(p.head.restartInterval, pos.toGo, i);
  }

  lemma NoDcMcus(d: Decoder, p: DcScan, segs: seq<Bits>, pos: Pos, i: nat)
    requires |pos.lastDc| == p.head.Comps()
    ensures DecodeDcMcus(d, p, segs, pos.lastDc, i, []) == Some(AllAtPrecision([], p.al))
  {
    assert AllAtPrecision([], p.al) == [];
  }

  // ----- numbering of the markers

  lemma DcStepNumbered(p: DcScan, ts: Coder, pos: Pos, mcu: DcMcu, pre: seq<Item>)
    requires |pos.lastDc| == p.head.Comps() && |mcu| == |p.head.membership|
    requires ts.Covers(DcStepTokens(p, pos, mcu)) && Numbered(pre, pos.nextNum)
    ensures Numbered(pre + Items(ts, DcStepTokens(p, pos, mcu)), DcStepPos(p, pos, mcu).nextNum)
  {
    var mark, toks := MarkOf(p.head, pos), DcMcuTokens(p, mcu, 0, StartDc(p.head, pos));
    var n := if RestartDue(p.head, pos) then (pos.nextNum + 1) % 8 else pos.nextNum;
    assert DcStepTokens(p, pos, mcu) == mark + toks && DcStepPos(p, pos, mcu).nextNum == n;
    NoMarksInDcMcu(p, mcu, 0, StartDc(p.head, pos));
    hide *;
    CoversParts(ts, mark, toks);
    MarkNumbered(p.head, ts, pos, pre);
    DataNumbered(ts, pre, mark, toks, n);
  }

  lemma {:induction false} DcRunNumbered(p: DcScan, ts: Coder, pos: Pos, mcus: seq<DcMcu>, pre: seq<Item>)
    requires |pos.lastDc| == p.head.Comps() && DcShaped(p, mcus)
    requires ts.Covers(DcRunTokens(p, pos, mcus)) && Numbered(pre, pos.nextNum)
    ensures NumberedInOrder(pre + Items(ts, DcRunTokens(p, pos, mcus)))
    decreases |mcus|
  {
    if mcus == [] {
      assert pre + Items(ts, []) == pre;
    } else {
      var step, next := DcStepTokens(p, pos, mcus[0]), DcStepPos(p, pos, mcus[0]);
      var more := DcRunTokens(p, next, mcus[1..]);
      hide DcStepTokens, DcStepPos, Numbered, NumberedInOrder;
      CoversParts(ts, step, more);
      ItemsConcat(ts, step, more);
      DcStepNumbered(p, ts, pos, mcus[0], pre);
      DcRunNumbered(p, ts, next, mcus[1..], pre + Items(ts, step));
      Assoc(pre, Items(ts, step), Items(ts, more));
    }
  }

  lemma DcStartIsNumbered(p: DcScan, ts: Coder, mcus: seq<DcMcu>)
    requires DcShaped(p, mcus) && ts.Covers(DcRunTokens(p, StartPos(p.head), mcus))
    ensures NumberedInOrder(Items(ts, DcRunTokens(p, StartPos(p.head), mcus)))
  {
    var pos := StartPos(p.head);
    var items := Items(ts, DcRunTokens(p, pos, mcus));
    assert Numbered([], pos.nextNum) by {
      assert |Segments([])| == 1;
    }
    hide *;
    DcRunNumbered(p, ts, pos, mcus, []);
    assert [] + items == items;
  }

  // ----- the round trip

  /**
   From the finished bytes of a DC scan, for any interleaving and restart interval, a decoder that
   knows each DC value to the precision before the scan gets it to the precision after it.
   */
  lemma DcScanRoundTrip(d: Decoder, p: DcScan, ts: Coder, mcus: seq<DcMcu>, known: seq<DcMcu>)
    requires DcShaped(p, mcus) && DcRunInRange(p, StartPos(p.head), mcus) && DecoderKnows(d, ts)
    requires AllPrior(p, known, mcus) && DcShaped(p, known)
    requires ts.Covers(DcRunTokens(p, StartPos(p.head), mcus))
    ensures WellNumbered(Items(ts, DcRunTokens(p, StartPos(p.head), mcus)))
    ensures DecodeDcScan(d, p, known, ScanBytes(Items(ts, DcRunTokens(p, StartPos(p.head), mcus))))
         == Some(AllAtPrecision(mcus, p.al))
  {
    var pos, tokens := StartPos(p.head), DcRunTokens(p, StartPos(p.head), mcus);
    DcStartIsNumbered(p, ts, mcus);
    DcRunDecodesFromBytes(d, p, ts, pos, mcus, known);
    hide DecodeDcMcus, DcRunTokens, DcRunInRange, AllPrior, DecoderKnows, AllAtPrecision, Segments, Items;
    NumberedIsWellNumbered(Items(ts, tokens));
    ScanReadsBack(Items(ts, tokens));
  }

  lemma DcRunDecodesFromBytes(d: Decoder, p: DcScan, ts: Coder, pos: Pos, mcus: seq<DcMcu>, known: seq<DcMcu>)
    requires |pos.lastDc| == p.head.Comps() && DcShaped(p, mcus) && DcRunInRange(p, pos, mcus) && DecoderKnows(d, ts)
    requires AllPrior(p, known, mcus) && DcShaped(p, known)
    requires ts.Covers(DcRunTokens(p, pos, mcus))
    requires InInterval(p.head.restartInterval, pos.toGo, 0)
    ensures DecodeDcMcus(d, p, PaddedAll(Segments(Items(ts, DcRunTokens(p, pos, mcus)))), pos.lastDc, 0, known)
         == Some(AllAtPrecision(mcus, p.al))
  {
    hide DcRunTokens, DcRunInRange, DecoderKnows, DecodeDcMcus, Segments, AllPrior, AllAtPrecision;
    var segs := Segs(ts, DcRunTokens(p, pos, mcus));
    var pads := seq(|segs|, i requires 0 <= i < |segs| => Ones(PadLength(|segs[i]|)));
    assert PaddedAll(segs) == WithPads(segs, pads);
    DcRunDecodes(d, p, ts, pos, mcus, known, 0, pads);
  }

  // ----- where the markers stand

  /** MCUs from MCU i on, told by their numbers alone where a marker stands and the predictions start afresh. */
  function SpacedDcTokens(p: DcScan, mcus: seq<DcMcu>, i: nat, lastDc: seq<int>): seq<Token>
    requires |lastDc| == p.head.Comps() && DcShaped(p, mcus)
    decreases |mcus|
  {
    if mcus == [] then []
    else
      var dc := if StartsInterval(p.head.restartInterval, i) then Zeros(p.head.Comps()) else lastDc;
      MarkAt(p.head.restartInterval, i) + DcMcuTokens(p, mcus[0], 0, dc)
      + SpacedDcTokens(p, mcus[1..], i + 1, PredsAfter(p, mcus[0], 0, dc))
  }

  lemma {:induction false} DcRunIsSpaced(p: DcScan, pos: Pos, mcus: seq<DcMcu>, i: nat)
    requires |pos.lastDc| == p.head.Comps() && DcShaped(p, mcus)
    requires InInterval(p.head.restartInterval, pos.toGo, i) && NumberedFor(p.head.restartInterval, pos.nextNum, i)
    ensures DcRunTokens(p, pos, mcus) == SpacedDcTokens(p, mcus, i, pos.lastDc)
    decreases |mcus|
  {
    hide DcMcuTokens, PredsAfter, InInterval, StartsInterval, NumberedFor, MarkAt;
    if mcus != [] {
      IntervalStep(p.head.restartInterval, pos.toGo, i);
      NumberStep(p.head.restartInterval, pos.nextNum, i);
      NextDcInterval(p, pos, mcus[0], i);
      DcRunIsSpaced(p, DcStepPos(p, pos, mcus[0]), mcus[1..], i + 1);
    }
  }

  /** Markers and fresh predictions at every multiple of the restart interval, as in a sequential scan. */
  lemma DcMarkersStandAtIntervals(p: DcScan, mcus: seq<DcMcu>)
    requires DcShaped(p, mcus)
    ensures DcRunTokens(p, StartPos(p.head), mcus) == SpacedDcTokens(p, mcus, 0, Zeros(p.head.Comps()))
  {
    AtStart(p.head.restartInterval);
    hide DcRunTokens, SpacedDcTokens;
    DcRunIsSpaced(p, StartPos(p.head), mcus, 0);
  }

  // ----- which scans use a table

  predicate NoSymbols(tokens: seq<Token>) {
    forall i :: 0 <= i < |tokens| ==> !tokens[i].Symbol?
  }

  lemma NoSymbolsConcat(a: seq<Token>, b: seq<Token>)
    ensures NoSymbols(a + b) <==> NoSymbols(a) && NoSymbols(b)
  {
    if NoSymbols(a + b) {
      forall i | 0 <= i < |a| ensures !a[i].Symbol? {
        assert (a + b)[i] == a[i];
      }
      forall i | 0 <= i < |b| ensures !b[i].Symbol? {
        assert (a + b)[|a| + i] == b[i];
      }
    }
  }

  lemma BlockSymbols(p: DcScan, ci: nat, v: int, pred: int)
    requires ci < p.head.Comps()
    ensures NoSymbols(DcBlockTokens(p, ci, v, pred)) <==> p.refining
  {
    if !p.refining {
      assert DcBlockTokens(p, ci, v, pred)[0].Symbol?;
    }
  }

  lemma {:induction false} McuSymbols(p: DcScan, mcu: DcMcu, b: nat, lastDc: seq<int>)
    requires |mcu| == |p.head.membership| && b <= |mcu| && |lastDc| == p.head.Comps()
    ensures NoSymbols(DcMcuTokens(p, mcu, b, lastDc)) <==> p.refining || b == |mcu|
    decreases |mcu| - b
  {
    hide DcBlockTokens, NoSymbols;
    if b < |mcu| {
      var ci := p.head.membership[b];
      var next := lastDc[ci := NextPred(p, mcu[b], lastDc[ci])];
      BlockSymbols(p, ci, mcu[b], lastDc[ci]);
      McuSymbols(p, mcu, b + 1, next);
      NoSymbolsConcat(DcBlockTokens(p, ci, mcu[b], lastDc[ci]), DcMcuTokens(p, mcu, b + 1, next));
    } else {
      NoTokensAtAll();
    }
  }

  lemma NoTokensAtAll()
    ensures NoSymbols([])
  {
  }

  /** A DC scan of any MCUs sends Huffman symbols exactly if it is a first scan: a refinement needs no table. */
  lemma {:induction false} DcScanUsesTable(p: DcScan, pos: Pos, mcus: seq<DcMcu>)
    requires |pos.lastDc| == p.head.Comps() && DcShaped(p, mcus) && p.head.membership != []
    ensures NoSymbols(DcRunTokens(p, pos, mcus)) <==> p.refining || mcus == []
    decreases |mcus|
  {
    hide DcMcuTokens, DcStepPos, NoSymbols;
    NoTokensAtAll();
    if mcus != [] {
      var start, next := StartDc(p.head, pos), DcStepPos(p, pos, mcus[0]);
      McuSymbols(p, mcus[0], 0, start);
      DcScanUsesTable(p, next, mcus[1..]);
      MarkHasNoSymbol(p, pos);
      NoSymbolsConcat(MarkOf(p.head, pos), DcMcuTokens(p, mcus[0], 0, start));
      NoSymbolsConcat(DcStepTokens(p, pos, mcus[0]), DcRunTokens(p, next, mcus[1..]));
    }
  }

  lemma MarkHasNoSymbol(p: DcScan, pos: Pos)
    ensures NoSymbols(MarkOf(p.head, pos))
  {
  }
}
