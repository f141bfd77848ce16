/**
 A progressive AC scan: end-of-band runs and correction bits deferred across any
 number of blocks, restart intervals, and the decoder that gets every block back.
 */
module ProgressiveRun {
  import opened BitString
  import opened ByteStream
  import opened HuffmanCode
  import opened Tokens
  import opened SequentialCode
  import opened SequentialScan
  import opened ProgressiveBand

  const MAX_CORR_BITS := 1000
  const MAX_EOBRUN := 0x7FFF

  // ----- the end-of-band code

  /** A run of e ended bands: the symbol, the low-order bits of e, and the correction bits it carries. */
  function EobTokens(tbl: nat, e: nat, c: Bits): seq<Token> {
    if e == 0 then []
    else [Symbol(false, tbl, EobSymbol(e)), Extra(BitsOf(e, NumBits(e) - 1)), Extra(c)]
  }

  function EobSymbol(e: nat): byte
    requires e > 0
  {
    16 * (NumBits(e) - 1) % 256
  }

  /** The category and the low-order bits of a run make up the run. */
  lemma EobParts(e: nat)
    requires 1 <= e <= MAX_EOBRUN
    ensures NumBits(e) <= 15
    ensures EobSymbol(e) / 16 == NumBits(e) - 1 && EobSymbol(e) % 16 == 0
    ensures Pow2(NumBits(e) - 1) + Val(BitsOf(e, NumBits(e) - 1)) == e
  {
    hide *;
    NumBitsBounds(e);
    Pow2Fifteen();
    FewBits(e, 15);
    LowBits(e, NumBits(e));
    EobSymbolParts(e);
  }

  lemma EobSymbolParts(e: nat)
    requires 1 <= NumBits(e) <= 15 && e > 0
    ensures EobSymbol(e) / 16 == NumBits(e) - 1 && EobSymbol(e) % 16 == 0
  {
    hide NumBits;
    DivModUnique(16 * (NumBits(e) - 1), 256, 0, 16 * (NumBits(e) - 1));
    DivModUnique(16 * (NumBits(e) - 1), 16, NumBits(e) - 1, 0);
  }

  lemma Pow2Fifteen()
    ensures Pow2(15) == 0x8000 == MAX_EOBRUN + 1
  {
    Pow2Add(8, 7);
    Pow2Constants();
    assert Pow2(7) == 128;
  }

  lemma {:induction false} FewBits(v: nat, k: nat)
    requires v < Pow2(k)
    ensures NumBits(v) <= k
  {
    if v > 0 {
      FewBits(v / 2, k - 1);
    }
  }

  /** The leading bit and the others. */
  lemma LowBits(e: nat, n: nat)
    requires n > 0 && Pow2(n - 1) <= e < Pow2(n)
    ensures Pow2(n - 1) + Val(BitsOf(e, n - 1)) == e
  {
    ValBitsOf(e, n - 1);
    DivModUnique(e, Pow2(n - 1), 1, e - Pow2(n - 1));
  }

  /** What the decoder does at an end-of-band code. */
  function EndBand(was: seq<int>, out: seq<int>, n: nat, input: Bits): Option<(seq<int>, nat, Bits)>
    requires |out| <= |was| && n > 0
  {
    match Finish(was, out, input)
    case None => None
    case Some((v, rest)) => Some((v, n - 1, rest))
  }

  lemma EobDecodes(t: LegalTable, ts: Coder, tbl: nat, refining: bool, was: seq<int>, out: seq<int>, n: nat, c: Bits,
                   tail: Bits)
    requires |out| < |was| && 1 <= n <= MAX_EOBRUN && Knows(t, ts, false, tbl) && Sendable(ts, EobTokens(tbl, n, c))
    ensures DecodeBand(t, refining, was, out, TokenBits(ts, EobTokens(tbl, n, c)) + tail)
         == EndBand(was, out, n, c + tail)
  {
    hide TokenBits, DecodeSymbol, Knows, Sendable, DecodeBand, NumBits, EobSymbol, Finish, Val, BitsOf;
    var sym, low := Symbol(false, tbl, EobSymbol(n)), BitsOf(n, NumBits(n) - 1);
    EobParts(n);
    assert EobTokens(tbl, n, c) == [sym, Extra(low)] + [Extra(c)];
    DecodePair(t, ts, sym, low, [Extra(c)], tail);
    OneExtra(ts, c);
    DecodeBandBy(t, refining, was, out, TokenBits(ts, EobTokens(tbl, n, c)) + tail, EobSymbol(n), low + (c + tail));
    EndBandBy(t, refining, was, out, low, c + tail);
  }

  lemma OneExtra(ts: Coder, c: Bits)
    ensures Sendable(ts, [Extra(c)]) && TokenBits(ts, [Extra(c)]) == c
  {
    assert [Extra(c)] == [Extra(c)] + [];
    assert Sendable(ts, [Extra(c)]);
    FirstTokenBits(ts, Extra(c), []);
    assert c + [] == c;
  }

  lemma EndBandBy(t: LegalTable, refining: bool, was: seq<int>, out: seq<int>, low: Bits, more: Bits)
    requires |out| <= |was| && |low| < 15
    ensures DecodeBandCoef(t, refining, was, out, |low|, 0, low + more)
              == EndBand(was, out, Pow2(|low|) + Val(low), more)
  {
    assert (low + more)[..|low|] == low && (low + more)[|low|..] == more;
  }

  // ----- the tokens of a run

  /** The coder between blocks: pending run and correction bits, and the restart counters. */
  datatype AcPos = AcPos(eobrun: nat, be: Bits, toGo: nat, nextNum: nat)

  datatype AcScan = AcScan(tbl: nat, refining: bool, restartInterval: nat)

  /** Blocks of a band of at least one coefficient. */
  type Bands = bs: seq<Band> | forall i :: 0 <= i < |bs| ==> bs[i].Len() > 0 witness []

  predicate AcRestartDue(scan: AcScan, toGo: nat) {
    scan.restartInterval != 0 && toGo == 0
  }

  function AcNextToGo(scan: AcScan, toGo: nat): nat {
    if scan.restartInterval == 0 then toGo
    else (if toGo == 0 then scan.restartInterval else toGo) - 1
  }

  /** A due restart sends what is pending, then the marker. */
  function AcLead(scan: AcScan, pos: AcPos): seq<Token> {
    if AcRestartDue(scan, pos.toGo) then EobTokens(scan.tbl, pos.eobrun, pos.be) + [Mark(pos.nextNum)] else []
  }

  /** ... and starts afresh. */
  function AcStart(scan: AcScan, pos: AcPos): AcPos {
    if AcRestartDue(scan, pos.toGo) then AcPos(0, [], scan.restartInterval, (pos.nextNum + 1) % 8) else pos
  }

  /** BeforeScan its own symbols, a block sends what is pending. */
  function Released(scan: AcScan, pos: AcPos, code: Coded): seq<Token> {
    if code.syms == [] then [] else EobTokens(scan.tbl, pos.eobrun, pos.be) + code.syms
  }

  function Pending(pos: AcPos, code: Coded): (nat, Bits) {
    var (e, c) := if code.syms == [] then (pos.eobrun, pos.be) else (0, []);
    if code.eob then (e + 1, c + code.rest) else (e, c)
  }

  /** The run must be sent at once when its counter or the correction-bit buffer could overflow. */
  predicate Forced(pos: AcPos, code: Coded) {
    code.eob && (Pending(pos, code).0 == MAX_EOBRUN || |Pending(pos, code).1| > MAX_CORR_BITS - DCTSIZE2 + 1)
  }

  function BlockSends(scan: AcScan, pos: AcPos, code: Coded): seq<Token> {
    Released(scan, pos, code)
    + if Forced(pos, code) then EobTokens(scan.tbl, Pending(pos, code).0, Pending(pos, code).1) else []
  }

  function BlockLeaves(scan: AcScan, pos: AcPos, code: Coded): AcPos {
    var (e, c) := if Forced(pos, code) then (0, []) else Pending(pos, code);
    AcPos(e, c, AcNextToGo(scan, pos.toGo), pos.nextNum)
  }

  function AcStepTokens(scan: AcScan, pos: AcPos, b: Band): seq<Token> {
    AcLead(scan, pos) + BlockSends(scan, AcStart(scan, pos), BlockCode(b, scan.tbl))
  }

  function AcStepPos(scan: AcScan, pos: AcPos, b: Band): AcPos {
    BlockLeaves(scan, AcStart(scan, pos), BlockCode(b, scan.tbl))
  }

  /** All blocks, and what is still pending at the end of the scan. */
  function AcRunTokens(scan: AcScan, pos: AcPos, bands: Bands): seq<Token>
    decreases |bands|
  {
    if bands == [] then EobTokens(scan.tbl, pos.eobrun, pos.be)
    else AcStepTokens(scan, pos, bands[0]) + AcRunTokens(scan, AcStepPos(scan, pos, bands[0]), bands[1..])
  }

  // ----- the decoder

  /** Blocks from the segments, from block i on; a new segment begins after every restart interval. */
  function DecodeAcBlocks(t: LegalTable, scan: AcScan, was: seq<seq<int>>, eobrun: nat, i: nat, segs: seq<Bits>)
    : (r: Option<seq<seq<int>>>)
    decreases |was|
  {
    if was == [] then Some([])
    else
      var restart := StartsInterval(scan.restartInterval, i);
      var segs' := if restart && segs != [] then segs[1..] else segs;
      if segs' == [] then None
      else
        match DecodeBandBlock(t, scan.refining, was[0], if restart then 0 else eobrun, segs'[0])
        case None => None
        case Some((v, e, rest)) =>
          match DecodeAcBlocks(t, scan, was[1..], e, i + 1, [rest] + segs'[1..])
          case None => None
          case Some(more) => Some([v] + more)
  }

  /** The same with a counter of the blocks left in the interval, as the coder has one. */
  function DecodeAcRun(t: LegalTable, scan: AcScan, was: seq<seq<int>>, eobrun: nat, toGo: nat, segs: seq<Bits>)
    : (r: Option<seq<seq<int>>>)
    decreases |was|
  {
    if was == [] then Some([])
    else
      var restart := AcRestartDue(scan, toGo);
      var segs' := if restart && segs != [] then segs[1..] else segs;
      if segs' == [] then None
      else
        match DecodeBandBlock(t, scan.refining, was[0], if restart then 0 else eobrun, segs'[0])
        case None => None
        case Some((v, e, rest)) =>
          match DecodeAcRun(t, scan, was[1..], e, AcNextToGo(scan, toGo), [rest] + segs'[1..])
          case None => None
          case Some(more) => Some([v] + more)
  }

  function DecodeAcScan(t: LegalTable, scan: AcScan, was: seq<seq<int>>, bytes: seq<byte>): Option<seq<seq<int>>> {
    match ReadScan(bytes, 0)
    case None => None
    case Some(segs) => DecodeAcBlocks(t, scan, was, 0, 0, segs)
  }

  lemma {:induction false} CountersAgree(t: LegalTable, scan: AcScan, was: seq<seq<int>>, eobrun: nat, toGo: nat,
                                         i: nat, segs: seq<Bits>)
    requires InInterval(scan.restartInterval, toGo, i)
    ensures DecodeAcRun(t, scan, was, eobrun, toGo, segs) == DecodeAcBlocks(t, scan, was, eobrun, i, segs)
    decreases |was|
  {
    hide StartsInterval, InInterval, DecodeBandBlock;
    IntervalStep(scan.restartInterval, toGo, i);
    var restart := StartsInterval(scan.restartInterval, i);
    var segs' := if restart && segs != [] then segs[1..] else segs;
    if was != [] && segs' != [] {
      var r := DecodeBandBlock(t, scan.refining, was[0], if restart then 0 else eobrun, segs'[0]);
      if r.Some? {
        AnyCounter(scan, toGo, i);
        CountersAgree(t, scan, was[1..], r.value.1, AcNextToGo(scan, toGo), i + 1, [r.value.2] + segs'[1..]);
      }
    }
  }

  lemma AnyCounter(scan: AcScan, toGo: nat, i: nat)
    requires InInterval(scan.restartInterval, toGo, i)
    ensures InInterval(scan.restartInterval, AcNextToGo(scan, toGo), i + 1)
  {
    IntervalStep(scan.restartInterval, toGo, i);
  }

  function BeforeScan(bands: Bands): (r: seq<seq<int>>)
    ensures |r| == |bands|
  {
    seq(|bands|, i requires 0 <= i < |bands| => bands[i].was)
  }

  function AfterScan(bands: Bands): (r: seq<seq<int>>)
    ensures |r| == |bands|
  {
    seq(|bands|, i requires 0 <= i < |bands| => bands[i].now)
  }

  // ----- one block

  lemma BlockDecodes(t: LegalTable, ts: Coder, scan: AcScan, b: Band, tail: Bits) returns (p: nat)
    requires NewInRange(b, scan.refining) && Knows(t, ts, false, scan.tbl) && Sendable(ts, BlockCode(b, scan.tbl).syms)
    ensures p <= b.Len() && NoNew(b, p, b.Len()) && BlockCode(b, scan.tbl).rest == BitsIn(b, p, b.Len())
    ensures BlockCode(b, scan.tbl).eob <==> p < b.Len()
    ensures DecodeBand(t, scan.refining, b.was, [], TokenBits(ts, BlockCode(b, scan.tbl).syms) + tail)
         == DecodeBand(t, scan.refining, b.was, b.now[..p], tail)
  {
    hide TokenBits, Knows, Sendable, DecodeBand, CodeBand, NewInRange, NewAhead;
    p := BandDecodes(t, ts, b, scan.tbl, scan.refining, 0, 0, 0, 0, [], tail);
    assert b.now[..0] == [];
  }

  /** A block whose last coefficient is new needs no end-of-band code. */
  lemma BlockWithoutEob(t: LegalTable, ts: Coder, scan: AcScan, b: Band, tail: Bits)
    requires NewInRange(b, scan.refining) && Knows(t, ts, false, scan.tbl) && Sendable(ts, BlockCode(b, scan.tbl).syms)
    requires !BlockCode(b, scan.tbl).eob
    ensures DecodeBandBlock(t, scan.refining, b.was, 0, TokenBits(ts, BlockCode(b, scan.tbl).syms) + tail)
         == Some((b.now, 0, tail))
  {
    hide TokenBits, Knows, Sendable, CodeBand, NewInRange, DecodeSymbol, DecodeBandCoef;
    var p := BlockDecodes(t, ts, scan, b, tail);
    assert b.now[..p] == b.now;
  }

  /** A block whose end-of-band code also ends n - 1 blocks more. */
  lemma BlockWithEob(t: LegalTable, ts: Coder, scan: AcScan, b: Band, n: nat, c: Bits, tail: Bits)
    requires NewInRange(b, scan.refining) && Knows(t, ts, false, scan.tbl) && Sendable(ts, BlockCode(b, scan.tbl).syms)
    requires BlockCode(b, scan.tbl).eob && 1 <= n <= MAX_EOBRUN
    requires Sendable(ts, EobTokens(scan.tbl, n, BlockCode(b, scan.tbl).rest + c))
    ensures DecodeBandBlock(t, scan.refining, b.was, 0,
                        TokenBits(ts, BlockCode(b, scan.tbl).syms)
                        + (TokenBits(ts, EobTokens(scan.tbl, n, BlockCode(b, scan.tbl).rest + c)) + tail))
         == Some((b.now, n - 1, c + tail))
  {
    hide TokenBits, Knows, Sendable, CodeBand, NewInRange, DecodeBand, Finish, EobTokens;
    var rest := BlockCode(b, scan.tbl).rest;
    var eob := TokenBits(ts, EobTokens(scan.tbl, n, rest + c)) + tail;
    var p := BlockDecodes(t, ts, scan, b, eob);
    EobDecodes(t, ts, scan.tbl, scan.refining, b.was, b.now[..p], n, rest + c, tail);
    FinishPasses(b, p, c + tail);
    assert (rest + c) + tail == rest + (c + tail);
  }

  /** A block without new coefficients inside an end-of-band run. */
  lemma BlockInsideRun(t: LegalTable, scan: AcScan, b: Band, e: nat, tail: Bits)
    requires BlockCode(b, scan.tbl).syms == [] && e > 0
    ensures DecodeBandBlock(t, scan.refining, b.was, e, BlockCode(b, scan.tbl).rest + tail)
              == Some((b.now, e - 1, tail))
  {
    hide Finish;
    NothingNew(b, scan.tbl, 0, 0, 0, []);
    FinishPasses(b, 0, tail);
    assert b.now[..0] == [];
  }

  /** No symbols: nothing new, every correction bit is left over, and the end is signalled. */
  lemma {:induction false} NothingNew(b: Band, tbl: nat, p: nat, k: nat, r: nat, br: Bits)
    requires p <= k <= b.Len() && CodeBand(b, tbl, k, r, br).syms == [] && NoNew(b, p, k)
    requires r == ZerosIn(b, p, k) && br == BitsIn(b, p, k)
    ensures NoNew(b, p, b.Len()) && CodeBand(b, tbl, k, r, br).rest == BitsIn(b, p, b.Len())
    ensures CodeBand(b, tbl, k, r, br).eob <==> p < b.Len()
    decreases b.Len() - k
  {
    hide Zrls, CorrectionBit;
    if k == b.Len() {
      SomethingPending(b, p);
    } else {
      OneMoreIn(b, p, k);
      if b.now[k] == 0 {
        NothingNew(b, tbl, p, k + 1, r + 1, br);
      } else if !NewAhead(b, k) {
        NothingNew(b, tbl, p, k + 1, r, br + [CorrectionBit(b.now[k])]);
      } else {
        SymbolAhead(b, tbl, k, r, br);
      }
    }
  }

  lemma {:induction false} SymbolAhead(b: Band, tbl: nat, k: nat, r: nat, br: Bits)
    requires k <= b.Len() && NewAhead(b, k)
    ensures CodeBand(b, tbl, k, r, br).syms != []
    decreases b.Len() - k
  {
    hide Zrls, CorrectionBit;
    if b.now[k] == 0 {
      SymbolAhead(b, tbl, k + 1, r + 1, br);
    } else if b.was[k] != 0 {
      SymbolAhead(b, tbl, k + 1, r % 16, (if r > 15 then [] else br) + [CorrectionBit(b.now[k])]);
    }
  }

  /**
   A block without new coefficients, no restart being due, only counts: the run is held back, with the
   correction bits of the block, until it reaches 0x7FFF or holds more than 937 bits.
   */
  lemma RunIsHeldBack(scan: AcScan, pos: AcPos, b: Band)
    requires (scan.restartInterval == 0 || pos.toGo > 0) && b.Len() > 0
    requires forall k :: 0 <= k < b.Len() ==> !IsNew(b, k)
    ensures var e, c := pos.eobrun + 1, pos.be + BitsIn(b, 0, b.Len());
            var full := e == 0x7FFF || |c| > 937;
            && AcStepTokens(scan, pos, b) == (if full then EobTokens(scan.tbl, e, c) else [])
            && AcStepPos(scan, pos, b).eobrun == (if full then 0 else e)
            && AcStepPos(scan, pos, b).be == (if full then [] else c)
  {
    var last, front, run, bits := BandEnds(b, scan.tbl, 0, 0, []);
    NothingNew(b, scan.tbl, 0, 0, 0, []);
    hide EobTokens, CodeBand, BitsIn;
    var eob := EobTokens(scan.tbl, pos.eobrun + 1, pos.be + BitsIn(b, 0, b.Len()));
    assert [] + eob == eob && [] + ([] + eob) == eob;
  }

  // ----- segments with something in front

  function Front(b: Bits, segs: seq<Bits>): (r: seq<Bits>)
    requires |segs| > 0
    ensures |r| == |segs| && r[0] == b + segs[0] && r[1..] == segs[1..]
  {
    [b + segs[0]] + segs[1..]
  }

  lemma SegsFront(ts: Coder, tokens: seq<Token>, more: seq<Token>)
    requires Sendable(ts, tokens) && ts.Covers(more)
    ensures ts.Covers(tokens + more) && Segs(ts, tokens + more) == Front(TokenBits(ts, tokens), Segs(ts, more))
  {
    SegsConcat(ts, tokens, more);
    SegsOfData(ts, tokens);
  }

  lemma SegsAfterMark(ts: Coder, n: nat, more: seq<Token>)
    requires ts.Covers(more)
    ensures ts.Covers([Mark(n)] + more) && Segs(ts, [Mark(n)] + more) == [[]] + Segs(ts, more)
  {
    var mark := [Mark(n)];
    assert ts.Covers(mark) && mark[0] == Mark(n);
    SegsConcat(ts, mark, more);
    SegsOfOne(ts, Mark(n));
    hide Segs;
    var y := Segs(ts, more);
    assert [] + y[0] == y[0];
    assert Joined([[], []], y) == [[]] + y;
  }

  lemma PadsFront(b: Bits, segs: seq<Bits>, pads: seq<Bits>)
    requires |segs| == |pads| > 0
    ensures WithPads(Front(b, segs), pads) == Front(b, WithPads(segs, pads))
  {
    Assoc(b, segs[0], pads[0]);
  }

  lemma FrontFront(a: Bits, b: Bits, segs: seq<Bits>)
    requires |segs| > 0
    ensures Front(a, Front(b, segs)) == Front(a + b, segs)
  {
    Assoc(a, b, segs[0]);
  }

  lemma FrontNothing(segs: seq<Bits>)
    requires |segs| > 0
    ensures Front([], segs) == segs
  {
    assert [] + segs[0] == segs[0];
  }

  // ----- what the decoder makes of the rest of a run

  /** With e blocks already ended, the decoder restores the bands from these segments. */
  ghost predicate DecodesTo(t: LegalTable, scan: AcScan, bands: Bands, e: nat, toGo: nat, segs: seq<Bits>) {
    DecodeAcRun(t, scan, BeforeScan(bands), e, toGo, segs) == Some(AfterScan(bands))
  }

  /** ... from the bits c and the tokens `more`, whatever padding follows each segment. */
  ghost predicate Restores(t: LegalTable, ts: Coder, scan: AcScan, bands: Bands, e: nat, toGo: nat, c: Bits,
                           more: seq<Token>)
  {
    ts.Covers(more) &&
    forall pads: seq<Bits> {:trigger WithPads(Segs(ts, more), pads)} :: |pads| == |Segs(ts, more)| ==>
      DecodesTo(t, scan, bands, e, toGo, Front(c, WithPads(Segs(ts, more), pads)))
  }

  lemma RestoresNothing(t: LegalTable, ts: Coder, scan: AcScan, e: nat, toGo: nat)
    ensures Restores(t, ts, scan, [], e, toGo, [], [])
  {
    var none: Bands := [];
    assert BeforeScan(none) == [] && AfterScan(none) == [];
    hide Segs;
  }

  lemma FirstBand(bands: Bands)
    requires bands != []
    ensures BeforeScan(bands) == [bands[0].was] + BeforeScan(bands[1..])
    ensures AfterScan(bands) == [bands[0].now] + AfterScan(bands[1..])
  {
  }

  /** One step of the decoder, no restart being due. */
  lemma DecodeOneBlock(t: LegalTable, scan: AcScan, bands: Bands, e: nat, toGo: nat, segs: seq<Bits>, e': nat,
                       segs': seq<Bits>)
    requires bands != [] && !AcRestartDue(scan, toGo) && |segs| == |segs'| > 0 && segs[1..] == segs'[1..]
    requires DecodeBandBlock(t, scan.refining, bands[0].was, e, segs[0]) == Some((bands[0].now, e', segs'[0]))
    requires DecodesTo(t, scan, bands[1..], e', AcNextToGo(scan, toGo), segs')
    ensures DecodesTo(t, scan, bands, e, toGo, segs)
  {
    FirstBand(bands);
    hide DecodeBandBlock, BeforeScan, AfterScan;
    assert [segs'[0]] + segs'[1..] == segs';
    assert BeforeScan(bands)[1..] == BeforeScan(bands[1..]);
  }

  lemma DecodesInsideRun(t: LegalTable, scan: AcScan, bands: Bands, m: nat, toGo: nat, c: Bits, s: seq<Bits>)
    requires bands != [] && !AcRestartDue(scan, toGo) && BlockCode(bands[0], scan.tbl).syms == [] && |s| > 0
    requires DecodesTo(t, scan, bands[1..], m, AcNextToGo(scan, toGo), Front(c, s))
    ensures DecodesTo(t, scan, bands, m + 1, toGo, Front(BlockCode(bands[0], scan.tbl).rest + c, s))
  {
    hide DecodesTo, DecodeBandBlock, CodeBand;
    var rest := BlockCode(bands[0], scan.tbl).rest;
    FrontFront(rest, c, s);
    BlockInsideRun(t, scan, bands[0], m + 1, Front(c, s)[0]);
    DecodeOneBlock(t, scan, bands, m + 1, toGo, Front(rest + c, s), m, Front(c, s));
  }

  lemma RestoresInsideRun(t: LegalTable, ts: Coder, scan: AcScan, bands: Bands, m: nat, toGo: nat, c: Bits,
                          more: seq<Token>)
    requires bands != [] && !AcRestartDue(scan, toGo) && BlockCode(bands[0], scan.tbl).syms == []
    requires Restores(t, ts, scan, bands[1..], m, AcNextToGo(scan, toGo), c, more)
    ensures Restores(t, ts, scan, bands, m + 1, toGo, BlockCode(bands[0], scan.tbl).rest + c, more)
  {
    hide DecodesTo, Segs, CodeBand, Front, WithPads;
    var rest := BlockCode(bands[0], scan.tbl).rest;
    forall pads: seq<Bits> | |pads| == |Segs(ts, more)|
      ensures DecodesTo(t, scan, bands, m + 1, toGo, Front(rest + c, WithPads(Segs(ts, more), pads)))
    {
      DecodesInsideRun(t, scan, bands, m, toGo, c, WithPads(Segs(ts, more), pads));
    }
  }

  lemma DecodesAfterEob(t: LegalTable, ts: Coder, scan: AcScan, bands: Bands, m: nat, toGo: nat, c: Bits, s: seq<Bits>)
    requires bands != [] && !AcRestartDue(scan, toGo) && BlockCode(bands[0], scan.tbl).eob && m < MAX_EOBRUN && |s| > 0
    requires NewInRange(bands[0], scan.refining) && Knows(t, ts, false, scan.tbl)
    requires Sendable(ts, BlockCode(bands[0], scan.tbl).syms)
    requires Sendable(ts, EobTokens(scan.tbl, m + 1, BlockCode(bands[0], scan.tbl).rest + c))
    requires DecodesTo(t, scan, bands[1..], m, AcNextToGo(scan, toGo), Front(c, s))
    ensures DecodesTo(t, scan, bands, 0, toGo, Front(TokenBits(ts, BlockCode(bands[0], scan.tbl).syms),
              Front(TokenBits(ts, EobTokens(scan.tbl, m + 1, BlockCode(bands[0], scan.tbl).rest + c)), s)))
  {
    hide DecodesTo, DecodeBandBlock, CodeBand, EobTokens, TokenBits, Sendable, Knows, NewInRange;
    var code := BlockCode(bands[0], scan.tbl);
    var eob := EobTokens(scan.tbl, m + 1, code.rest + c);
    var all := Front(TokenBits(ts, code.syms), Front(TokenBits(ts, eob), s));
    BlockWithEob(t, ts, scan, bands[0], m + 1, c, s[0]);
    DecodeOneBlock(t, scan, bands, 0, toGo, all, m, Front(c, s));
  }

  lemma RestoresAfterEob(t: LegalTable, ts: Coder, scan: AcScan, bands: Bands, m: nat, toGo: nat, c: Bits,
                         more: seq<Token>)
    requires bands != [] && !AcRestartDue(scan, toGo) && BlockCode(bands[0], scan.tbl).eob && m < MAX_EOBRUN
    requires NewInRange(bands[0], scan.refining) && Knows(t, ts, false, scan.tbl)
    requires Sendable(ts, BlockCode(bands[0], scan.tbl).syms)
    requires Sendable(ts, EobTokens(scan.tbl, m + 1, BlockCode(bands[0], scan.tbl).rest + c))
    requires Restores(t, ts, scan, bands[1..], m, AcNextToGo(scan, toGo), c, more)
    ensures Restores(t, ts, scan, bands, 0, toGo, [], BlockCode(bands[0], scan.tbl).syms
                     + (EobTokens(scan.tbl, m + 1, BlockCode(bands[0], scan.tbl).rest + c) + more))
  {
    hide DecodesTo, Segs, CodeBand, EobTokens, TokenBits, Sendable, Knows, NewInRange, Front, WithPads;
    var code := BlockCode(bands[0], scan.tbl);
    var eob := EobTokens(scan.tbl, m + 1, code.rest + c);
    var tokens := code.syms + (eob + more);
    SegsFront(ts, eob, more);
    SegsFront(ts, code.syms, eob + more);
    forall pads: seq<Bits> | |pads| == |Segs(ts, tokens)|
      ensures DecodesTo(t, scan, bands, 0, toGo, Front([], WithPads(Segs(ts, tokens), pads)))
    {
      PadsFront(TokenBits(ts, eob), Segs(ts, more), pads);
      PadsFront(TokenBits(ts, code.syms), Segs(ts, eob + more), pads);
      FrontNothing(WithPads(Segs(ts, tokens), pads));
      DecodesAfterEob(t, ts, scan, bands, m, toGo, c, WithPads(Segs(ts, more), pads));
    }
  }

  lemma DecodesWithoutEob(t: LegalTable, ts: Coder, scan: AcScan, bands: Bands, toGo: nat, s: seq<Bits>)
    requires bands != [] && !AcRestartDue(scan, toGo) && !BlockCode(bands[0], scan.tbl).eob && |s| > 0
    requires NewInRange(bands[0], scan.refining) && Knows(t, ts, false, scan.tbl)
    requires Sendable(ts, BlockCode(bands[0], scan.tbl).syms)
    requires DecodesTo(t, scan, bands[1..], 0, AcNextToGo(scan, toGo), s)
    ensures DecodesTo(t, scan, bands, 0, toGo, Front(TokenBits(ts, BlockCode(bands[0], scan.tbl).syms), s))
  {
    hide DecodesTo, DecodeBandBlock, CodeBand, TokenBits, Sendable, Knows, NewInRange;
    BlockWithoutEob(t, ts, scan, bands[0], s[0]);
    DecodeOneBlock(t, scan, bands, 0, toGo, Front(TokenBits(ts, BlockCode(bands[0], scan.tbl).syms), s), 0, s);
  }

  lemma RestoresWithoutEob(t: LegalTable, ts: Coder, scan: AcScan, bands: Bands, toGo: nat, more: seq<Token>)
    requires bands != [] && !AcRestartDue(scan, toGo) && !BlockCode(bands[0], scan.tbl).eob
    requires NewInRange(bands[0], scan.refining) && Knows(t, ts, false, scan.tbl)
    requires Sendable(ts, BlockCode(bands[0], scan.tbl).syms)
    requires Restores(t, ts, scan, bands[1..], 0, AcNextToGo(scan, toGo), [], more)
    ensures Restores(t, ts, scan, bands, 0, toGo, [], BlockCode(bands[0], scan.tbl).syms + more)
  {
    hide DecodesTo, Segs, CodeBand, TokenBits, Sendable, Knows, NewInRange, Front, WithPads;
    var code := BlockCode(bands[0], scan.tbl);
    var tokens := code.syms + more;
    SegsFront(ts, code.syms, more);
    forall pads: seq<Bits> | |pads| == |Segs(ts, tokens)|
      ensures DecodesTo(t, scan, bands, 0, toGo, Front([], WithPads(Segs(ts, tokens), pads)))
    {
      PadsFront(TokenBits(ts, code.syms), Segs(ts, more), pads);
      FrontNothing(WithPads(Segs(ts, tokens), pads));
      FrontNothing(WithPads(Segs(ts, more), pads));
      DecodesWithoutEob(t, ts, scan, bands, toGo, WithPads(Segs(ts, more), pads));
    }
  }

  lemma DecodesFromEob(t: LegalTable, ts: Coder, scan: AcScan, bands: Bands, m: nat, toGo: nat, c: Bits, s: seq<Bits>)
    requires bands != [] && !AcRestartDue(scan, toGo) && 1 <= m <= MAX_EOBRUN && |s| > 0
    requires Knows(t, ts, false, scan.tbl) && Sendable(ts, EobTokens(scan.tbl, m, c))
    requires DecodesTo(t, scan, bands, m, toGo, Front(c, s))
    ensures DecodesTo(t, scan, bands, 0, toGo, Front(TokenBits(ts, EobTokens(scan.tbl, m, c)), s))
  {
    hide EobTokens, TokenBits, Sendable, Knows, DecodeBandBlock, DecodeAcRun;
    EobStartsBlock(t, ts, scan, bands[0], m, c, s[0]);
    SameFirstBlock(t, scan, bands, 0, m, toGo, Front(TokenBits(ts, EobTokens(scan.tbl, m, c)), s), Front(c, s));
  }

  /** An end-of-band code at the very start of a block. */
  lemma RestoresFromEob(t: LegalTable, ts: Coder, scan: AcScan, bands: Bands, m: nat, toGo: nat, c: Bits,
                        more: seq<Token>)
    requires m > 0 ==> bands != [] && !AcRestartDue(scan, toGo) && m <= MAX_EOBRUN
    requires m == 0 ==> c == []
    requires Knows(t, ts, false, scan.tbl) && Sendable(ts, EobTokens(scan.tbl, m, c))
    requires Restores(t, ts, scan, bands, m, toGo, c, more)
    ensures Restores(t, ts, scan, bands, 0, toGo, [], EobTokens(scan.tbl, m, c) + more)
  {
    hide DecodesTo, Segs, TokenBits, Sendable, Knows, Front, WithPads;
    if m == 0 {
      assert EobTokens(scan.tbl, m, c) + more == more;
    } else {
      var eob := EobTokens(scan.tbl, m, c);
      hide EobTokens;
      SegsFront(ts, eob, more);
      forall pads: seq<Bits> | |pads| == |Segs(ts, eob + more)|
        ensures DecodesTo(t, scan, bands, 0, toGo, Front([], WithPads(Segs(ts, eob + more), pads)))
      {
        PadsFront(TokenBits(ts, eob), Segs(ts, more), pads);
        FrontNothing(WithPads(Segs(ts, eob + more), pads));
        DecodesFromEob(t, ts, scan, bands, m, toGo, c, WithPads(Segs(ts, more), pads));
      }
    }
  }

  lemma EobStartsBlock(t: LegalTable, ts: Coder, scan: AcScan, b: Band, m: nat, c: Bits, tail: Bits)
    requires b.Len() > 0 && 1 <= m <= MAX_EOBRUN
    requires Knows(t, ts, false, scan.tbl) && Sendable(ts, EobTokens(scan.tbl, m, c))
    ensures DecodeBandBlock(t, scan.refining, b.was, 0, TokenBits(ts, EobTokens(scan.tbl, m, c)) + tail)
         == DecodeBandBlock(t, scan.refining, b.was, m, c + tail)
  {
    hide TokenBits, EobTokens, Sendable, Knows, DecodeBand;
    EobDecodes(t, ts, scan.tbl, scan.refining, b.was, [], m, c, tail);
  }

  lemma SameFirstBlock(t: LegalTable, scan: AcScan, bands: Bands, e: nat, e': nat, toGo: nat, segs: seq<Bits>,
                       segs': seq<Bits>)
    requires bands != [] && !AcRestartDue(scan, toGo) && |segs| == |segs'| > 0 && segs[1..] == segs'[1..]
    requires DecodeBandBlock(t, scan.refining, bands[0].was, e, segs[0])
          == DecodeBandBlock(t, scan.refining, bands[0].was, e', segs'[0])
    ensures DecodeAcRun(t, scan, BeforeScan(bands), e, toGo, segs)
              == DecodeAcRun(t, scan, BeforeScan(bands), e', toGo, segs')
  {
    FirstBand(bands);
    hide DecodeBandBlock;
  }

  lemma DecodesAfterRestart(t: LegalTable, scan: AcScan, bands: Bands, e: nat, segs: seq<Bits>)
    requires bands != [] && AcRestartDue(scan, 0) && |segs| > 1
    requires DecodesTo(t, scan, bands, 0, scan.restartInterval, segs[1..])
    ensures DecodesTo(t, scan, bands, e, 0, segs)
  {
    FirstBand(bands);
    hide DecodeBandBlock;
  }

  /** A due restart: the decoder drops what is left of the segment and of the run. */
  lemma RestoresAfterRestart(t: LegalTable, ts: Coder, scan: AcScan, bands: Bands, e: nat, n: nat, more: seq<Token>)
    requires bands != [] && AcRestartDue(scan, 0)
    requires Restores(t, ts, scan, bands, 0, scan.restartInterval, [], more)
    ensures Restores(t, ts, scan, bands, e, 0, [], [Mark(n)] + more)
  {
    hide DecodesTo, Segs, Front;
    SegsAfterMark(ts, n, more);
    forall pads: seq<Bits> | |pads| == |Segs(ts, [Mark(n)] + more)|
      ensures DecodesTo(t, scan, bands, e, 0, Front([], WithPads(Segs(ts, [Mark(n)] + more), pads)))
    {
      var all, s := WithPads(Segs(ts, [Mark(n)] + more), pads), WithPads(Segs(ts, more), pads[1..]);
      FrontNothing(all);
      FrontNothing(s);
      assert all[1..] == s;
      DecodesAfterRestart(t, scan, bands, e, all);
    }
  }

  // ----- the round trip

  lemma NoMarksInEob(tbl: nat, e: nat, c: Bits)
    ensures NoMarks(EobTokens(tbl, e, c))
  {
  }

  lemma {:induction false} NoMarksInZrls(tbl: nat, r: nat, br: Bits)
    ensures NoMarks(Zrls(tbl, r, br))
  {
    if r > 15 {
      NoMarksInZrls(tbl, r - 16, []);
    }
  }

  lemma {:induction false} NoMarksInBand(b: Band, tbl: nat, k: nat, r: nat, br: Bits)
    requires k <= b.Len()
    ensures NoMarks(CodeBand(b, tbl, k, r, br).syms)
    decreases b.Len() - k
  {
    hide NewAhead, CorrectionBit, Zrls, AcSymbol, MagnitudeBits;
    if k < b.Len() {
      var bit, br' := CorrectionBit(b.now[k]), if r > 15 then [] else br;
      NoMarksInZrls(tbl, r, br);
      NoMarksInBand(b, tbl, k + 1, r + 1, br);
      NoMarksInBand(b, tbl, k + 1, r, br + [bit]);
      NoMarksInBand(b, tbl, k + 1, r % 16, br' + [bit]);
      NoMarksInBand(b, tbl, k + 1, 0, []);
    }
  }

  /** Every new coefficient of every block is in range. */
  predicate BandsInRange(scan: AcScan, bands: Bands) {
    forall i :: 0 <= i < |bands| ==> NewInRange(bands[i], scan.refining)
  }

  /** A restart that is due changes nothing about the blocks themselves. */
  lemma RestartSplits(scan: AcScan, pos: AcPos, bands: Bands)
    requires bands != [] && AcRestartDue(scan, pos.toGo)
    ensures AcRunTokens(scan, pos, bands)
         == EobTokens(scan.tbl, pos.eobrun, pos.be)
             + ([Mark(pos.nextNum)] + AcRunTokens(scan, AcStart(scan, pos), bands))
  {
    hide BlockSends, BlockLeaves, EobTokens;
    var start := AcStart(scan, pos);
    var eob, mark := EobTokens(scan.tbl, pos.eobrun, pos.be), [Mark(pos.nextNum)];
    var sends := BlockSends(scan, start, BlockCode(bands[0], scan.tbl));
    var more := AcRunTokens(scan, AcStepPos(scan, pos, bands[0]), bands[1..]);
    assert [] + sends == sends;
    assert ((eob + mark) + sends) + more == eob + (mark + (sends + more));
  }

  /** Without one, a block's tokens come first. */
  lemma BlockSplits(scan: AcScan, pos: AcPos, bands: Bands)
    requires bands != [] && !AcRestartDue(scan, pos.toGo)
    ensures var code, more := BlockCode(bands[0], scan.tbl),
              AcRunTokens(scan, AcStepPos(scan, pos, bands[0]), bands[1..]);
            var forced := if Forced(pos, code) then EobTokens(scan.tbl, Pending(pos, code).0, Pending(pos, code).1)
                else [];
            AcRunTokens(scan, pos, bands) == Released(scan, pos, code) + (forced + more)
  {
    hide CodeBand, EobTokens, Released, Forced, Pending, BlockLeaves;
    var code, more := BlockCode(bands[0], scan.tbl), AcRunTokens(scan, AcStepPos(scan, pos, bands[0]), bands[1..]);
    var forced := if Forced(pos, code) then EobTokens(scan.tbl, Pending(pos, code).0, Pending(pos, code).1) else [];
    var released := Released(scan, pos, code);
    assert [] + (released + forced) == released + forced;
    Assoc(released, forced, more);
  }

  /**
   The rest of a run, with e blocks ended and the correction bits be pending: the next
   end-of-band code ends m blocks more and carries the bits c for them, and from there
   on the decoder restores every block.
   */
  lemma {:induction false} RunRestores(t: LegalTable, ts: Coder, scan: AcScan, pos: AcPos, bands: Bands)
    returns (m: nat, c: Bits, more: seq<Token>)
    requires pos.eobrun < MAX_EOBRUN && BandsInRange(scan, bands) && Knows(t, ts, false, scan.tbl)
    requires ts.Covers(AcRunTokens(scan, pos, bands))
    ensures AcRunTokens(scan, pos, bands) == EobTokens(scan.tbl, pos.eobrun + m, pos.be + c) + more
    ensures pos.eobrun + m <= MAX_EOBRUN
    ensures if m > 0 then bands != [] && !AcRestartDue(scan, pos.toGo) else c == []
    ensures Restores(t, ts, scan, bands, m, pos.toGo, c, more)
    decreases |bands|, AcRestartDue(scan, pos.toGo), 1
  {
    hide Knows, Restores, EobTokens, CodeBand, NewInRange, AcRunTokens;
    m, c, more := 0, [], [];
    if bands == [] {
      EmptyRun(scan, pos);
      RestoresNothing(t, ts, scan, 0, pos.toGo);
    } else if AcRestartDue(scan, pos.toGo) {
      var start := AcStart(scan, pos);
      RestartSplits(scan, pos, bands);
      CoversParts(ts, EobTokens(scan.tbl, pos.eobrun, pos.be), [Mark(pos.nextNum)] + AcRunTokens(scan, start, bands));
      CoversParts(ts, [Mark(pos.nextNum)], AcRunTokens(scan, start, bands));
      RunRestoresAfresh(t, ts, scan, start, bands);
      RestoresAfterRestart(t, ts, scan, bands, 0, pos.nextNum, AcRunTokens(scan, start, bands));
      more := [Mark(pos.nextNum)] + AcRunTokens(scan, start, bands);
      assert pos.be + [] == pos.be;
    } else if BlockCode(bands[0], scan.tbl).syms == [] {
      m, c, more := RunRestoresInside(t, ts, scan, pos, bands);
    } else {
      more := RunRestoresSymbols(t, ts, scan, pos, bands);
      assert pos.be + [] == pos.be;
    }
  }

  lemma EmptyRun(scan: AcScan, pos: AcPos)
    ensures AcRunTokens(scan, pos, []) == EobTokens(scan.tbl, pos.eobrun + 0, pos.be + []) + []
  {
    assert pos.be + [] == pos.be;
  }

  /** With nothing pending. */
  lemma RunRestoresAfresh(t: LegalTable, ts: Coder, scan: AcScan, pos: AcPos, bands: Bands)
    requires pos.eobrun == 0 && pos.be == [] && BandsInRange(scan, bands) && Knows(t, ts, false, scan.tbl)
    requires ts.Covers(AcRunTokens(scan, pos, bands))
    ensures Restores(t, ts, scan, bands, 0, pos.toGo, [], AcRunTokens(scan, pos, bands))
    decreases |bands|, AcRestartDue(scan, pos.toGo), 2
  {
    hide Knows, Restores, EobTokens, AcRunTokens, BandsInRange;
    var m, c, more := RunRestores(t, ts, scan, pos, bands);
    assert [] + c == c;
    CoversParts(ts, EobTokens(scan.tbl, m, c), more);
    NoMarksInEob(scan.tbl, m, c);
    RestoresFromEob(t, ts, scan, bands, m, pos.toGo, c, more);
  }

  lemma BlockCodeShape(b: Band, tbl: nat)
    requires b.Len() > 0
    ensures NoMarks(BlockCode(b, tbl).syms) && (BlockCode(b, tbl).syms == [] ==> BlockCode(b, tbl).eob)
  {
    NoMarksInBand(b, tbl, 0, 0, []);
    if BlockCode(b, tbl).syms == [] {
      NothingNew(b, tbl, 0, 0, 0, []);
    }
  }

  lemma LeavesInside(scan: AcScan, pos: AcPos, code: Coded)
    requires code.syms == [] && code.eob && pos.eobrun < MAX_EOBRUN
    ensures Released(scan, pos, code) == [] && Pending(pos, code) == (pos.eobrun + 1, pos.be + code.rest)
    ensures var next := BlockLeaves(scan, pos, code);
            && next.toGo == AcNextToGo(scan, pos.toGo) && next.eobrun < MAX_EOBRUN
            && (if Forced(pos, code) then next.eobrun == 0 && next.be == []
                else next.eobrun == pos.eobrun + 1 && next.be == pos.be + code.rest)
  {
  }

  lemma ShapeInside(scan: AcScan, pos: AcPos, bands: Bands)
    requires bands != [] && !AcRestartDue(scan, pos.toGo) && BlockCode(bands[0], scan.tbl).syms == []
    requires pos.eobrun < MAX_EOBRUN
    ensures var next, c := AcStepPos(scan, pos, bands[0]), pos.be + BlockCode(bands[0], scan.tbl).rest;
            var tail := AcRunTokens(scan, next, bands[1..]);
            && next.toGo == AcNextToGo(scan, pos.toGo) && next.eobrun < MAX_EOBRUN
            && (if Forced(pos, BlockCode(bands[0], scan.tbl)) then
                  next.eobrun == 0 && next.be == []
                  && AcRunTokens(scan, pos, bands) == EobTokens(scan.tbl, pos.eobrun + 1, c) + tail
                else
                  next.eobrun == pos.eobrun + 1 && next.be == c && AcRunTokens(scan, pos, bands) == tail)
  {
    BlockSplits(scan, pos, bands);
    BlockCodeShape(bands[0], scan.tbl);
    LeavesInside(scan, pos, BlockCode(bands[0], scan.tbl));
    hide EobTokens, AcRunTokens, BlockCode, AcStepTokens, NoMarks, Forced, Pending, Released, BlockLeaves;
    var tail := AcRunTokens(scan, AcStepPos(scan, pos, bands[0]), bands[1..]);
    assert [] + tail == tail;
  }

  lemma ShapeSymbols(scan: AcScan, pos: AcPos, bands: Bands)
    requires bands != [] && !AcRestartDue(scan, pos.toGo) && BlockCode(bands[0], scan.tbl).syms != []
    ensures var code, next := BlockCode(bands[0], scan.tbl), AcStepPos(scan, pos, bands[0]);
            var tail := AcRunTokens(scan, next, bands[1..]);
            && NoMarks(code.syms) && next.toGo == AcNextToGo(scan, pos.toGo)
            && (if code.eob && !Forced(pos, code) then next.eobrun == 1 && next.be == code.rest
                else next.eobrun == 0 && next.be == [])
            && AcRunTokens(scan, pos, bands)
                 == EobTokens(scan.tbl, pos.eobrun, pos.be)
                    + (code.syms + if code.eob && Forced(pos, code) then EobTokens(scan.tbl, 1, code.rest) + tail
                        else tail)
  {
    BlockSplits(scan, pos, bands);
    BlockCodeShape(bands[0], scan.tbl);
    hide EobTokens, AcRunTokens, BlockCode, AcStepTokens, BlockSends, AcLead, NoMarks;
    var code, tail := BlockCode(bands[0], scan.tbl), AcRunTokens(scan, AcStepPos(scan, pos, bands[0]), bands[1..]);
    var forced := if Forced(pos, code) then EobTokens(scan.tbl, 1, code.rest) else [];
    assert [] + code.rest == code.rest && [] + tail == tail;
    Assoc(EobTokens(scan.tbl, pos.eobrun, pos.be), code.syms, forced + tail);
  }

  /** The first block has no symbols of its own: it joins the pending run. */
  lemma RunRestoresInside(t: LegalTable, ts: Coder, scan: AcScan, pos: AcPos, bands: Bands)
    returns (m: nat, c: Bits, more: seq<Token>)
    requires bands != [] && !AcRestartDue(scan, pos.toGo) && BlockCode(bands[0], scan.tbl).syms == []
    requires pos.eobrun < MAX_EOBRUN && BandsInRange(scan, bands) && Knows(t, ts, false, scan.tbl)
    requires ts.Covers(AcRunTokens(scan, pos, bands))
    ensures AcRunTokens(scan, pos, bands) == EobTokens(scan.tbl, pos.eobrun + m, pos.be + c) + more
    ensures 0 < m && pos.eobrun + m <= MAX_EOBRUN
    ensures Restores(t, ts, scan, bands, m, pos.toGo, c, more)
    decreases |bands|, AcRestartDue(scan, pos.toGo), 0
  {
    hide Knows, Restores, EobTokens, NewInRange, AcRunTokens, BlockCode, Forced, AcStepPos;
    var code, next := BlockCode(bands[0], scan.tbl), AcStepPos(scan, pos, bands[0]);
    var tail := AcRunTokens(scan, next, bands[1..]);
    ShapeInside(scan, pos, bands);
    if Forced(pos, code) {
      CoversParts(ts, EobTokens(scan.tbl, pos.eobrun + 1, pos.be + code.rest), tail);
      RunRestoresAfresh(t, ts, scan, next, bands[1..]);
      RestoresInsideRun(t, ts, scan, bands, 0, pos.toGo, [], tail);
      m, c, more := 1, code.rest + [], tail;
      assert code.rest + [] == code.rest;
    } else {
      var m', c', more' := RunRestores(t, ts, scan, next, bands[1..]);
      RestoresInsideRun(t, ts, scan, bands, m', pos.toGo, c', more');
      m, c, more := m' + 1, code.rest + c', more';
      Assoc(pos.be, code.rest, c');
    }
  }

  /** The first block has symbols of its own, and so ends the pending run. */
  lemma RunRestoresSymbols(t: LegalTable, ts: Coder, scan: AcScan, pos: AcPos, bands: Bands)
    returns (more: seq<Token>)
    requires bands != [] && !AcRestartDue(scan, pos.toGo) && BlockCode(bands[0], scan.tbl).syms != []
    requires pos.eobrun < MAX_EOBRUN && BandsInRange(scan, bands) && Knows(t, ts, false, scan.tbl)
    requires ts.Covers(AcRunTokens(scan, pos, bands))
    ensures AcRunTokens(scan, pos, bands) == EobTokens(scan.tbl, pos.eobrun, pos.be) + more
    ensures Restores(t, ts, scan, bands, 0, pos.toGo, [], more)
    decreases |bands|, AcRestartDue(scan, pos.toGo), 0
  {
    hide Knows, Restores, EobTokens, NewInRange, AcRunTokens, BlockCode, Forced, AcStepPos, NoMarks;
    var code, next := BlockCode(bands[0], scan.tbl), AcStepPos(scan, pos, bands[0]);
    var tail, before := AcRunTokens(scan, next, bands[1..]), EobTokens(scan.tbl, pos.eobrun, pos.be);
    ShapeSymbols(scan, pos, bands);
    if !code.eob {
      more := code.syms + tail;
      CoversTwo(ts, before, code.syms, tail);
      RunRestoresAfresh(t, ts, scan, next, bands[1..]);
      RestoresWithoutEob(t, ts, scan, bands, pos.toGo, tail);
    } else if Forced(pos, code) {
      var eob := EobTokens(scan.tbl, 1, code.rest);
      more := code.syms + (eob + tail);
      CoversTwo(ts, before, code.syms, eob + tail);
      CoversParts(ts, eob, tail);
      NoMarksInEob(scan.tbl, 1, code.rest);
      assert code.rest + [] == code.rest;
      RunRestoresAfresh(t, ts, scan, next, bands[1..]);
      RestoresAfterEob(t, ts, scan, bands, 0, pos.toGo, [], tail);
    } else {
      more := code.syms + tail;
      CoversTwo(ts, before, code.syms, tail);
      var m, c, more' := RunRestores(t, ts, scan, next, bands[1..]);
      NoMarksInEob(scan.tbl, 1 + m, code.rest + c);
      CoversParts(ts, EobTokens(scan.tbl, 1 + m, code.rest + c), more');
      RestoresAfterEob(t, ts, scan, bands, m, pos.toGo, c, more');
    }
  }

  lemma CoversTwo(ts: Coder, a: seq<Token>, b: seq<Token>, c: seq<Token>)
    requires ts.Covers(a + (b + c))
    ensures ts.Covers(a) && ts.Covers(b) && ts.Covers(c)
  {
    CoversParts(ts, a, b + c);
    CoversParts(ts, b, c);
  }

  // ----- from the bytes

  function AcStartPos(scan: AcScan): AcPos {
    AcPos(0, [], scan.restartInterval, 0)
  }

  lemma NoMarksInSends(scan: AcScan, pos: AcPos, b: Band)
    ensures NoMarks(BlockSends(scan, pos, BlockCode(b, scan.tbl)))
  {
    NoMarksInBand(b, scan.tbl, 0, 0, []);
    hide CodeBand, NumBits, EobSymbol, BitsOf;
  }

  lemma LeadNumbered(scan: AcScan, ts: Coder, pos: AcPos, pre: seq<Item>)
    requires ts.Covers(AcLead(scan, pos)) && Numbered(pre, pos.nextNum)
    ensures Numbered(pre + Items(ts, AcLead(scan, pos)), AcStart(scan, pos).nextNum)
  {
    if AcRestartDue(scan, pos.toGo) {
      var eob, mark := EobTokens(scan.tbl, pos.eobrun, pos.be), [Mark(pos.nextNum)];
      NoMarksInEob(scan.tbl, pos.eobrun, pos.be);
      hide EobTokens, Numbered, NoMarks;
      CoversParts(ts, eob, mark);
      ItemsConcat(ts, eob, mark);
      NoTokens(ts, pre);
      DataNumbered(ts, pre, [], eob, pos.nextNum);
      assert [] + eob == eob;
      assert mark[0] == Mark(pos.nextNum);
      assert Items(ts, mark) == [Restart(pos.nextNum)];
      RestartNumbered(pre + Items(ts, eob), pos.nextNum);
      Assoc(pre, Items(ts, eob), Items(ts, mark));
    } else {
      NoTokens(ts, pre);
    }
  }

  lemma NoTokens(ts: Coder, pre: seq<Item>)
    ensures ts.Covers([]) && pre + Items(ts, []) == pre
  {
  }

  lemma {:induction false} AcRunNumbered(scan: AcScan, ts: Coder, pos: AcPos, bands: Bands, pre: seq<Item>)
    requires ts.Covers(AcRunTokens(scan, pos, bands)) && Numbered(pre, pos.nextNum)
    ensures NumberedInOrder(pre + Items(ts, AcRunTokens(scan, pos, bands)))
    decreases |bands|
  {
    if bands == [] {
      var eob := EobTokens(scan.tbl, pos.eobrun, pos.be);
      NoMarksInEob(scan.tbl, pos.eobrun, pos.be);
      hide EobTokens, NoMarks;
      NoTokens(ts, pre);
      DataNumbered(ts, pre, [], eob, pos.nextNum);
      assert [] + eob == eob;
    } else {
      var lead, next := AcLead(scan, pos), AcStepPos(scan, pos, bands[0]);
      var sends := BlockSends(scan, AcStart(scan, pos), BlockCode(bands[0], scan.tbl));
      var more := AcRunTokens(scan, next, bands[1..]);
      assert AcRunTokens(scan, pos, bands) == (lead + sends) + more;
      assert next.nextNum == AcStart(scan, pos).nextNum;
      NoMarksInSends(scan, AcStart(scan, pos), bands[0]);
      hide AcLead, BlockSends, AcStepPos, AcStart, AcRunTokens, Numbered, NumberedInOrder, NoMarks, BlockCode;
      CoversParts(ts, lead + sends, more);
      CoversParts(ts, lead, sends);
      ItemsConcat(ts, lead + sends, more);
      LeadNumbered(scan, ts, pos, pre);
      DataNumbered(ts, pre, lead, sends, next.nextNum);
      AcRunNumbered(scan, ts, next, bands[1..], pre + Items(ts, lead + sends));
      Assoc(pre, Items(ts, lead + sends), Items(ts, more));
    }
  }

  /**
   Round trip of a progressive AC scan, first or refinement, for any number of blocks
   and any restart interval: a decoder that knows the coefficients to the precision
   before the scan recovers them to the precision after it, although end-of-band
   codes and correction bits were deferred.
   */
  lemma AcScanRoundTrip(t: LegalTable, ts: Coder, scan: AcScan, bands: Bands)
    requires BandsInRange(scan, bands) && Knows(t, ts, false, scan.tbl)
    requires ts.Covers(AcRunTokens(scan, AcStartPos(scan), bands))
    ensures WellNumbered(Items(ts, AcRunTokens(scan, AcStartPos(scan), bands)))
    ensures DecodeAcScan(t, scan, BeforeScan(bands), ScanBytes(Items(ts, AcRunTokens(scan, AcStartPos(scan), bands))))
         == Some(AfterScan(bands))
  {
    var tokens := AcRunTokens(scan, AcStartPos(scan), bands);
    RunRestoresAfresh(t, ts, scan, AcStartPos(scan), bands);
    PaddedSegsRestore(t, ts, scan, bands, tokens);
    CountersAgree(t, scan, BeforeScan(bands), 0, scan.restartInterval, 0, PaddedAll(Segments(Items(ts, tokens))));
    assert Numbered([], 0) by {
      assert |Segments([])| == 1;
    }
    AcRunNumbered(scan, ts, AcStartPos(scan), bands, []);
    hide AcRunTokens, NumberedInOrder, Segments, ScanBytes, DecodeAcRun, DecodeAcBlocks;
    assert [] + Items(ts, tokens) == Items(ts, tokens);
    NumberedIsWellNumbered(Items(ts, tokens));
    ScanReadsBack(Items(ts, tokens));
  }

  lemma PaddedSegsRestore(t: LegalTable, ts: Coder, scan: AcScan, bands: Bands, tokens: seq<Token>)
    requires Restores(t, ts, scan, bands, 0, scan.restartInterval, [], tokens)
    ensures DecodeAcRun(t, scan, BeforeScan(bands), 0, scan.restartInterval, PaddedAll(Segments(Items(ts, tokens))))
         == Some(AfterScan(bands))
  {
    hide DecodeAcRun, Segments;
    var segs := Segs(ts, tokens);
    var pads := seq(|segs|, i requires 0 <= i < |segs| => Ones(PadLength(|segs[i]|)));
    assert PaddedAll(segs) == WithPads(segs, pads);
    FrontNothing(WithPads(segs, pads));
    assert DecodesTo(t, scan, bands, 0, scan.restartInterval, Front([], WithPads(segs, pads)));
  }
}
