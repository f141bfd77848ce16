/**
 A sequential scan: MCUs, DC prediction and restart intervals. The encoder's side
 is a token list; the decoder's side follows section E.2 of ITU-T T.81.
 */
module SequentialScan {
  import opened BitString
  import opened ByteStream
  import opened HuffmanCode
  import opened Tokens
  import opened SequentialCode

  const MAX_COMPS_IN_SCAN := 4

  /**
   The scan parameters: zigzag order, component of every block of an MCU, table
   numbers of every component, and MCUs per restart interval (0 for none).
   */
  datatype ScanHeader = ScanHeader(order: seq<nat>, membership: seq<nat>, dcTbl: seq<nat>, acTbl: seq<nat>,
                                   restartInterval: nat) {
    predicate WellFormed() {
      && IsOrder(order)
      && |dcTbl| == |acTbl| <= MAX_COMPS_IN_SCAN
      && (forall b :: 0 <= b < |membership| ==> membership[b] < |dcTbl|)
      && (forall c :: 0 <= c < |dcTbl| ==> dcTbl[c] < NUM_HUFF_TBLS && acTbl[c] < NUM_HUFF_TBLS)
    }

    function Comps(): nat {
      |dcTbl|
    }
  }

  type Scan = s: ScanHeader | s.WellFormed()
    witness ScanHeader(seq(DCTSIZE2, i => i), [], [], [], 0)

  /** jpeg_natural_order: a bijection on 0..63 that fixes 0. */
  predicate IsOrder(order: seq<nat>) {
    && |order| == DCTSIZE2 && order[0] == 0
    && (forall k :: 0 <= k < DCTSIZE2 ==> order[k] < DCTSIZE2)
    && (forall j, k :: 0 <= j < k < DCTSIZE2 ==> order[j] != order[k])
  }

  function Zigzag(order: seq<nat>, block: Coefs): (z: Coefs)
    requires IsOrder(order)
    ensures z[0] == block[0]
  {
    seq(DCTSIZE2, k requires 0 <= k < DCTSIZE2 => block[order[k]])
  }

  /** The coder's state between MCUs. */
  datatype Pos = Pos(lastDc: seq<int>, toGo: nat, nextNum: nat)

  function StartPos(scan: Scan): Pos {
    Pos(Zeros(scan.Comps()), scan.restartInterval, 0)
  }

  type Mcu = seq<Coefs>

  // ----- the tokens of an MCU

  /** Blocks `b` and up of the MCU can be coded. */
  predicate McuInRange(scan: Scan, mcu: Mcu, b: nat, lastDc: seq<int>)
    requires |mcu| == |scan.membership| && b <= |mcu| && |lastDc| == scan.Comps()
    decreases |mcu| - b
  {
    b < |mcu| ==>
      var ci := scan.membership[b];
      && BlockInRange(Zigzag(scan.order, mcu[b]), lastDc[ci])
      && McuInRange(scan, mcu, b + 1, lastDc[ci := mcu[b][0]])
  }

  function McuTokens(scan: Scan, mcu: Mcu, b: nat, lastDc: seq<int>): (t: seq<Token>)
    requires |mcu| == |scan.membership| && b <= |mcu| && |lastDc| == scan.Comps()
    decreases |mcu| - b
  {
    if b == |mcu| then []
    else
      var ci := scan.membership[b];
      BlockTokens(Zigzag(scan.order, mcu[b]), lastDc[ci], scan.dcTbl[ci], scan.acTbl[ci])
      + McuTokens(scan, mcu, b + 1, lastDc[ci := mcu[b][0]])
  }

  /** The DC predictions after blocks `b` and up. */
  function LastDcAfter(scan: Scan, mcu: Mcu, b: nat, lastDc: seq<int>): (r: seq<int>)
    requires |mcu| == |scan.membership| && b <= |mcu| && |lastDc| == scan.Comps()
    ensures |r| == |lastDc|
    decreases |mcu| - b
  {
    if b == |mcu| then lastDc
    else LastDcAfter(scan, mcu, b + 1, lastDc[scan.membership[b] := mcu[b][0]])
  }

  // ----- one call of the encoder

  predicate RestartDue(scan: Scan, pos: Pos) {
    scan.restartInterval != 0 && pos.toGo == 0
  }

  /** The DC predictions an MCU starts from. */
  function StartDc(scan: Scan, pos: Pos): seq<int> {
    if RestartDue(scan, pos) then Zeros(scan.Comps()) else pos.lastDc
  }

  /** The marker a due restart sends before the MCU. */
  function MarkOf(scan: Scan, pos: Pos): seq<Token> {
    if RestartDue(scan, pos) then [Mark(pos.nextNum)] else []
  }

  predicate StepInRange(scan: Scan, pos: Pos, mcu: Mcu)
    requires |pos.lastDc| == scan.Comps() && |mcu| == |scan.membership|
  {
    McuInRange(scan, mcu, 0, StartDc(scan, pos))
  }

  function StepTokens(scan: Scan, pos: Pos, mcu: Mcu): seq<Token>
    requires |pos.lastDc| == scan.Comps() && |mcu| == |scan.membership|
  {
    MarkOf(scan, pos) + McuTokens(scan, mcu, 0, StartDc(scan, pos))
  }

  /** The counters after an MCU. */
  function NextToGo(scan: Scan, toGo: nat): nat {
    if scan.restartInterval == 0 then toGo
    else (if toGo == 0 then scan.restartInterval else toGo) - 1
  }

  function StepPos(scan: Scan, pos: Pos, mcu: Mcu): (r: Pos)
    requires |pos.lastDc| == scan.Comps() && |mcu| == |scan.membership|
    ensures |r.lastDc| == scan.Comps()
  {
    Pos(LastDcAfter(scan, mcu, 0, StartDc(scan, pos)),
        NextToGo(scan, pos.toGo),
        if RestartDue(scan, pos) then (pos.nextNum + 1) % 8 else pos.nextNum)
  }

  // ----- a run of MCUs

  /** Every MCU has as many blocks as the scan says. */
  predicate Shaped(scan: Scan, mcus: seq<Mcu>) {
    forall i :: 0 <= i < |mcus| ==> |mcus[i]| == |scan.membership|
  }

  predicate RunInRange(scan: Scan, pos: Pos, mcus: seq<Mcu>)
    requires |pos.lastDc| == scan.Comps() && Shaped(scan, mcus)
    decreases |mcus|
  {
    mcus != [] ==> StepInRange(scan, pos, mcus[0]) && RunInRange(scan, StepPos(scan, pos, mcus[0]), mcus[1..])
  }

  function RunTokens(scan: Scan, pos: Pos, mcus: seq<Mcu>): seq<Token>
    requires |pos.lastDc| == scan.Comps() && Shaped(scan, mcus)
    decreases |mcus|
  {
    if mcus == [] then []
    else StepTokens(scan, pos, mcus[0]) + RunTokens(scan, StepPos(scan, pos, mcus[0]), mcus[1..])
  }

  function RunPos(scan: Scan, pos: Pos, mcus: seq<Mcu>): (r: Pos)
    requires |pos.lastDc| == scan.Comps() && Shaped(scan, mcus)
    ensures |r.lastDc| == scan.Comps()
    decreases |mcus|
  {
    if mcus == [] then pos else RunPos(scan, StepPos(scan, pos, mcus[0]), mcus[1..])
  }

  // ----- restart intervals

  /** A restart marker stands before MCU i, counted from 0 (section B.2.4.4: an interval has so many MCUs). */
  predicate StartsInterval(interval: nat, i: nat) {
    interval > 0 && i > 0 && i % interval == 0
  }

  /** The coder's counter before MCU i. */
  predicate InInterval(interval: nat, toGo: nat, i: nat) {
    interval > 0 ==> toGo <= interval && (i + toGo) % interval == 0 && (toGo == interval <==> i == 0)
  }

  /** The counter runs out just where an interval starts. */
  lemma IntervalStep(interval: nat, toGo: nat, i: nat)
    requires InInterval(interval, toGo, i)
    ensures interval > 0 && toGo == 0 <==> StartsInterval(interval, i)
    ensures interval > 0 ==> InInterval(interval, (if toGo == 0 then interval else toGo) - 1, i + 1)
  {
    if interval > 0 && 0 < toGo < interval {
      NotMultiple(i, toGo, interval);
    }
    if interval > 0 && toGo == 0 {
      ModOfSum(i, interval);
    }
  }

  lemma NotMultiple(i: nat, t: nat, n: nat)
    requires 0 < t < n && (i + t) % n == 0
    ensures i % n != 0
  {
    if i % n == 0 {
      DivModUnique(i + t, n, i / n, t);
    }
  }

  lemma ModOfSum(i: nat, n: nat)
    requires n > 0 && i % n == 0
    ensures (i + n) % n == 0
  {
    DivModUnique(i + n, n, i / n + 1, 0);
  }

  /** The marker before MCU i: RST0 to RST7 in turn. */
  function MarkAt(interval: nat, i: nat): (m: seq<Token>) {
    if StartsInterval(interval, i) then [Mark((i / interval - 1) % 8)] else []
  }

  // ----- the decoder

  /** The decoder's tables, one slot per table number. */
  datatype DecoderTables = DecoderTables(dc: seq<LegalTable>, ac: seq<LegalTable>)

  type Decoder = d: DecoderTables | |d.dc| == |d.ac| == NUM_HUFF_TBLS
    witness DecoderTables(seq(NUM_HUFF_TBLS, _ => EmptyTable()), seq(NUM_HUFF_TBLS, _ => EmptyTable()))

  /** Blocks `b` and up of an MCU, in zigzag order (Figure E.10). */
  function DecodeMcu(d: Decoder, scan: Scan, b: nat, lastDc: seq<int>, input: Bits)
    : (r: Option<(seq<Coefs>, seq<int>, Bits)>)
    requires b <= |scan.membership| && |lastDc| == scan.Comps()
    ensures r.Some? ==> |r.value.0| == |scan.membership| - b && |r.value.1| == |lastDc|
    decreases |scan.membership| - b
  {
    if b == |scan.membership| then Some(([], lastDc, input))
    else
      var ci := scan.membership[b];
      match DecodeBlock(d.dc[scan.dcTbl[ci]], d.ac[scan.acTbl[ci]], lastDc[ci], input)
      case None => None
      case Some((z, rest)) =>
        match DecodeMcu(d, scan, b + 1, lastDc[ci := z[0]], rest)
        case None => None
        case Some((zs, last, rest')) => Some(([z] + zs, last, rest'))
  }

  /** n MCUs from MCU i on; a new segment begins after every restart interval (Figures E.8 and E.9). */
  function DecodeMcus(d: Decoder, scan: Scan, segs: seq<Bits>, lastDc: seq<int>, i: nat, n: nat)
    : (r: Option<seq<seq<Coefs>>>)
    requires |lastDc| == scan.Comps()
    decreases n
  {
    if n == 0 then Some([])
    else
      var restart := StartsInterval(scan.restartInterval, i);
      var segs' := if restart && segs != [] then segs[1..] else segs;
      if segs' == [] then None
      else
        match DecodeMcu(d, scan, 0, if restart then Zeros(scan.Comps()) else lastDc, segs'[0])
        case None => None
        case Some((zs, last, rest)) =>
          match DecodeMcus(d, scan, [rest] + segs'[1..], last, i + 1, n - 1)
          case None => None
          case Some(more) => Some([zs] + more)
  }

  /** The whole scan, from its bytes. */
  function DecodeScan(d: Decoder, scan: Scan, bytes: seq<byte>, n: nat): Option<seq<seq<Coefs>>>
  {
    match ReadScan(bytes, 0)
    case None => None
    case Some(segs) => DecodeMcus(d, scan, segs, Zeros(scan.Comps()), 0, n)
  }

  /** Put the decoded coefficients back into natural order. */
  function PlaceOf(order: seq<nat>, i: nat, k: nat): (r: nat)
    requires 1 <= k <= |order|
    ensures r < k && (i in order[..k] ==> order[r] == i)
  {
    if k == 1 || order[k - 1] == i then k - 1 else PlaceOf(order, i, k - 1)
  }

  function Unzigzag(order: seq<nat>, z: Coefs): (block: Coefs)
    requires IsOrder(order)
  {
    seq(DCTSIZE2, i requires 0 <= i < DCTSIZE2 => z[PlaceOf(order, i, DCTSIZE2)])
  }

  /** Every position of the block is reached: a one-to-one list of 64 numbers below 64 misses none. */
  lemma OrderIsOnto(order: seq<nat>, i: nat)
    requires IsOrder(order) && i < DCTSIZE2
    ensures i in order
  {
    hide ElementsOf, Below;
    var n := |order|;
    ElementsCount(order, n);
    forall x | x in ElementsOf(order, n) ensures x in Below(n) {
      ElementsMean(order, n, x);
      var k :| 0 <= k < n && order[..n][k] == x;
      assert order[k] < n;
    }
    SubsetOfSameSize(ElementsOf(order, n), Below(n));
    assert i in Below(n);
    ElementsMean(order, n, i);
    assert order[..n] == order;
  }

  function ElementsOf(order: seq<nat>, n: nat): (s: set<nat>)
    requires n <= |order|
  {
    if n == 0 then {} else ElementsOf(order, n - 1) + {order[n - 1]}
  }

  lemma {:induction false} ElementsMean(order: seq<nat>, n: nat, x: nat)
    requires n <= |order|
    ensures x in ElementsOf(order, n) <==> x in order[..n]
  {
    if n > 0 {
      ElementsMean(order, n - 1, x);
      assert order[..n] == order[..n - 1] + [order[n - 1]];
    }
  }

  lemma {:induction false} ElementsCount(order: seq<nat>, n: nat)
    requires n <= |order| && forall j, k :: 0 <= j < k < |order| ==> order[j] != order[k]
    ensures |ElementsOf(order, n)| == n
  {
    if n > 0 {
      ElementsCount(order, n - 1);
      ElementsMean(order, n - 1, order[n - 1]);
      assert order[n - 1] !in order[..n - 1];
    }
  }

  function Below(n: nat): (s: set<nat>)
    ensures |s| == n && forall x: nat :: x in s <==> x < n
  {
    if n == 0 then {} else Below(n - 1) + {n - 1}
  }

  lemma SubsetOfSameSize<T>(a: set<T>, b: set<T>)
    requires a <= b && |a| == |b|
    ensures a == b
  {
    assert |b - a| == |b| - |a|;
  }

  lemma UnzigzagInverts(order: seq<nat>, block: Coefs)
    requires IsOrder(order)
    ensures Unzigzag(order, Zigzag(order, block)) == block
  {
    var z := Zigzag(order, block);
    forall i | 0 <= i < DCTSIZE2 ensures Unzigzag(order, z)[i] == block[i] {
      OrderIsOnto(order, i);
      assert order[..DCTSIZE2] == order;
    }
  }

  // ----- the round trip

  ghost predicate DecoderKnows(d: Decoder, ts: Coder) {
    forall i :: 0 <= i < NUM_HUFF_TBLS ==> Knows(d.dc[i], ts, true, i) && Knows(d.ac[i], ts, false, i)
  }

  function ZigzagAll(scan: Scan, mcu: Mcu, b: nat): (zs: seq<Coefs>)
    requires b <= |mcu|
    ensures |zs| == |mcu| - b
    decreases |mcu| - b
  {
    if b == |mcu| then [] else [Zigzag(scan.order, mcu[b])] + ZigzagAll(scan, mcu, b + 1)
  }

  lemma {:induction false} NoMarksInMcu(scan: Scan, mcu: Mcu, b: nat, lastDc: seq<int>)
    requires |mcu| == |scan.membership| && b <= |mcu| && |lastDc| == scan.Comps()
    ensures NoMarks(McuTokens(scan, mcu, b, lastDc))
    decreases |mcu| - b
  {
    hide IsOrder, BlockTokens, Zigzag;
    if b < |mcu| {
      hide NoMarks;
      var ci := scan.membership[b];
      var z, more := Zigzag(scan.order, mcu[b]), lastDc[ci := mcu[b][0]];
      NoMarksInMcu(scan, mcu, b + 1, more);
      NoMarksInBlock(z, lastDc[ci], scan.dcTbl[ci], scan.acTbl[ci]);
      NoMarksConcat(BlockTokens(z, lastDc[ci], scan.dcTbl[ci], scan.acTbl[ci]), McuTokens(scan, mcu, b + 1, more));
    }
  }

  lemma {:induction false} McuDecodes(d: Decoder, scan: Scan, ts: Coder, mcu: Mcu, b: nat, lastDc: seq<int>, tail: Bits)
    requires |mcu| == |scan.membership| && b <= |mcu| && |lastDc| == scan.Comps()
    requires McuInRange(scan, mcu, b, lastDc) && DecoderKnows(d, ts)
    requires Sendable(ts, McuTokens(scan, mcu, b, lastDc))
    ensures DecodeMcu(d, scan, b, lastDc, TokenBits(ts, McuTokens(scan, mcu, b, lastDc)) + tail)
         == Some((ZigzagAll(scan, mcu, b), LastDcAfter(scan, mcu, b, lastDc), tail))
    decreases |mcu| - b
  {
    hide BlockTokens, TokenBits, Sendable, DecodeBlock, BlockInRange, Knows;
    if b == |mcu| {
      assert TokenBits(ts, []) + tail == tail by { EmptyTokens(ts); }
    } else {
      var ci, z := scan.membership[b], Zigzag(scan.order, mcu[b]);
      var block := BlockTokens(z, lastDc[ci], scan.dcTbl[ci], scan.acTbl[ci]);
      var more := McuTokens(scan, mcu, b + 1, lastDc[ci := mcu[b][0]]);
      SendableParts(ts, block, more);
      TokenBitsConcat(ts, block, more);
      Assoc(TokenBits(ts, block), TokenBits(ts, more), tail);
      DecodeBlockInverts(d.dc[scan.dcTbl[ci]], d.ac[scan.acTbl[ci]], ts, z, lastDc[ci],
                         scan.dcTbl[ci], scan.acTbl[ci], TokenBits(ts, more) + tail);
      McuDecodes(d, scan, ts, mcu, b + 1, lastDc[ci := mcu[b][0]], tail);
    }
  }

  lemma EmptyTokens(ts: Coder)
    ensures Sendable(ts, []) && TokenBits(ts, []) == []
  {
  }

  // ----- segments of tokens

  function Segs(ts: Coder, tokens: seq<Token>): (segs: seq<Bits>)
    requires ts.Covers(tokens)
    ensures |segs| > 0
  {
    Segments(Items(ts, tokens))
  }

  lemma SegsConcat(ts: Coder, a: seq<Token>, b: seq<Token>)
    requires ts.Covers(a) && ts.Covers(b)
    ensures ts.Covers(a + b) && Segs(ts, a + b) == Joined(Segs(ts, a), Segs(ts, b))
  {
    ItemsConcat(ts, a, b);
    SegmentsConcat(Items(ts, a), Items(ts, b));
  }

  /** Tokens without markers are one segment. */
  lemma {:induction false} SegsOfData(ts: Coder, tokens: seq<Token>)
    requires Sendable(ts, tokens)
    ensures Segs(ts, tokens) == [TokenBits(ts, tokens)]
  {
    if tokens == [] {
      assert Items(ts, tokens) == [];
    } else {
      var t, more := tokens[0], tokens[1..];
      assert tokens == [t] + more;
      FirstTokenBits(ts, t, more);
      SendableParts(ts, [t], more);
      SegsOfData(ts, more);
      SegsConcat(ts, [t], more);
      SegsOfOne(ts, t);
    }
  }

  lemma SegsOfOne(ts: Coder, t: Token)
    requires ts.Covers([t])
    ensures [t][0] == t && (t.Symbol? ==> t.tbl < NUM_HUFF_TBLS)
    ensures Segs(ts, [t]) == if t.Mark? then [[], []] else [ItemOf(ts, t).bits]
  {
    assert [t][0] == t;
    var items := Items(ts, [t]);
    assert items == [ItemOf(ts, t)] && items[..0] == [];
    assert Segments(items) == Extended([[]], ItemOf(ts, t));
    if !t.Mark? {
      assert [] + ItemOf(ts, t).bits == ItemOf(ts, t).bits;
    }
  }

  /** Segments as the decoder finds them: each followed by some padding. */
  function WithPads(segs: seq<Bits>, pads: seq<Bits>): (r: seq<Bits>)
    requires |segs| == |pads|
    ensures |r| == |segs|
  {
    seq(|segs|, i requires 0 <= i < |segs| => segs[i] + pads[i])
  }

  function ZigzagRun(scan: Scan, mcus: seq<Mcu>): (zs: seq<seq<Coefs>>)
    ensures |zs| == |mcus|
  {
    seq(|mcus|, i requires 0 <= i < |mcus| => ZigzagAll(scan, mcus[i], 0))
  }

  /** Where the tokens of one MCU stand in the segments. */
  lemma StepSegs(ts: Coder, mark: seq<Token>, mcu: seq<Token>, more: seq<Token>)
    requires ts.Covers(mark + mcu + more) && NoMarks(mcu)
    requires mark == [] || (|mark| == 1 && mark[0].Mark?)
    ensures Sendable(ts, mcu) && ts.Covers(more)
    ensures var rest := Segs(ts, more);
            Segs(ts, mark + mcu + more)
              == (if mark == [] then [] else [[]]) + [TokenBits(ts, mcu) + rest[0]] + rest[1..]
  {
    CoversParts(ts, mark + mcu, more);
    CoversParts(ts, mark, mcu);
    SegsConcat(ts, mark + mcu, more);
    SegsConcat(ts, mark, mcu);
    SegsOfData(ts, mcu);
    hide Segs, TokenBits;
    if mark == [] {
      assert mark + mcu == mcu;
    } else {
      assert mark == [mark[0]];
      SegsOfOne(ts, mark[0]);
      assert [] + TokenBits(ts, mcu) == TokenBits(ts, mcu);
    }
  }

  /** The decoder's step on padded segments. */
  lemma DecodeOneMcu(d: Decoder, scan: Scan, ts: Coder, pos: Pos, mcu: Mcu, rest: seq<Bits>, segs: seq<Bits>, i: nat,
                     n: nat)
    requires |pos.lastDc| == scan.Comps() && |mcu| == |scan.membership| && StepInRange(scan, pos, mcu)
               && DecoderKnows(d, ts)
    requires rest != [] && Sendable(ts, McuTokens(scan, mcu, 0, StartDc(scan, pos)))
    requires var bits := TokenBits(ts, McuTokens(scan, mcu, 0, StartDc(scan, pos)));
             (if RestartDue(scan, pos) then segs != [] && segs[1..] == [bits + rest[0]] + rest[1..]
              else segs == [bits + rest[0]] + rest[1..])
    requires n > 0 && InInterval(scan.restartInterval, pos.toGo, i)
    requires DecodeMcus(d, scan, rest, StepPos(scan, pos, mcu).lastDc, i + 1, n - 1).Some?
    ensures DecodeMcus(d, scan, segs, pos.lastDc, i, n)
         == Some([ZigzagAll(scan, mcu, 0)]
                 + DecodeMcus(d, scan, rest, StepPos(scan, pos, mcu).lastDc, i + 1, n - 1).value)
  {
    hide TokenBits, Sendable, McuTokens, McuInRange, DecodeMcu, DecodeMcus, ZigzagAll, LastDcAfter, InInterval;
    var start := StartDc(scan, pos);
    McuDecodes(d, scan, ts, mcu, 0, start, rest[0]);
    var bits := TokenBits(ts, McuTokens(scan, mcu, 0, start));
    assert [rest[0]] + rest[1..] == rest;
    DecodeMcusBy(d, scan, segs, pos, i, n, bits + rest[0], rest[1..], ZigzagAll(scan, mcu, 0),
                 LastDcAfter(scan, mcu, 0, start), rest[0]);
  }

  lemma DecodeMcusBy(d: Decoder, scan: Scan, segs: seq<Bits>, pos: Pos, i: nat, n: nat, first: Bits, more: seq<Bits>,
                     zs: seq<Coefs>, last: seq<int>, rest: Bits)
    requires |pos.lastDc| == |last| == scan.Comps() && n > 0 && InInterval(scan.restartInterval, pos.toGo, i)
    requires if RestartDue(scan, pos) then segs != [] && segs[1..] == [first] + more else segs == [first] + more
    requires DecodeMcu(d, scan, 0, StartDc(scan, pos), first) == Some((zs, last, rest))
    requires DecodeMcus(d, scan, [rest] + more, last, i + 1, n - 1).Some?
    ensures DecodeMcus(d, scan, segs, pos.lastDc, i, n)
         == Some([zs] + DecodeMcus(d, scan, [rest] + more, last, i + 1, n - 1).value)
  {
    IntervalStep(scan.restartInterval, pos.toGo, i);
    hide DecodeMcu, StartsInterval, InInterval;
    var segs' := if RestartDue(scan, pos) then segs[1..] else segs;
    assert segs'[0] == first && segs'[1..] == more;
  }

  lemma PadsSplit(mark: seq<Bits>, bits: Bits, rest: seq<Bits>, pads: seq<Bits>)
    requires |rest| > 0 && |pads| == |mark| + |rest|
    ensures var segs := mark + [bits + rest[0]] + rest[1..];
            var padded, rest' := WithPads(segs, pads), WithPads(rest, pads[|mark|..]);
            padded[|mark|..] == [bits + rest'[0]] + rest'[1..]
  {
    var segs := mark + [bits + rest[0]] + rest[1..];
    var padded, rest' := WithPads(segs, pads), WithPads(rest, pads[|mark|..]);
    Assoc(bits, rest[0], pads[|mark|]);
    assert padded[|mark|] == bits + rest'[0];
  }

  /** The segment that a due restart closes before the MCU. */
  function ClosedBefore(scan: Scan, pos: Pos): seq<Bits> {
    if RestartDue(scan, pos) then [[]] else []
  }

  lemma SegsOfRun(scan: Scan, ts: Coder, pos: Pos, mcus: seq<Mcu>)
    requires |pos.lastDc| == scan.Comps() && mcus != [] && Shaped(scan, mcus)
    requires ts.Covers(RunTokens(scan, pos, mcus))
    ensures Sendable(ts, McuTokens(scan, mcus[0], 0, StartDc(scan, pos)))
    ensures var more := RunTokens(scan, StepPos(scan, pos, mcus[0]), mcus[1..]);
            && ts.Covers(more)
            && Segs(ts, RunTokens(scan, pos, mcus))
                 == ClosedBefore(scan, pos)
                    + [TokenBits(ts, McuTokens(scan, mcus[0], 0, StartDc(scan, pos))) + Segs(ts, more)[0]]
                    + Segs(ts, more)[1..]
  {
    var start, more := StartDc(scan, pos), RunTokens(scan, StepPos(scan, pos, mcus[0]), mcus[1..]);
    NoMarksInMcu(scan, mcus[0], 0, start);
    assert RunTokens(scan, pos, mcus) == MarkOf(scan, pos) + McuTokens(scan, mcus[0], 0, start) + more;
    hide RunTokens, McuTokens, Segs, TokenBits;
    StepSegs(ts, MarkOf(scan, pos), McuTokens(scan, mcus[0], 0, start), more);
  }

  /** Whatever padding follows the segments, the decoder gets every MCU of the run. */
  lemma {:induction false} RunDecodes(d: Decoder, scan: Scan, ts: Coder, pos: Pos, mcus: seq<Mcu>, i: nat,
                                      pads: seq<Bits>)
    requires |pos.lastDc| == scan.Comps() && Shaped(scan, mcus) && RunInRange(scan, pos, mcus) && DecoderKnows(d, ts)
    requires ts.Covers(RunTokens(scan, pos, mcus)) && |pads| == |Segs(ts, RunTokens(scan, pos, mcus))|
    requires InInterval(scan.restartInterval, pos.toGo, i)
    ensures DecodeMcus(d, scan, WithPads(Segs(ts, RunTokens(scan, pos, mcus)), pads), pos.lastDc, i, |mcus|)
         == Some(ZigzagRun(scan, mcus))
    decreases |mcus|
  {
    hide Segs, TokenBits, Sendable, RunTokens, DecodeMcus, McuTokens, StepPos, McuInRange, DecoderKnows, ZigzagAll,
      InInterval;
    if mcus == [] {
      NothingToDecode(d, scan, WithPads(Segs(ts, RunTokens(scan, pos, mcus)), pads), pos, i);
    } else {
      SegsOfRun(scan, ts, pos, mcus);
      RunSplits(scan, mcus);
      var next, front := StepPos(scan, pos, mcus[0]), ClosedBefore(scan, pos);
      var rest, pads' := Segs(ts, RunTokens(scan, next, mcus[1..])), pads[|front|..];
      var bits := TokenBits(ts, McuTokens(scan, mcus[0], 0, StartDc(scan, pos)));
      NextInterval(scan, pos, mcus[0], i);
      RunDecodes(d, scan, ts, next, mcus[1..], i + 1, pads');
      PadsSplit(front, bits, rest, pads);
      DecodeOneMcu(d, scan, ts, pos, mcus[0], WithPads(rest, pads'),
                   WithPads(front + [bits + rest[0]] + rest[1..], pads), i, |mcus|);
    }
  }

  lemma NextInterval(scan: Scan, pos: Pos, mcu: Mcu, i: nat)
    requires |pos.lastDc| == scan.Comps() && |mcu| == |scan.membership|
    requires InInterval(scan.restartInterval, pos.toGo, i)
    ensures InInterval(scan.restartInterval, StepPos(scan, pos, mcu).toGo, i + 1)
  {
    IntervalStep(scan.restartInterval, pos.toGo, i);
  }

  lemma NothingToDecode(d: Decoder, scan: Scan, segs: seq<Bits>, pos: Pos, i: nat)
    requires |pos.lastDc| == scan.Comps()
    ensures DecodeMcus(d, scan, segs, pos.lastDc, i, 0) == Some(ZigzagRun(scan, []))
  {
    assert ZigzagRun(scan, []) == [];
  }

  lemma RunSplits(scan: Scan, mcus: seq<Mcu>)
    requires mcus != []
    ensures ZigzagRun(scan, mcus) == [ZigzagAll(scan, mcus[0], 0)] + ZigzagRun(scan, mcus[1..])
  {
  }

  // ----- numbering of the markers

  /** The markers so far count up from 0, and n comes next. */
  predicate Numbered(pre: seq<Item>, n: nat) {
    NumberedInOrder(pre) && n == (|Segments(pre)| - 1) % 8
  }

  lemma StepNumbered(scan: Scan, ts: Coder, pos: Pos, mcu: Mcu, pre: seq<Item>)
    requires |pos.lastDc| == scan.Comps() && |mcu| == |scan.membership|
    requires ts.Covers(StepTokens(scan, pos, mcu)) && Numbered(pre, pos.nextNum)
    ensures Numbered(pre + Items(ts, StepTokens(scan, pos, mcu)), StepPos(scan, pos, mcu).nextNum)
  {
    var mark, toks := MarkOf(scan, pos), McuTokens(scan, mcu, 0, StartDc(scan, pos));
    var n := if RestartDue(scan, pos) then (pos.nextNum + 1) % 8 else pos.nextNum;
    assert StepTokens(scan, pos, mcu) == mark + toks && StepPos(scan, pos, mcu).nextNum == n;
    NoMarksInMcu(scan, mcu, 0, StartDc(scan, pos));
    hide *;
    CoversParts(ts, mark, toks);
    MarkNumbered(scan, ts, pos, pre);
    DataNumbered(ts, pre, mark, toks, n);
  }

  lemma DataNumbered(ts: Coder, pre: seq<Item>, mark: seq<Token>, toks: seq<Token>, n: nat)
    requires ts.Covers(mark) && ts.Covers(toks) && NoMarks(toks) && Numbered(pre + Items(ts, mark), n)
    ensures ts.Covers(mark + toks) && Numbered(pre + Items(ts, mark + toks), n)
  {
    hide NumberedInOrder, Segments;
    ItemsConcat(ts, mark, toks);
    DataKeepsNumbering(pre + Items(ts, mark), Items(ts, toks));
    Assoc(pre, Items(ts, mark), Items(ts, toks));
  }

  lemma MarkNumbered(scan: Scan, ts: Coder, pos: Pos, pre: seq<Item>)
    requires ts.Covers(MarkOf(scan, pos)) && Numbered(pre, pos.nextNum)
    ensures Numbered(pre + Items(ts, MarkOf(scan, pos)),
                     if RestartDue(scan, pos) then (pos.nextNum + 1) % 8 else pos.nextNum)
  {
    hide Numbered;
    if RestartDue(scan, pos) {
      assert Items(ts, MarkOf(scan, pos)) == [Restart(pos.nextNum)];
      RestartNumbered(pre, pos.nextNum);
    } else {
      assert pre + Items(ts, MarkOf(scan, pos)) == pre;
    }
  }

  lemma RestartNumbered(pre: seq<Item>, n: nat)
    requires Numbered(pre, n)
    ensures Numbered(pre + [Restart(n)], (n + 1) % 8)
  {
    assert (pre + [Restart(n)])[..|pre|] == pre;
    NextNumber(|Segments(pre)| - 1);
  }

  lemma NextNumber(x: nat)
    ensures (x % 8 + 1) % 8 == (x + 1) % 8
  {
  }

  lemma {:induction false} RunNumbered(scan: Scan, ts: Coder, pos: Pos, mcus: seq<Mcu>, pre: seq<Item>)
    requires |pos.lastDc| == scan.Comps() && Shaped(scan, mcus)
    requires ts.Covers(RunTokens(scan, pos, mcus)) && Numbered(pre, pos.nextNum)
    ensures NumberedInOrder(pre + Items(ts, RunTokens(scan, pos, mcus)))
    decreases |mcus|
  {
    if mcus == [] {
      assert pre + Items(ts, []) == pre;
    } else {
      var step, next := StepTokens(scan, pos, mcus[0]), StepPos(scan, pos, mcus[0]);
      var more := RunTokens(scan, next, mcus[1..]);
      hide StepTokens, StepPos, Numbered, NumberedInOrder;
      CoversParts(ts, step, more);
      ItemsConcat(ts, step, more);
      StepNumbered(scan, ts, pos, mcus[0], pre);
      RunNumbered(scan, ts, next, mcus[1..], pre + Items(ts, step));
      Assoc(pre, Items(ts, step), Items(ts, more));
    }
  }

  /** The blocks in natural order. */
  function UnzigzagRun(order: seq<nat>, zs: seq<seq<Coefs>>): (mcus: seq<Mcu>)
    requires IsOrder(order)
    ensures |mcus| == |zs|
  {
    seq(|zs|, i requires 0 <= i < |zs| =>
      seq(|zs[i]|, b requires 0 <= b < |zs[i]| => Unzigzag(order, zs[i][b])))
  }

  /** The decoder of section F.2.2, blocks and all. */
  function DecodeBlocks(d: Decoder, scan: Scan, bytes: seq<byte>, n: nat): Option<seq<Mcu>> {
    match DecodeScan(d, scan, bytes, n)
    case None => None
    case Some(zs) => Some(UnzigzagRun(scan.order, zs))
  }

  lemma RunComesBack(scan: Scan, mcus: seq<Mcu>)
    ensures UnzigzagRun(scan.order, ZigzagRun(scan, mcus)) == mcus
  {
    var zs := ZigzagRun(scan, mcus);
    hide Unzigzag, ZigzagAll;
    forall i | 0 <= i < |mcus| ensures UnzigzagRun(scan.order, zs)[i] == mcus[i] {
      forall b | 0 <= b < |mcus[i]| ensures Unzigzag(scan.order, zs[i][b]) == mcus[i][b] {
        BlocksComeBack(scan, mcus[i], 0, b);
      }
    }
  }

  /**
   Sequential round trip: from the finished bytes of any run of MCUs in range, for
   any restart interval, the decoder that has the tables gets back every MCU.
   */
  lemma ScanRoundTrip(d: Decoder, scan: Scan, ts: Coder, mcus: seq<Mcu>)
    requires Shaped(scan, mcus) && RunInRange(scan, StartPos(scan), mcus) && DecoderKnows(d, ts)
    requires ts.Covers(RunTokens(scan, StartPos(scan), mcus))
    ensures WellNumbered(Items(ts, RunTokens(scan, StartPos(scan), mcus)))
    ensures DecodeBlocks(d, scan, ScanBytes(Items(ts, RunTokens(scan, StartPos(scan), mcus))), |mcus|) == Some(mcus)
  {
    hide RunTokens, DecodeScan, RunInRange, DecoderKnows, ScanBytes, UnzigzagRun, ZigzagRun;
    ScanDecodes(d, scan, ts, mcus);
    RunComesBack(scan, mcus);
  }

  /** The same in zigzag order. */
  lemma ScanDecodes(d: Decoder, scan: Scan, ts: Coder, mcus: seq<Mcu>)
    requires Shaped(scan, mcus) && RunInRange(scan, StartPos(scan), mcus) && DecoderKnows(d, ts)
    requires ts.Covers(RunTokens(scan, StartPos(scan), mcus))
    ensures WellNumbered(Items(ts, RunTokens(scan, StartPos(scan), mcus)))
    ensures DecodeScan(d, scan, ScanBytes(Items(ts, RunTokens(scan, StartPos(scan), mcus))), |mcus|)
         == Some(ZigzagRun(scan, mcus))
  {
    var pos, tokens := StartPos(scan), RunTokens(scan, StartPos(scan), mcus);
    StartIsNumbered(scan, ts, mcus);
    RunDecodesFromBytes(d, scan, ts, pos, mcus);
    hide *;
    NumberedIsWellNumbered(Items(ts, tokens));
    ScanReadsBack(Items(ts, tokens));
  }

  lemma StartIsNumbered(scan: Scan, ts: Coder, mcus: seq<Mcu>)
    requires Shaped(scan, mcus) && ts.Covers(RunTokens(scan, StartPos(scan), mcus))
    ensures NumberedInOrder(Items(ts, RunTokens(scan, StartPos(scan), mcus)))
  {
    var pos := StartPos(scan);
    var items := Items(ts, RunTokens(scan, pos, mcus));
    assert Numbered([], pos.nextNum) by {
      assert |Segments([])| == 1;
    }
    hide *;
    RunNumbered(scan, ts, pos, mcus, []);
    assert [] + items == items;
  }

  lemma RunDecodesFromBytes(d: Decoder, scan: Scan, ts: Coder, pos: Pos, mcus: seq<Mcu>)
    requires |pos.lastDc| == scan.Comps() && Shaped(scan, mcus) && RunInRange(scan, pos, mcus) && DecoderKnows(d, ts)
    requires ts.Covers(RunTokens(scan, pos, mcus))
    requires InInterval(scan.restartInterval, pos.toGo, 0)
    ensures DecodeMcus(d, scan, PaddedAll(Segments(Items(ts, RunTokens(scan, pos, mcus)))), pos.lastDc, 0, |mcus|)
         == Some(ZigzagRun(scan, mcus))
  {
    hide RunTokens, RunInRange, DecoderKnows, DecodeMcus, Segments;
    var segs := Segs(ts, RunTokens(scan, pos, mcus));
    var pads := seq(|segs|, i requires 0 <= i < |segs| => Ones(PadLength(|segs[i]|)));
    assert PaddedAll(segs) == WithPads(segs, pads);
    RunDecodes(d, scan, ts, pos, mcus, 0, pads);
  }

  /** And the blocks themselves come back, in natural order. */
  lemma {:induction false} BlocksComeBack(scan: Scan, mcu: Mcu, b: nat, i: nat)
    requires b <= i < |mcu|
    ensures Unzigzag(scan.order, ZigzagAll(scan, mcu, b)[i - b]) == mcu[i]
    decreases |mcu| - b
  {
    if b == i {
      UnzigzagInverts(scan.order, mcu[i]);
    } else {
      BlocksComeBack(scan, mcu, b + 1, i);
    }
  }

  /** What the decoder reads k-th in a block is the coefficient at position order[k] of the block. */
  lemma DecodedInOrder(d: Decoder, scan: Scan, ts: Coder, mcus: seq<Mcu>, i: nat, b: nat, k: nat)
    requires Shaped(scan, mcus) && RunInRange(scan, StartPos(scan), mcus) && DecoderKnows(d, ts)
    requires ts.Covers(RunTokens(scan, StartPos(scan), mcus))
    requires i < |mcus| && b < |mcus[i]| && k < 64
    ensures WellNumbered(Items(ts, RunTokens(scan, StartPos(scan), mcus)))
    ensures var zs := DecodeScan(d, scan, ScanBytes(Items(ts, RunTokens(scan, StartPos(scan), mcus))), |mcus|);
            && zs.Some? && |zs.value| == |mcus| && |zs.value[i]| == |mcus[i]|
            && zs.value[i][b][k] == mcus[i][b][scan.order[k]]
  {
    hide *;
    ScanDecodes(d, scan, ts, mcus);
    BlockIn(scan, mcus, i, b, k);
  }

  lemma BlockIn(scan: Scan, mcus: seq<Mcu>, i: nat, b: nat, k: nat)
    requires i < |mcus| && b < |mcus[i]| && k < 64
    ensures |scan.order| == 64 && scan.order[k] < 64
    ensures |ZigzagRun(scan, mcus)[i]| == |mcus[i]| && |ZigzagRun(scan, mcus)[i][b]| == 64
    ensures ZigzagRun(scan, mcus)[i][b][k] == mcus[i][b][scan.order[k]]
  {
    BlockAt(scan, mcus[i], 0, b);
    hide ZigzagAll;
  }

  lemma {:induction false} BlockAt(scan: Scan, mcu: Mcu, b: nat, i: nat)
    requires b <= i < |mcu|
    ensures |ZigzagAll(scan, mcu, b)| == |mcu| - b && ZigzagAll(scan, mcu, b)[i - b] == Zigzag(scan.order, mcu[i])
    decreases |mcu| - b
  {
    if b < i {
      BlockAt(scan, mcu, b + 1, i);
    }
  }

  // ----- where the markers stand

  /** MCUs from MCU i on, told by their numbers alone where a marker stands and the predictions start afresh. */
  function SpacedTokens(scan: Scan, mcus: seq<Mcu>, i: nat, lastDc: seq<int>): seq<Token>
    requires |lastDc| == scan.Comps() && Shaped(scan, mcus)
    decreases |mcus|
  {
    if mcus == [] then []
    else
      var dc := if StartsInterval(scan.restartInterval, i) then Zeros(scan.Comps()) else lastDc;
      MarkAt(scan.restartInterval, i) + McuTokens(scan, mcus[0], 0, dc)
      + SpacedTokens(scan, mcus[1..], i + 1, LastDcAfter(scan, mcus[0], 0, dc))
  }

  /** The number of the next marker before MCU i. */
  predicate NumberedFor(interval: nat, nextNum: nat, i: nat) {
    nextNum == if interval == 0 || i == 0 then 0 else (i - 1) / interval % 8
  }

  lemma NumberStep(interval: nat, nextNum: nat, i: nat)
    requires NumberedFor(interval, nextNum, i)
    ensures MarkAt(interval, i) == if StartsInterval(interval, i) then [Mark(nextNum)] else []
    ensures NumberedFor(interval, if StartsInterval(interval, i) then (nextNum + 1) % 8 else nextNum, i + 1)
  {
    if interval > 0 && i > 0 {
      var q, r := i / interval, i % interval;
      if r == 0 {
        DivModUnique(i - 1, interval, q - 1, interval - 1);
        NextNumber(q - 1);
      } else {
        DivModUnique(i - 1, interval, q, r - 1);
      }
    } else if interval > 0 {
      DivModUnique(0, interval, 0, 0);
    }
  }

  lemma {:induction false} RunIsSpaced(scan: Scan, pos: Pos, mcus: seq<Mcu>, i: nat)
    requires |pos.lastDc| == scan.Comps() && Shaped(scan, mcus)
    requires InInterval(scan.restartInterval, pos.toGo, i) && NumberedFor(scan.restartInterval, pos.nextNum, i)
    ensures RunTokens(scan, pos, mcus) == SpacedTokens(scan, mcus, i, pos.lastDc)
    decreases |mcus|
  {
    hide McuTokens, LastDcAfter, InInterval, StartsInterval, NumberedFor, MarkAt;
    if mcus != [] {
      IntervalStep(scan.restartInterval, pos.toGo, i);
      NumberStep(scan.restartInterval, pos.nextNum, i);
      NextInterval(scan, pos, mcus[0], i);
      RunIsSpaced(scan, StepPos(scan, pos, mcus[0]), mcus[1..], i + 1);
    }
  }

  /**
   A marker stands before every MCU whose number is a multiple of the restart interval, except the
   first MCU, and nowhere else; they are numbered 0 to 7 in turn.
   */
  lemma MarkersStandAtIntervals(scan: Scan, mcus: seq<Mcu>)
    requires Shaped(scan, mcus)
    ensures RunTokens(scan, StartPos(scan), mcus) == SpacedTokens(scan, mcus, 0, Zeros(scan.Comps()))
  {
    AtStart(scan.restartInterval);
    hide RunTokens, SpacedTokens;
    RunIsSpaced(scan, StartPos(scan), mcus, 0);
  }

  lemma AtStart(interval: nat)
    ensures InInterval(interval, interval, 0) && NumberedFor(interval, 0, 0)
  {
    if interval > 0 {
      DivModUnique(interval, interval, 1, 0);
    }
  }
}
