/**
 A first scan and refinement scans on top of it: together they convey every
 coefficient of the band exactly.
 */
module SuccessiveApproximation {
  import opened ByteStream
  import opened HuffmanCode
  import opened Tokens
  import opened SequentialCode
  import opened SequentialScan
  import opened ProgressiveRun
  import opened ProgressiveBlock
  import opened ProgressiveScan
  import opened ProgressiveDc

  /** The same band at another precision, coded by a first or by a refinement scan. */
  function ScanAt(p: Params, al: nat, refining: bool): Params {
    p.(al := al, scan := p.scan.(refining := refining))
  }

  function NothingKnown(p: Params, blocks: seq<Coefs>): (v: seq<seq<int>>)
    ensures |v| == |blocks|
  {
    seq(|blocks|, _ => Zeros(p.se - p.ss + 1))
  }

  lemma SamePrecision(p: Params, block: Coefs, al: nat, refining: bool, to: nat)
    ensures Precise(ScanAt(p, al, refining), block, to) == Precise(p, block, to)
  {
  }

  /** A scan starts from what the previous one has conveyed. */
  lemma ScansFit(p: Params, blocks: seq<Coefs>, al: nat, refining: bool)
    ensures var bands := BandsOf(ScanAt(p, al, refining), blocks);
            && BeforeScan(bands) == (if refining then PreciseAll(p, blocks, al + 1) else NothingKnown(p, blocks))
            && AfterScan(bands) == PreciseAll(p, blocks, al)
  {
    var q := ScanAt(p, al, refining);
    var bands := BandsOf(q, blocks);
    hide Precise;
    var before := if refining then PreciseAll(p, blocks, al + 1) else NothingKnown(p, blocks);
    forall i | 0 <= i < |blocks|
      ensures BeforeScan(bands)[i] == before[i] && AfterScan(bands)[i] == PreciseAll(p, blocks, al)[i]
    {
      SamePrecision(p, blocks[i], al, refining, al);
      SamePrecision(p, blocks[i], al, refining, al + 1);
      assert bands[i] == BandOf(q, blocks[i]);
    }
  }

  /** A scan of the file: its table and its bytes. */
  datatype Pass = Pass(table: LegalTable, bytes: seq<byte>)

  /** What EncodeAcScan has written for this scan, with some code derived from the table. */
  ghost predicate Codes(pass: Pass, p: Params, blocks: seq<Coefs>, ts: Coder) {
    var tokens := AcRunTokens(p.scan, AcStartPos(p.scan), BandsOf(p, blocks));
    && Knows(pass.table, ts, false, p.scan.tbl) && BandsInRange(p.scan, BandsOf(p, blocks))
    && ts.Covers(tokens) && WellNumbered(Items(ts, tokens)) && pass.bytes == ScanBytes(Items(ts, tokens))
  }

  ghost predicate IsCoded(pass: Pass, p: Params, blocks: seq<Coefs>) {
    exists ts: Coder :: Codes(pass, p, blocks, ts)
  }

  /** The k-th scan refines to precision top - k; the first one starts from nothing. */
  ghost predicate AllCoded(passes: seq<Pass>, p: Params, blocks: seq<Coefs>, top: nat)
    requires |passes| <= top + 1
  {
    forall k :: 0 <= k < |passes| ==> IsCoded(passes[k], ScanAt(p, top - k, k > 0), blocks)
  }

  /** The decoder of all the scans, one after the other. */
  function DecodePasses(p: Params, passes: seq<Pass>, nothing: seq<seq<int>>): Option<seq<seq<int>>>
    requires passes != []
    decreases |passes|
  {
    var last := passes[|passes| - 1];
    if |passes| == 1 then DecodeAcScan(last.table, p.scan.(refining := false), nothing, last.bytes)
    else
      match DecodePasses(p, passes[..|passes| - 1], nothing)
      case None => None
      case Some(known) => DecodeAcScan(last.table, p.scan.(refining := true), known, last.bytes)
  }

  lemma OnePass(pass: Pass, p: Params, blocks: seq<Coefs>, al: nat, refining: bool)
    requires IsCoded(pass, ScanAt(p, al, refining), blocks)
    ensures DecodeAcScan(pass.table, p.scan.(refining := refining),
                         if refining then PreciseAll(p, blocks, al + 1) else NothingKnown(p, blocks), pass.bytes)
         == Some(PreciseAll(p, blocks, al))
  {
    var q := ScanAt(p, al, refining);
    var ts: Coder :| Codes(pass, q, blocks, ts);
    hide DecodeAcScan, AcRunTokens, ScanBytes, BandsOf, PreciseAll, NothingKnown;
    AcScanRoundTrip(pass.table, ts, q.scan, BandsOf(q, blocks));
    ScansFit(p, blocks, al, refining);
  }

  /** After each scan the decoder knows every coefficient to that scan's precision. */
  lemma {:induction false} PassesConvey(p: Params, passes: seq<Pass>, blocks: seq<Coefs>, top: nat)
    requires 0 < |passes| <= top + 1 && AllCoded(passes, p, blocks, top)
    ensures DecodePasses(p, passes, NothingKnown(p, blocks)) == Some(PreciseAll(p, blocks, top + 1 - |passes|))
    decreases |passes|
  {
    hide DecodeAcScan, IsCoded, PreciseAll, NothingKnown;
    var k := |passes| - 1;
    OnePass(passes[k], p, blocks, top - k, k > 0);
    if k > 0 {
      PassesConvey(p, passes[..k], blocks, top);
    }
  }

  /** After a first scan at Al = top and refinements down to 0, nothing has been lost. */
  lemma CoefficientsComeBack(p: Params, passes: seq<Pass>, blocks: seq<Coefs>, top: nat, j: nat, i: nat)
    requires |passes| == top + 1 && AllCoded(passes, p, blocks, top) && j < |blocks| && i < p.se - p.ss + 1
    ensures var v := DecodePasses(p, passes, NothingKnown(p, blocks));
            v.Some? && |v.value| == |blocks| && |v.value[j]| == p.se - p.ss + 1
            && v.value[j][i] == blocks[j][p.order[p.ss + i]]
  {
    PassesConvey(p, passes, blocks, top);
    FullPrecision(p, blocks[j], i);
    hide DecodePasses;
  }

  // ----- the DC coefficients

  /** A DC scan of the file, its tables and its bytes. */
  datatype DcPass = DcPass(p: DcScan, tables: Decoder, bytes: seq<byte>)

  /** What EncodeDcScan has written for this scan, with some code derived from the tables. */
  ghost predicate DcCodes(pass: DcPass, mcus: seq<DcMcu>, ts: Coder) {
    DcShaped(pass.p, mcus) &&
    var tokens := DcRunTokens(pass.p, StartPos(pass.p.head), mcus);
    && DecoderKnows(pass.tables, ts) && DcRunInRange(pass.p, StartPos(pass.p.head), mcus)
    && ts.Covers(tokens) && WellNumbered(Items(ts, tokens)) && pass.bytes == ScanBytes(Items(ts, tokens))
  }

  ghost predicate DcIsCoded(pass: DcPass, mcus: seq<DcMcu>) {
    exists ts: Coder :: DcCodes(pass, mcus, ts)
  }

  /** The k-th scan refines to precision top - k; restart intervals and tables may differ. */
  ghost predicate DcAllCoded(passes: seq<DcPass>, mcus: seq<DcMcu>, top: nat) {
    forall k :: 0 <= k < |passes| ==>
      DcIsCoded(passes[k], mcus) && passes[k].p.al == top - k && (passes[k].p.refining <==> k > 0)
  }

  /** The decoder of all the DC scans; `nothing` only tells how many MCUs there are. */
  function DecodeDcPasses(passes: seq<DcPass>, nothing: seq<DcMcu>): Option<seq<DcMcu>>
    decreases |passes|
  {
    if passes == [] then Some(nothing)
    else
      var last := passes[|passes| - 1];
      match DecodeDcPasses(passes[..|passes| - 1], nothing)
      case None => None
      case Some(known) => if DcShaped(last.p, known) then DecodeDcScan(last.tables, last.p, known, last.bytes) else None
  }

  predicate SameSizes(a: seq<DcMcu>, b: seq<DcMcu>) {
    |a| == |b| && forall i :: 0 <= i < |a| ==> |a[i]| == |b[i]|
  }

  lemma OneDcPass(pass: DcPass, mcus: seq<DcMcu>, known: seq<DcMcu>)
    requires DcIsCoded(pass, mcus) && SameSizes(known, mcus)
    requires pass.p.refining ==> known == AllAtPrecision(mcus, pass.p.al + 1)
    ensures DcShaped(pass.p, known)
    ensures DecodeDcScan(pass.tables, pass.p, known, pass.bytes) == Some(AllAtPrecision(mcus, pass.p.al))
  {
    var ts: Coder :| DcCodes(pass, mcus, ts);
    hide DecodeDcScan, DcRunTokens, DcRunInRange, ScanBytes, DecoderKnows, AtPrecision;
    DcScanRoundTrip(pass.tables, pass.p, ts, mcus, known);
  }

  /** After each scan the decoder knows every DC value to that scan's precision. */
  lemma {:induction false} DcPassesConvey(passes: seq<DcPass>, mcus: seq<DcMcu>, top: nat, nothing: seq<DcMcu>)
    requires 0 < |passes| <= top + 1 && DcAllCoded(passes, mcus, top) && SameSizes(nothing, mcus)
    ensures DecodeDcPasses(passes, nothing) == Some(AllAtPrecision(mcus, top + 1 - |passes|))
    decreases |passes|
  {
    hide DecodeDcScan, DcIsCoded, AtPrecision;
    var k := |passes| - 1;
    if k > 0 {
      DcPassesConvey(passes[..k], mcus, top, nothing);
    }
    OneDcPass(passes[k], mcus, if k > 0 then AllAtPrecision(mcus, top + 1 - k) else nothing);
  }

  /** With refinements down to Al = 0 the DC values come back as they were. */
  lemma DcValuesComeBack(passes: seq<DcPass>, mcus: seq<DcMcu>, top: nat, nothing: seq<DcMcu>)
    requires |passes| == top + 1 && DcAllCoded(passes, mcus, top) && SameSizes(nothing, mcus)
    ensures DecodeDcPasses(passes, nothing) == Some(mcus)
  {
    hide DecodeDcPasses;
    DcPassesConvey(passes, mcus, top, nothing);
    forall i | 0 <= i < |mcus| ensures AtPrecision(mcus[i], 0) == mcus[i] {
      forall b | 0 <= b < |mcus[i]| ensures Shifted(mcus[i][b], 0) == mcus[i][b] {
        ShiftedSplits(mcus[i][b], 0);
      }
    }
    assert AllAtPrecision(mcus, 0) == mcus;
  }
}
