/**
 The pass control of jcmaster.c, driven by jpeg_finish_compress of jcapimin.c: which passes
 there are, in which order, and what each writes.
 */
module PassMachine {
  import opened ScanScript

  datatype Script = NoScript | Script(scans: seq<ScanInfo>)

  datatype PassType = MainPass | HuffOptPass | OutputPass

  /** What a pass does: headers it writes, and at its end the statistics or the data of a scan. */
  datatype Event = FrameHeader | ScanHeader(scan: ScanInfo) | Stats(scan: ScanInfo) | Data(scan: ScanInfo)

  datatype Result = Written | BadScript | TooManyComponents | CantSuspend

  /** All components in one sequential scan. */
  function WholeScan(n: nat): ScanInfo {
    ScanInfo(seq(n, i => i), 0, DCTSIZE2 - 1, 0, 0)
  }

  /** It has the components in order, from 0 on, and is what a script of one sequential scan would say. */
  lemma WholeScanIsSequential(n: nat)
    requires 0 < n <= 4
    ensures WholeScan(n).comps == [0, 1, 2, 3][..n] && AcceptedSequential([WholeScan(n)], n)
  {
    SequentialScripts([WholeScan(n)], n);
    hide AcceptedSequential;
    forall c | 0 <= c < n ensures Sent([WholeScan(n)], c) {
      assert WholeScan(n).comps[c] == c;
      assert c in [WholeScan(n)][0].comps;
    }
  }

  /** The scans to be written. */
  function ScansOf(script: Script, n: nat): seq<ScanInfo> {
    if script.NoScript? then [WholeScan(n)] else script.scans
  }

  /** DC refinement scans have no Huffman table. */
  predicate NeedsNoTable(s: ScanInfo) {
    s.ss == 0 && s.ah != 0
  }

  // ----- what is to be written

  /** The k-th scan: statistics if it is optimised and has a table, then headers, then data. */
  function ScanEvents(scans: seq<ScanInfo>, optimize: bool, k: nat): seq<Event>
    requires k < |scans|
  {
    (if optimize && !NeedsNoTable(scans[k]) then [Stats(scans[k])] else [])
    + (if k == 0 then [FrameHeader] else [])
    + [ScanHeader(scans[k]), Data(scans[k])]
  }

  function Expected(scans: seq<ScanInfo>, optimize: bool, k: nat): (log: seq<Event>)
    requires k <= |scans|
  {
    if k == 0 then [] else Expected(scans, optimize, k - 1) + ScanEvents(scans, optimize, k - 1)
  }

  lemma {:induction false} ExpectedGrows(scans: seq<ScanInfo>, optimize: bool, j: nat, k: nat)
    requires j <= k <= |scans|
    ensures Expected(scans, optimize, j) <= Expected(scans, optimize, k)
    decreases k - j
  {
    if j < k {
      ExpectedGrows(scans, optimize, j, k - 1);
    }
  }

  datatype Kind = OfHeader | OfStats | OfData

  predicate IsOf(e: Event, kind: Kind) {
    match kind
    case OfHeader => e.ScanHeader?
    case OfStats => e.Stats?
    case OfData => e.Data?
  }

  /** The scans of the events of a kind, in order. */
  function ScansIn(log: seq<Event>, kind: Kind): seq<ScanInfo> {
    if log == [] then []
    else
      var last := log[|log| - 1];
      ScansIn(log[..|log| - 1], kind) + if IsOf(last, kind) then [last.scan] else []
  }

  lemma {:induction false} ScansInConcat(a: seq<Event>, b: seq<Event>, kind: Kind)
    ensures ScansIn(a + b, kind) == ScansIn(a, kind) + ScansIn(b, kind)
  {
    if b == [] {
      assert a + b == a;
    } else {
      ScansInConcat(a, b[..|b| - 1], kind);
      assert (a + b)[..|a + b| - 1] == a + b[..|b| - 1];
    }
  }

  lemma ScansInOne(e: Event, kind: Kind)
    ensures ScansIn([e], kind) == if IsOf(e, kind) then [e.scan] else []
  {
    assert [e][..0] == [];
  }

  /** The scans that have statistics: all but the refinements of DC coefficients. */
  function WithTables(scans: seq<ScanInfo>): seq<ScanInfo> {
    if scans == [] then []
    else
      var last := scans[|scans| - 1];
      WithTables(scans[..|scans| - 1]) + if last.ss == 0 && last.ah != 0 then [] else [last]
  }

  /** The scans that a kind of event is for. */
  function For(scans: seq<ScanInfo>, optimize: bool, kind: Kind): seq<ScanInfo> {
    if kind == OfStats then (if optimize then WithTables(scans) else []) else scans
  }

  /** Every scan is output exactly once, in order, with one header each, and so are the statistics. */
  lemma {:induction false} EveryScanOnce(scans: seq<ScanInfo>, optimize: bool, k: nat, kind: Kind)
    requires k <= |scans|
    ensures ScansIn(Expected(scans, optimize, k), kind) == For(scans[..k], optimize, kind)
  {
    hide *;
    if k == 0 {
      NoScans(scans, optimize, kind);
    } else {
      EveryScanOnce(scans, optimize, k - 1, kind);
      OneMoreScan(scans, optimize, k - 1, kind);
      OneMoreFor(scans, optimize, k - 1, kind);
    }
  }

  lemma NoScans(scans: seq<ScanInfo>, optimize: bool, kind: Kind)
    ensures ScansIn(Expected(scans, optimize, 0), kind) == For(scans[..0], optimize, kind)
  {
  }

  lemma OneMoreFor(scans: seq<ScanInfo>, optimize: bool, k: nat, kind: Kind)
    requires k < |scans|
    ensures For(scans[..k + 1], optimize, kind)
         == For(scans[..k], optimize, kind)
            + if kind == OfStats && (!optimize || NeedsNoTable(scans[k])) then [] else [scans[k]]
  {
    OneMoreTable(scans, k);
    hide WithTables, NeedsNoTable;
  }

  lemma OneMoreTable(scans: seq<ScanInfo>, k: nat)
    requires k < |scans|
    ensures scans[..k + 1] == scans[..k] + [scans[k]]
    ensures WithTables(scans[..k + 1]) == WithTables(scans[..k]) + if NeedsNoTable(scans[k]) then [] else [scans[k]]
  {
    assert scans[..k + 1][..k] == scans[..k];
  }

  lemma OneMoreScan(scans: seq<ScanInfo>, optimize: bool, k: nat, kind: Kind)
    requires k < |scans|
    ensures ScansIn(Expected(scans, optimize, k + 1), kind)
         == ScansIn(Expected(scans, optimize, k), kind)
            + if kind == OfStats && (!optimize || NeedsNoTable(scans[k])) then [] else [scans[k]]
  {
    hide ScansIn;
    ScansInConcat(Expected(scans, optimize, k), ScanEvents(scans, optimize, k), kind);
    var s := scans[k];
    var stats := if optimize && !NeedsNoTable(s) then [Stats(s)] else [];
    var frame := if k == 0 then [FrameHeader] else [];
    assert ScanEvents(scans, optimize, k) == stats + frame + [ScanHeader(s)] + [Data(s)];
    ScansInConcat(stats + frame + [ScanHeader(s)], [Data(s)], kind);
    ScansInConcat(stats + frame, [ScanHeader(s)], kind);
    ScansInConcat(stats, frame, kind);
    ScansInOne(Stats(s), kind);
    ScansInOne(FrameHeader, kind);
    ScansInOne(ScanHeader(s), kind);
    ScansInOne(Data(s), kind);
    NothingIn(kind);
  }

  lemma NothingIn(kind: Kind)
    ensures ScansIn([], kind) == []
  {
  }

  /**
   Data comes right after the header of its own scan, and optimised data after its own statistics. Only
   a scan of the DC coefficients that refines them, with Ss = 0 and Ah > 0, has no statistics.
   */
  ghost predicate WellOrdered(log: seq<Event>, optimize: bool) {
    && (forall i :: 0 <= i < |log| && log[i].Data? ==> Headed(log, i))
    && (forall i :: 0 <= i < |log| && log[i].Stats? ==> optimize && (log[i].scan.ss != 0 || log[i].scan.ah == 0))
    && (optimize ==>
          forall i :: 0 <= i < |log| && log[i].Data? && (log[i].scan.ss != 0 || log[i].scan.ah == 0) ==>
              Prepared(log, i))
  }

  predicate Headed(log: seq<Event>, i: nat)
    requires i < |log| && log[i].Data?
  {
    i > 0 && log[i - 1] == ScanHeader(log[i].scan)
  }

  /** The last statistics before the data are those of the same scan. */
  ghost predicate Prepared(log: seq<Event>, i: nat)
    requires i < |log| && log[i].Data?
  {
    exists j :: 0 <= j < i && log[j] == Stats(log[i].scan) && forall m :: j < m < i ==> !log[m].Stats?
  }

  /** The frame header is written once, right before the first scan header. */
  predicate OneFrameHeader(log: seq<Event>) {
    exists i :: 0 <= i < |log| && TheFrameHeader(log, i)
  }

  predicate TheFrameHeader(log: seq<Event>, i: nat)
    requires i < |log|
  {
    && log[i].FrameHeader? && i + 1 < |log| && log[i + 1].ScanHeader?
    && (forall j :: 0 <= j < |log| && j != i ==> !log[j].FrameHeader?)
    && (forall j :: 0 <= j < i ==> !log[j].ScanHeader?)
  }

  lemma {:induction false} ExpectedIsWellOrdered(scans: seq<ScanInfo>, optimize: bool, k: nat)
    requires k <= |scans|
    ensures WellOrdered(Expected(scans, optimize, k), optimize)
  {
    if k > 0 {
      ExpectedIsWellOrdered(scans, optimize, k - 1);
      var before, events := Expected(scans, optimize, k - 1), ScanEvents(scans, optimize, k - 1);
      var log := before + events;
      forall i | 0 <= i < |log| && log[i].Data? ensures Headed(log, i) {
        if i < |before| {
          assert before[i] == log[i] && Headed(before, i);
          assert before[i - 1] == log[i - 1];
        } else {
          OneData(scans, optimize, k - 1, i - |before|);
        }
      }
      StatsWhereNeeded(scans, optimize, k - 1, before);
      if optimize {
        forall i | 0 <= i < |log| && log[i].Data? && (log[i].scan.ss != 0 || log[i].scan.ah == 0)
          ensures Prepared(log, i)
        {
          if i < |before| {
            assert before[i] == log[i];
            StillPrepared(before, events, i);
          } else {
            OneData(scans, optimize, k - 1, i - |before|);
            assert log[|before|] == events[0];
            assert forall m :: |before| < m < i ==> log[m] == events[m - |before|];
          }
        }
      }
    }
  }

  lemma StatsWhereNeeded(scans: seq<ScanInfo>, optimize: bool, k: nat, before: seq<Event>)
    requires k < |scans|
    requires forall i :: 0 <= i < |before| && before[i].Stats? ==>
               optimize && (before[i].scan.ss != 0 || before[i].scan.ah == 0)
    ensures var log := before + ScanEvents(scans, optimize, k);
            forall i :: 0 <= i < |log| && log[i].Stats? ==> optimize && (log[i].scan.ss != 0 || log[i].scan.ah == 0)
  {
  }

  lemma StillPrepared(before: seq<Event>, events: seq<Event>, i: nat)
    requires i < |before| && before[i].Data? && Prepared(before, i)
    ensures Prepared(before + events, i)
  {
    var j :| 0 <= j < i && before[j] == Stats(before[i].scan) && forall m :: j < m < i ==> !before[m].Stats?;
    assert (before + events)[j] == before[j];
  }

  /** The data are the last of the scan's events, right after its header. */
  lemma OneData(scans: seq<ScanInfo>, optimize: bool, k: nat, i: nat)
    requires k < |scans| && i < |ScanEvents(scans, optimize, k)| && ScanEvents(scans, optimize, k)[i].Data?
    ensures var e, s := ScanEvents(scans, optimize, k), scans[k];
            && i == |e| - 1 && i > 0 && e[i] == Data(s) && e[i - 1] == ScanHeader(s)
            && (optimize && !NeedsNoTable(s) ==> e[0] == Stats(s) && forall m :: 0 < m < i ==> !e[m].Stats?)
  {
  }

  lemma {:induction false} ExpectedHasOneFrameHeader(scans: seq<ScanInfo>, optimize: bool, k: nat)
    requires 0 < k <= |scans|
    ensures OneFrameHeader(Expected(scans, optimize, k))
  {
    var before, events := Expected(scans, optimize, k - 1), ScanEvents(scans, optimize, k - 1);
    if k == 1 {
      assert before + events == events;
      assert TheFrameHeader(events, if optimize && !NeedsNoTable(scans[0]) then 1 else 0);
    } else {
      ExpectedHasOneFrameHeader(scans, optimize, k - 1);
      var i :| 0 <= i < |before| && TheFrameHeader(before, i);
      FrameHeaderStays(before, events, i);
    }
  }

  lemma FrameHeaderStays(before: seq<Event>, events: seq<Event>, i: nat)
    requires i < |before| && TheFrameHeader(before, i) && forall j :: 0 <= j < |events| ==> !events[j].FrameHeader?
    ensures TheFrameHeader(before + events, i)
  {
  }

  // ----- the master control

  /** The state that the pass control keeps, and the settings of the current scan. */
  class Master {
    const n: nat                     // num_components
    const script: Script
    const optimize: bool             // optimize_coding
    const totalPasses: nat
    const totalRows: nat             // total_iMCU_rows
    const mayRefuse: bool            // whether the compressor may ever refuse a row after the main pass
    var passType: PassType
    var passNumber: nat
    var scanNumber: nat
    var callPassStartup: bool
    var isLastPass: bool
    var current: ScanInfo            // the parameters that select_scan_parameters has set
    var gathering: bool              // the entropy coder was started for statistics
    var log: seq<Event>

    ghost predicate Sound()
      reads this
    {
      && 0 < n && ScansOf(script, n) != [] && !NeedsNoTable(ScansOf(script, n)[0])
      && totalPasses == if optimize then 2 * |ScansOf(script, n)| else |ScansOf(script, n)|
    }

    /** What the log holds before scan k, and with its statistics if it has any. */
    ghost function Done(k: nat): seq<Event>
      requires k <= |ScansOf(script, n)|
    {
      Expected(ScansOf(script, n), optimize, k)
    }

    ghost function WithStats(k: nat): seq<Event>
      requires k < |ScansOf(script, n)|
    {
      Done(k) + if optimize && !NeedsNoTable(ScansOf(script, n)[k]) then [Stats(ScansOf(script, n)[k])] else []
    }

    ghost function WithHeaders(k: nat): seq<Event>
      requires k < |ScansOf(script, n)|
    {
      WithStats(k) + (if k == 0 then [FrameHeader] else []) + [ScanHeader(ScansOf(script, n)[k])]
    }

    /** Between passes: the next pass is the one for scan `scanNumber` that passType says. */
    ghost predicate Between()
      reads this
    {
      && Sound() && scanNumber <= |ScansOf(script, n)|
      && (passType.MainPass? ==> passNumber == 0 && scanNumber == 0 && log == [])
      && (passType.HuffOptPass? ==> optimize && passNumber == 2 * scanNumber && log == Done(scanNumber))
      && (passType.OutputPass? && optimize ==>
            && scanNumber < |ScansOf(script, n)| && passNumber == 2 * scanNumber + 1
            && !NeedsNoTable(ScansOf(script, n)[scanNumber])
            && log == WithStats(scanNumber) && current == ScansOf(script, n)[scanNumber])
      && (passType.OutputPass? && !optimize ==> passNumber == scanNumber && log == Done(scanNumber))
    }

    /** During a pass: it gathers statistics or writes the data of scan `scanNumber`. */
    ghost predicate During()
      reads this
    {
      && Sound() && scanNumber < |ScansOf(script, n)| && current == ScansOf(script, n)[scanNumber]
      && (gathering ==> optimize && !passType.OutputPass? && passNumber == 2 * scanNumber)
      && (gathering ==> log == Done(scanNumber) && !NeedsNoTable(current) && !callPassStartup)
      && (!gathering ==> passNumber == if optimize then 2 * scanNumber + 1 else scanNumber)
      && (!gathering ==> log == if callPassStartup then WithStats(scanNumber) else WithHeaders(scanNumber))
      && (!gathering ==> if optimize then passType.OutputPass? else !passType.HuffOptPass?)
      && (passType.MainPass? ==> scanNumber == 0)
      && (callPassStartup ==> passType.MainPass?)
      && (isLastPass <==> !gathering && scanNumber == |ScansOf(script, n)| - 1)
    }

    /** jinit_c_master_control, once the script has been found valid. */
    constructor (n: nat, script: Script, optimize: bool, totalRows: nat, transcodeOnly: bool, mayRefuse: bool)
      requires 0 < n && ScansOf(script, n) != [] && !NeedsNoTable(ScansOf(script, n)[0])
      ensures this.n == n && this.script == script && this.optimize == optimize && this.mayRefuse == mayRefuse
      ensures this.totalRows == totalRows
      ensures Between() && !isLastPass && log == [] && (passType.MainPass? <==> !transcodeOnly)
      ensures passNumber == scanNumber == 0
    {
      this.n, this.script, this.optimize, this.totalRows := n, script, optimize, totalRows;
      this.mayRefuse := mayRefuse;
      var numScans := |ScansOf(script, n)|;
      totalPasses := if optimize then numScans * 2 else numScans;
      passType := if !transcodeOnly then MainPass else if optimize then HuffOptPass else OutputPass;
      passNumber, scanNumber, callPassStartup, isLastPass := 0, 0, false, false;
      current, gathering, log := WholeScan(0), false, [];
    }

    /** select_scan_parameters: false when a scan of all components would have too many. */
    method SelectScanParameters() returns (ok: bool)
      requires scanNumber < |ScansOf(script, n)|
      modifies `current
      ensures ok <==> script.Script? || n <= MAX_COMPS_IN_SCAN
      ensures ok ==> current == ScansOf(script, n)[scanNumber]
    {
      ok := true;
      if script.Script? {
        current := script.scans[scanNumber];
      } else {
        if n > MAX_COMPS_IN_SCAN {
          return false;
        }
        current := WholeScan(n);
      }
    }

    /** prepare_for_pass */
    method PrepareForPass() returns (ok: bool)
      requires Between() && scanNumber < |ScansOf(script, n)|
      modifies this
      ensures scanNumber == old(scanNumber) && passNumber >= old(passNumber)
      ensures !ok ==> script.NoScript? && n > MAX_COMPS_IN_SCAN
      ensures script.NoScript? && n > MAX_COMPS_IN_SCAN && old(passNumber) == 0 ==> !ok
      ensures ok ==> During() && (passType.MainPass? <==> old(passType).MainPass?)
    {
      ok := true;
      if passType.MainPass? {
        ok := SelectScanParameters();
        if !ok {
          return;
        }
        gathering := optimize;
        callPassStartup := !optimize;
      } else {
        if passType.HuffOptPass? {
          ok := SelectScanParameters();
          if !ok {
            return;
          }
          if current.ss != 0 || current.ah == 0 {
            gathering := true;
            callPassStartup := false;
          } else {
            passType := OutputPass;
            passNumber := passNumber + 1;
          }
        }
        if passType.OutputPass? {
          ok := PrepareOutput();
          if !ok {
            return;
          }
        }
      }
      isLastPass := passNumber == totalPasses - 1;
    }

    /** A data-output pass. */
    method PrepareOutput() returns (ok: bool)
      requires passType.OutputPass? && scanNumber < |ScansOf(script, n)|
      requires optimize ==> current == ScansOf(script, n)[scanNumber]
      modifies `current, `gathering, `callPassStartup, `log
      ensures ok <==> optimize || script.Script? || n <= MAX_COMPS_IN_SCAN
      ensures ok ==> current == ScansOf(script, n)[scanNumber] && !gathering && !callPassStartup
      ensures ok ==> log == old(log) + (if scanNumber == 0 then [FrameHeader] else []) + [ScanHeader(current)]
    {
      ok := true;
      if !optimize {
        ok := SelectScanParameters();
        if !ok {
          return;
        }
      }
      gathering := false;
      if scanNumber == 0 {
        log := log + [FrameHeader];
      }
      log := log + [ScanHeader(current)];
      callPassStartup := false;
    }

    /** pass_startup */
    method PassStartup()
      requires During() && callPassStartup
      modifies this
      ensures During() && !callPassStartup && passNumber == old(passNumber) && isLastPass == old(isLastPass)
      ensures passType == old(passType)
    {
      callPassStartup := false;
      log := log + [FrameHeader];
      log := log + [ScanHeader(current)];
    }

    /** finish_pass_master: the entropy coder analyzes its statistics or flushes its output. */
    method FinishPass()
      requires During() && !callPassStartup
      modifies this
      ensures Between() && !passType.MainPass? && passNumber == old(passNumber) + 1 && isLastPass == old(isLastPass)
      ensures isLastPass ==> scanNumber == |ScansOf(script, n)| && log == Done(scanNumber)
      ensures !isLastPass ==> scanNumber < |ScansOf(script, n)|
    {
      NextDone(scanNumber);
      log := log + [if gathering then Stats(current) else Data(current)];
      match passType {
        case MainPass =>
          passType := OutputPass;
          if !optimize {
            scanNumber := scanNumber + 1;
          }
        case HuffOptPass =>
          passType := OutputPass;
        case OutputPass =>
          if optimize {
            passType := HuffOptPass;
          }
          scanNumber := scanNumber + 1;
      }
      passNumber := passNumber + 1;
    }

    /** The events of one scan, as they come. */
    lemma NextDone(k: nat)
      requires k < |ScansOf(script, n)|
      ensures WithHeaders(k) + [Data(ScansOf(script, n)[k])] == Done(k + 1)
    {
    }

    /** The rows of a pass, from the coefficient buffer: false if the compressor has to suspend. */
    method CrankRows() returns (ok: bool)
      ensures !ok ==> mayRefuse && totalRows > 0
    {
      ok := true;
      var row := 0;
      while row < totalRows && ok
        invariant !ok ==> mayRefuse && totalRows > 0
      {
        if mayRefuse {
          ok := *;
        }
        row := row + 1;
      }
    }

    /** What a pass has written is the beginning of what is to be written. */
    lemma WrittenSoFar()
      requires During() && !callPassStartup
      ensures log <= Done(|ScansOf(script, n)|)
    {
      NextDone(scanNumber);
      ExpectedGrows(ScansOf(script, n), optimize, scanNumber, |ScansOf(script, n)|);
      ExpectedGrows(ScansOf(script, n), optimize, scanNumber + 1, |ScansOf(script, n)|);
    }

    /**
     jpeg_finish_compress, after the main pass if there is one: it goes through the remaining passes,
     and unless a suspension stops it everything has been written.
     */
    method FinishCompress(scanning: bool) returns (result: Result)
      requires if scanning then During() && !callPassStartup && passType.MainPass?
               else Between() && !passType.MainPass? && !isLastPass && passNumber == scanNumber == 0
      requires scanning ==> script.Script? || n <= MAX_COMPS_IN_SCAN
      modifies this
      ensures result != BadScript
      ensures result == TooManyComponents <==> script.NoScript? && n > MAX_COMPS_IN_SCAN
      ensures result == Written ==> log == Expected(ScansOf(script, n), optimize, |ScansOf(script, n)|)
      ensures result == CantSuspend ==>
                mayRefuse && totalRows > 0 && log <= Expected(ScansOf(script, n), optimize, |ScansOf(script, n)|)
    {
      if scanning {
        FinishPass();
      }
      while !isLastPass
        invariant Between() && !passType.MainPass?
        invariant if isLastPass then scanNumber == |ScansOf(script, n)| && log == Done(scanNumber)
                  else scanNumber < |ScansOf(script, n)|
        invariant script.Script? || n <= MAX_COMPS_IN_SCAN || passNumber == 0
        invariant passNumber == 0 ==> !isLastPass
        decreases totalPasses - passNumber, if isLastPass then 0 else 1
      {
        var ok := PrepareForPass();
        if !ok {
          return TooManyComponents;
        }
        ok := CrankRows();
        if !ok {
          WrittenSoFar();
          return CantSuspend;
        }
        FinishPass();
      }
      result := Written;
    }
  }

  // ----- a whole compression

  /** In an accepted script the first scan is no refinement. */
  lemma FirstScanIsFirst(scans: seq<ScanInfo>, n: nat)
    requires AcceptedProgressive(scans, n) || AcceptedSequential(scans, n)
    ensures scans != [] && !NeedsNoTable(scans[0])
  {
    if AcceptedProgressive(scans, n) {
      assert ScanFits(scans[..0], scans[0], n);
      assert FitsComponent(scans[..0], scans[0], scans[0].comps[0]);
      assert Last(scans[..0], scans[0].comps[0], 0) == -1;
      assert Continues(Last(scans[..0], scans[0].comps[0], scans[0].ss), scans[0].ah, scans[0].al);
    } else {
      assert ScanIsNew(scans[..0], scans[0], n);
    }
  }

  /** What is expected of a whole script: every scan once and in order, under its own headers and statistics. */
  lemma WrittenAsExpected(scans: seq<ScanInfo>, optimize: bool)
    requires scans != []
    ensures var log := Expected(scans, optimize, |scans|);
            && ScansIn(log, OfData) == ScansIn(log, OfHeader) == scans
            && ScansIn(log, OfStats) == (if optimize then WithTables(scans) else [])
            && WellOrdered(log, optimize) && OneFrameHeader(log)
  {
    hide Expected, ScansIn, WithTables, WellOrdered, OneFrameHeader;
    EveryScanOnce(scans, optimize, |scans|, OfData);
    EveryScanOnce(scans, optimize, |scans|, OfHeader);
    EveryScanOnce(scans, optimize, |scans|, OfStats);
    ExpectedIsWellOrdered(scans, optimize, |scans|);
    ExpectedHasOneFrameHeader(scans, optimize, |scans|);
    assert scans[..|scans|] == scans;
  }

  /**
   From jpeg_start_compress to jpeg_finish_compress, or from jpeg_write_coefficients if transcoding,
   with any script: an accepted script is written in full, each scan under its own parameters, unless
   the compressor refuses a row after the main pass; and what has been written by then is the beginning
   of it. A progressive script is always optimised.
   */
  method Compress(n: nat, script: Script, optimizeCoding: bool, totalRows: nat, transcodeOnly: bool,
                  mayRefuse: bool)
    returns (result: Result, log: seq<Event>)
    requires 0 < n <= MAX_COMPONENTS
    ensures result == BadScript <==>
              script.Script? && !AcceptedProgressive(script.scans, n) && !AcceptedSequential(script.scans, n)
    ensures result == TooManyComponents <==> script.NoScript? && n > MAX_COMPS_IN_SCAN
    ensures result == Written ==>
              var optimize := optimizeCoding || (script.Script? && AcceptedProgressive(script.scans, n));
              && log == Expected(ScansOf(script, n), optimize, |ScansOf(script, n)|)
              && ScansIn(log, OfData) == ScansIn(log, OfHeader) == ScansOf(script, n)
              && ScansIn(log, OfStats) == (if optimize then WithTables(ScansOf(script, n)) else [])
              && WellOrdered(log, optimize) && OneFrameHeader(log)
    ensures result == CantSuspend ==>
              var optimize := optimizeCoding || (script.Script? && AcceptedProgressive(script.scans, n));
              mayRefuse && totalRows > 0 && log <= Expected(ScansOf(script, n), optimize, |ScansOf(script, n)|)
  {
    hide AcceptedProgressive, AcceptedSequential, Expected, ScansIn, WithTables, WellOrdered, OneFrameHeader;
    log := [];
    var optimize := optimizeCoding;
    if script.Script? {
      var verdict := ValidateScript(script.scans, n);
      if verdict == Bad {
        return BadScript, log;
      }
      FirstScanIsFirst(script.scans, n);
      if verdict == Progressive {
        optimize := true;
      }
    }
    var master := new Master(n, script, optimize, totalRows, transcodeOnly, mayRefuse);
    if !transcodeOnly {
      var ok := master.PrepareForPass();
      if !ok {
        return TooManyComponents, master.log;
      }
      if master.callPassStartup {
        master.PassStartup();
      }
    }
    result := master.FinishCompress(!transcodeOnly);
    log := master.log;
    WrittenAsExpected(ScansOf(script, n), optimize);
  }
}
