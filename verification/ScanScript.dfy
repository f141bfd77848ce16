/**
 Scan scripts: the validation of jcmaster.c and what an accepted script guarantees.
 */
module ScanScript {
  const DCTSIZE2 := 64
  const MAX_COMPS_IN_SCAN := 4
  const MAX_COMPONENTS := 10
  const MAX_AH_AL := 10

  /** jpeg_scan_info: component indexes, spectral selection and successive approximation. */
  datatype ScanInfo = ScanInfo(comps: seq<int>, ss: int, se: int, ah: int, al: int) {
    /** The scan sends coefficient k of component c. */
    predicate Sends(c: int, k: int) {
      c in comps && ss <= k <= se
    }

    predicate IsFull() {
      ss == 0 && se == DCTSIZE2 - 1
    }
  }

  datatype Verdict = Bad | Sequential | Progressive

  // ----- what the rules of a script are

  /** One to four components of the image, in order. */
  predicate CompsOk(comps: seq<int>, n: nat) {
    && 0 < |comps| <= MAX_COMPS_IN_SCAN
    && (forall i :: 0 <= i < |comps| ==> 0 <= comps[i] < n)
    && (forall i, j :: 0 <= i < j < |comps| ==> comps[i] < comps[j])
  }

  predicate ProgressionOk(s: ScanInfo) {
    && 0 <= s.ss <= s.se < DCTSIZE2 && 0 <= s.ah <= MAX_AH_AL && 0 <= s.al <= MAX_AH_AL
    && (if s.ss == 0 then s.se == 0 else |s.comps| == 1)
  }

  /** The precision to which scans have sent a coefficient; -1 if they have not. */
  function Last(scans: seq<ScanInfo>, c: int, k: int): int {
    if scans == [] then -1
    else if scans[|scans| - 1].Sends(c, k) then scans[|scans| - 1].al
    else Last(scans[..|scans| - 1], c, k)
  }

  /** A scan with ah and al may follow when the coefficient has been sent to precision p. */
  predicate Continues(p: int, ah: int, al: int) {
    if p < 0 then ah == 0 else ah == p && al == ah - 1
  }

  /** Scan s fits component c after the scans before it. */
  predicate FitsComponent(before: seq<ScanInfo>, s: ScanInfo, c: int) {
    && (s.ss != 0 ==> Last(before, c, 0) >= 0)
    && forall k :: s.ss <= k <= s.se ==> Continues(Last(before, c, k), s.ah, s.al)
  }

  ghost predicate ScanFits(before: seq<ScanInfo>, s: ScanInfo, n: nat) {
    && CompsOk(s.comps, n) && ProgressionOk(s)
    && forall i :: 0 <= i < |s.comps| ==> FitsComponent(before, s, s.comps[i])
  }

  ghost predicate AllFit(scans: seq<ScanInfo>, n: nat) {
    forall j :: 0 <= j < |scans| ==> ScanFits(scans[..j], scans[j], n)
  }

  ghost predicate AcceptedProgressive(scans: seq<ScanInfo>, n: nat) {
    && scans != [] && !scans[0].IsFull() && AllFit(scans, n)
    && forall c :: 0 <= c < n ==> Last(scans, c, 0) >= 0
  }

  predicate Sent(scans: seq<ScanInfo>, c: int) {
    exists j :: 0 <= j < |scans| && c in scans[j].comps
  }

  predicate ScanIsNew(before: seq<ScanInfo>, s: ScanInfo, n: nat) {
    && CompsOk(s.comps, n) && s.IsFull() && s.ah == 0 && s.al == 0
    && forall i :: 0 <= i < |s.comps| ==> !Sent(before, s.comps[i])
  }

  predicate AllNew(scans: seq<ScanInfo>, n: nat) {
    forall j :: 0 <= j < |scans| ==> ScanIsNew(scans[..j], scans[j], n)
  }

  predicate AcceptedSequential(scans: seq<ScanInfo>, n: nat) {
    && scans != [] && scans[0].IsFull() && AllNew(scans, n)
    && forall c :: 0 <= c < n ==> Sent(scans, c)
  }

  // ----- what follows from them

  /** The (Ah, Al) of the scans that send a coefficient, in order. */
  function History(scans: seq<ScanInfo>, c: int, k: int): seq<(int, int)> {
    if scans == [] then []
    else
      var s := scans[|scans| - 1];
      History(scans[..|scans| - 1], c, k) + if s.Sends(c, k) then [(s.ah, s.al)] else []
  }

  /** Starting with Ah = 0, and then one bit more each time. */
  predicate StepsDown(h: seq<(int, int)>) {
    && (|h| > 0 ==> h[0].0 == 0)
    && forall i :: 0 < i < |h| ==> h[i].0 == h[i - 1].1 && h[i].1 == h[i].0 - 1
  }

  lemma AllFitInit(scans: seq<ScanInfo>, n: nat)
    requires scans != [] && AllFit(scans, n)
    ensures AllFit(scans[..|scans| - 1], n) && ScanFits(scans[..|scans| - 1], scans[|scans| - 1], n)
  {
    var init := scans[..|scans| - 1];
    forall j | 0 <= j < |init| ensures ScanFits(init[..j], init[j], n) {
      assert init[..j] == scans[..j];
    }
  }

  /**
   In a script whose scans all fit, every coefficient is sent first from Ah = 0, and then refined
   by one bit in every scan that sends it again.
   */
  lemma {:induction false} HistoriesStepDown(scans: seq<ScanInfo>, n: nat, c: int, k: int)
    requires AllFit(scans, n)
    ensures StepsDown(History(scans, c, k))
    ensures Last(scans, c, k) == if History(scans, c, k) == [] then -1
                                 else History(scans, c, k)[|History(scans, c, k)| - 1].1
    ensures History(scans, c, k) != [] ==> Last(scans, c, k) >= 0
    decreases |scans|
  {
    if scans != [] {
      var init, s := scans[..|scans| - 1], scans[|scans| - 1];
      AllFitInit(scans, n);
      HistoriesStepDown(init, n, c, k);
      if s.Sends(c, k) {
        var i :| 0 <= i < |s.comps| && s.comps[i] == c;
        assert FitsComponent(init, s, s.comps[i]);
        assert Continues(Last(init, c, k), s.ah, s.al);
      }
    }
  }

  /** No AC coefficient of a component is sent before its DC coefficient. */
  lemma NoAcBeforeDc(scans: seq<ScanInfo>, n: nat, j: nat, c: int)
    requires AllFit(scans, n) && j < |scans| && c in scans[j].comps && scans[j].ss > 0
    ensures exists i :: 0 <= i < j && scans[i].Sends(c, 0)
  {
    var s := scans[j];
    assert ScanFits(scans[..j], s, n);
    var i :| 0 <= i < |s.comps| && s.comps[i] == c;
    assert FitsComponent(scans[..j], s, s.comps[i]);
    var m := LastSender(scans[..j], c, 0);
    assert scans[..j][m] == scans[m];
  }

  lemma {:induction false} LastSender(scans: seq<ScanInfo>, c: int, k: int) returns (i: nat)
    requires Last(scans, c, k) >= 0
    ensures i < |scans| && scans[i].Sends(c, k)
    decreases |scans|
  {
    i := |scans| - 1;
    if !scans[i].Sends(c, k) {
      i := LastSender(scans[..i], c, k);
    }
  }

  /** In a sequential script every component is sent in exactly one scan. */
  lemma SentOnce(scans: seq<ScanInfo>, n: nat, c: int)
    requires AcceptedSequential(scans, n) && 0 <= c < n
    ensures exists j :: 0 <= j < |scans| && c in scans[j].comps
                     && forall i :: 0 <= i < |scans| && c in scans[i].comps ==> i == j
  {
    assert Sent(scans, c);
    var j :| 0 <= j < |scans| && c in scans[j].comps;
    forall i | 0 <= i < |scans| && c in scans[i].comps ensures i == j {
      if i < j {
        NotBefore(scans, n, i, j, c);
      } else if j < i {
        NotBefore(scans, n, j, i, c);
      }
    }
  }

  lemma NotBefore(scans: seq<ScanInfo>, n: nat, i: nat, j: nat, c: int)
    requires AllNew(scans, n) && i < j < |scans| && c in scans[j].comps
    ensures c !in scans[i].comps
  {
    var s := scans[j];
    assert ScanIsNew(scans[..j], s, n);
    var m :| 0 <= m < |s.comps| && s.comps[m] == c;
    assert !Sent(scans[..j], s.comps[m]);
    assert scans[..j][i] == scans[i];
  }

  // ----- the accepted scripts, told without going scan by scan

  /** One to four different components of the image, in order. */
  predicate Components(s: ScanInfo, n: nat) {
    && 1 <= |s.comps| <= 4 && (forall i :: 0 <= i < |s.comps| ==> 0 <= s.comps[i] < n)
    && (forall i, j :: 0 <= i < j < |s.comps| ==> s.comps[i] < s.comps[j])
  }

  /** DC alone, or a band of AC coefficients of one component; bit positions are at most 10. */
  predicate BandAndBits(s: ScanInfo) {
    && (if s.ss == 0 then s.se == 0 else 1 <= s.ss <= s.se <= 63 && |s.comps| == 1)
    && 0 <= s.ah <= 10 && 0 <= s.al <= 10
  }

  /** Some scan before scan j sends the DC coefficient of component c. */
  predicate DcBefore(scans: seq<ScanInfo>, j: nat, c: int) {
    exists i :: 0 <= i < j && i < |scans| && scans[i].Sends(c, 0)
  }

  /**
   Each scan keeps to its ranges, each coefficient is sent from Ah = 0 and then bit by bit, no AC
   coefficient comes before the DC coefficient of its component, and every component has its DC
   coefficient sent.
   */
  ghost predicate ProgressiveRules(scans: seq<ScanInfo>, n: nat) {
    && scans != [] && (forall j :: 0 <= j < |scans| ==> Components(scans[j], n) && BandAndBits(scans[j]))
    && (forall c, k :: 0 <= c < n && 0 <= k < 64 ==> StepsDown(History(scans, c, k)))
    && (forall j, c :: 0 <= j < |scans| && scans[j].ss > 0 && c in scans[j].comps ==> DcBefore(scans, j, c))
    && (forall c :: 0 <= c < n ==> DcBefore(scans, |scans|, c))
  }

  /** The scripts that are accepted as progressive are those that keep the rules. */
  lemma ProgressiveScripts(scans: seq<ScanInfo>, n: nat)
    ensures AcceptedProgressive(scans, n) <==> ProgressiveRules(scans, n)
  {
    hide *;
    if AcceptedProgressive(scans, n) {
      AcceptedIsLiteral(scans, n);
    }
    if ProgressiveRules(scans, n) {
      LiteralIsAccepted(scans, n);
    }
  }

  lemma AcceptedIsLiteral(scans: seq<ScanInfo>, n: nat)
    requires AcceptedProgressive(scans, n)
    ensures ProgressiveRules(scans, n)
  {
    forall j | 0 <= j < |scans| ensures Components(scans[j], n) && BandAndBits(scans[j]) {
      assert ScanFits(scans[..j], scans[j], n);
    }
    forall c, k | 0 <= c < n && 0 <= k < 64 ensures StepsDown(History(scans, c, k)) {
      HistoriesStepDown(scans, n, c, k);
    }
    forall j, c | 0 <= j < |scans| && scans[j].ss > 0 && c in scans[j].comps ensures DcBefore(scans, j, c) {
      NoAcBeforeDc(scans, n, j, c);
    }
    forall c | 0 <= c < n ensures DcBefore(scans, |scans|, c) {
      var i := LastSender(scans, c, 0);
    }
  }

  lemma {:induction false} LastIsLast(scans: seq<ScanInfo>, c: int, k: int)
    ensures Last(scans, c, k) == if History(scans, c, k) == [] then -1
                                 else History(scans, c, k)[|History(scans, c, k)| - 1].1
    decreases |scans|
  {
    if scans != [] {
      LastIsLast(scans[..|scans| - 1], c, k);
    }
  }

  lemma {:induction false} SenderMatters(scans: seq<ScanInfo>, i: nat, c: int, k: int)
    requires i < |scans| && scans[i].Sends(c, k) && forall j :: 0 <= j < |scans| ==> scans[j].al >= 0
    ensures Last(scans, c, k) >= 0
    decreases |scans|
  {
    if !scans[|scans| - 1].Sends(c, k) {
      SenderMatters(scans[..|scans| - 1], i, c, k);
    }
  }

  /** The history after scan j begins the whole one. */
  lemma {:induction false} HistoryGrows(scans: seq<ScanInfo>, j: nat, c: int, k: int)
    requires j <= |scans|
    ensures History(scans[..j], c, k) <= History(scans, c, k)
    decreases |scans|
  {
    if j == |scans| {
      assert scans[..j] == scans;
    } else {
      HistoryGrows(scans[..|scans| - 1], j, c, k);
      assert scans[..|scans| - 1][..j] == scans[..j];
    }
  }

  /** Scan j goes on where the scans before it stopped. */
  lemma GoesOn(scans: seq<ScanInfo>, j: nat, c: int, k: int)
    requires j < |scans| && scans[j].Sends(c, k) && StepsDown(History(scans, c, k))
    requires forall i :: 0 <= i < |scans| ==> scans[i].al >= 0
    ensures Continues(Last(scans[..j], c, k), scans[j].ah, scans[j].al)
  {
    var s := scans[j];
    assert scans[..j + 1][..j] == scans[..j] && scans[..j + 1][j] == s;
    HistoryGrows(scans, j + 1, c, k);
    LastIsLast(scans[..j], c, k);
    var h, g := History(scans[..j], c, k), History(scans, c, k);
    assert History(scans[..j + 1], c, k) == h + [(s.ah, s.al)];
    assert g[|h|] == (s.ah, s.al) && (|h| > 0 ==> g[|h| - 1] == h[|h| - 1]);
    if h != [] {
      HistoryLast(scans[..j], c, k);
    }
  }

  lemma {:induction false} HistoryLast(scans: seq<ScanInfo>, c: int, k: int)
    requires History(scans, c, k) != [] && forall i :: 0 <= i < |scans| ==> scans[i].al >= 0
    ensures Last(scans, c, k) >= 0
    decreases |scans|
  {
    if !scans[|scans| - 1].Sends(c, k) {
      HistoryLast(scans[..|scans| - 1], c, k);
    }
  }

  lemma LiteralIsAccepted(scans: seq<ScanInfo>, n: nat)
    requires ProgressiveRules(scans, n)
    ensures AcceptedProgressive(scans, n)
  {
    forall j | 0 <= j < |scans| ensures ScanFits(scans[..j], scans[j], n) {
      LiteralFits(scans, n, j);
    }
    forall c | 0 <= c < n ensures Last(scans, c, 0) >= 0 {
      assert DcBefore(scans, |scans|, c);
      var i :| 0 <= i < |scans| && scans[i].Sends(c, 0);
      SenderMatters(scans, i, c, 0);
    }
  }

  lemma LiteralFits(scans: seq<ScanInfo>, n: nat, j: nat)
    requires j < |scans| && forall i :: 0 <= i < |scans| ==> Components(scans[i], n) && BandAndBits(scans[i])
    requires forall c, k :: 0 <= c < n && 0 <= k < 64 ==> StepsDown(History(scans, c, k))
    requires forall c :: scans[j].ss > 0 && c in scans[j].comps ==> DcBefore(scans, j, c)
    ensures ScanFits(scans[..j], scans[j], n)
  {
    var s := scans[j];
    forall i | 0 <= i < |s.comps| ensures FitsComponent(scans[..j], s, s.comps[i]) {
      var c := s.comps[i];
      if s.ss > 0 {
        assert DcBefore(scans, j, c);
        var m :| 0 <= m < j && scans[m].Sends(c, 0);
        SenderMatters(scans[..j], m, c, 0);
      }
      forall k | s.ss <= k <= s.se ensures Continues(Last(scans[..j], c, k), s.ah, s.al) {
        GoesOn(scans, j, c, k);
      }
    }
  }

  /** Every scan is a full one, and every component is in one of them and in no other. */
  ghost predicate SequentialRules(scans: seq<ScanInfo>, n: nat) {
    && (forall j :: 0 <= j < |scans| ==> Components(scans[j], n) && scans[j] == ScanInfo(scans[j].comps, 0, 63, 0, 0))
    && (forall c :: 0 <= c < n ==> Sent(scans, c))
    && (forall i, j, c :: 0 <= i < j < |scans| && c in scans[i].comps ==> c !in scans[j].comps)
  }

  lemma SequentialScripts(scans: seq<ScanInfo>, n: nat)
    requires n > 0
    ensures AcceptedSequential(scans, n) <==> SequentialRules(scans, n)
  {
    if AcceptedSequential(scans, n) {
      forall j | 0 <= j < |scans| ensures Components(scans[j], n) && scans[j] == ScanInfo(scans[j].comps, 0, 63, 0, 0) {
        assert ScanIsNew(scans[..j], scans[j], n);
      }
      forall i, j, c | 0 <= i < j < |scans| && c in scans[i].comps ensures c !in scans[j].comps {
        if c in scans[j].comps {
          NotBefore(scans, n, i, j, c);
        }
      }
    }
    if SequentialRules(scans, n) {
      assert Sent(scans, 0);
      forall j | 0 <= j < |scans| ensures ScanIsNew(scans[..j], scans[j], n) {
        NewAmong(scans, n, j);
      }
    }
  }

  lemma NewAmong(scans: seq<ScanInfo>, n: nat, j: nat)
    requires j < |scans| && Components(scans[j], n) && scans[j] == ScanInfo(scans[j].comps, 0, 63, 0, 0)
    requires forall i, c :: 0 <= i < j && c in scans[i].comps ==> c !in scans[j].comps
    ensures ScanIsNew(scans[..j], scans[j], n)
  {
    forall i | 0 <= i < |scans[j].comps| ensures !Sent(scans[..j], scans[j].comps[i]) {
      var c := scans[j].comps[i];
      assert c in scans[j].comps;
      forall m | 0 <= m < j ensures c !in scans[..j][m].comps {
        assert scans[..j][m] == scans[m];
      }
    }
  }

  // ----- validate_script

  /** Validate component indexes. */
  method CheckComps(comps: seq<int>, n: nat) returns (ok: bool)
    ensures ok <==> CompsOk(comps, n)
  {
    if |comps| <= 0 || |comps| > MAX_COMPS_IN_SCAN {
      return false;
    }
    for ci := 0 to |comps|
      invariant forall i :: 0 <= i < ci ==> 0 <= comps[i] < n
      invariant forall i, j :: 0 <= i < j < ci ==> comps[i] < comps[j]
    {
      var thisi := comps[ci];
      if thisi < 0 || thisi >= n {
        return false;
      }
      if ci > 0 && thisi <= comps[ci - 1] {
        return false;
      }
    }
    return true;
  }

  /** The table of last bit positions is up to date. */
  ghost predicate Positions(bitpos: array2<int>, scans: seq<ScanInfo>, n: nat)
    reads bitpos
  {
    && bitpos.Length0 == n && bitpos.Length1 == DCTSIZE2
    && forall c, k :: 0 <= c < n && 0 <= k < DCTSIZE2 ==> bitpos[c, k] == Last(scans, c, k)
  }

  /** ... for the first m of the scan's components, and not for the others. */
  ghost predicate PartlyUpdated(bitpos: array2<int>, before: seq<ScanInfo>, s: ScanInfo, n: nat, m: nat)
    reads bitpos
    requires m <= |s.comps|
  {
    && bitpos.Length0 == n && bitpos.Length1 == DCTSIZE2
    && forall c, k :: 0 <= c < n && 0 <= k < DCTSIZE2 ==>
         bitpos[c, k] == if c in s.comps[..m] && s.ss <= k <= s.se then s.al else Last(before, c, k)
  }

  /** One component of a progressive scan. */
  method CheckComponent(bitpos: array2<int>, s: ScanInfo, n: nat, m: nat, ghost before: seq<ScanInfo>)
    returns (ok: bool)
    requires CompsOk(s.comps, n) && ProgressionOk(s) && m < |s.comps| && PartlyUpdated(bitpos, before, s, n, m)
    modifies bitpos
    ensures ok <==> FitsComponent(before, s, s.comps[m])
    ensures ok ==> PartlyUpdated(bitpos, before, s, n, m + 1)
  {
    var c := s.comps[m];
    assert c !in s.comps[..m];
    if s.ss != 0 && bitpos[c, 0] < 0 {
      return false;
    }
    for coefi := s.ss to s.se + 1
      invariant forall d, k :: 0 <= d < n && 0 <= k < DCTSIZE2 ==>
                  bitpos[d, k] == if (d in s.comps[..m] && s.ss <= k <= s.se) || (d == c && s.ss <= k < coefi) then s.al
                                  else Last(before, d, k)
      invariant forall k :: s.ss <= k < coefi ==> Continues(Last(before, c, k), s.ah, s.al)
    {
      if bitpos[c, coefi] < 0 {
        if s.ah != 0 {
          return false;
        }
      } else {
        if s.ah != bitpos[c, coefi] || s.al != s.ah - 1 {
          return false;
        }
      }
      bitpos[c, coefi] := s.al;
    }
    assert s.comps[..m + 1] == s.comps[..m] + [c];
    return true;
  }

  /** One scan of a progressive script. */
  method CheckProgressive(bitpos: array2<int>, s: ScanInfo, n: nat, ghost before: seq<ScanInfo>) returns (ok: bool)
    requires CompsOk(s.comps, n) && Positions(bitpos, before, n)
    modifies bitpos
    ensures ok <==> ScanFits(before, s, n)
    ensures ok ==> Positions(bitpos, before + [s], n)
  {
    if s.ss < 0 || s.ss >= DCTSIZE2 || s.se < s.ss || s.se >= DCTSIZE2
       || s.ah < 0 || s.ah > MAX_AH_AL || s.al < 0 || s.al > MAX_AH_AL {
      return false;
    }
    if s.ss == 0 {
      if s.se != 0 {
        return false;
      }
    } else {
      if |s.comps| != 1 {
        return false;
      }
    }
    for ci := 0 to |s.comps|
      invariant PartlyUpdated(bitpos, before, s, n, ci)
      invariant forall i :: 0 <= i < ci ==> FitsComponent(before, s, s.comps[i])
    {
      ok := CheckComponent(bitpos, s, n, ci, before);
      if !ok {
        return;
      }
    }
    Updated(bitpos, before, s, n);
    return true;
  }

  lemma Updated(bitpos: array2<int>, before: seq<ScanInfo>, s: ScanInfo, n: nat)
    requires PartlyUpdated(bitpos, before, s, n, |s.comps|)
    ensures Positions(bitpos, before + [s], n)
  {
    assert (before + [s])[..|before|] == before && s.comps[..|s.comps|] == s.comps;
  }

  /** One scan of a sequential script. */
  method CheckSequential(sent: array<bool>, s: ScanInfo, n: nat, ghost before: seq<ScanInfo>) returns (ok: bool)
    requires CompsOk(s.comps, n) && sent.Length == n && forall c :: 0 <= c < n ==> sent[c] == Sent(before, c)
    modifies sent
    ensures ok <==> ScanIsNew(before, s, n)
    ensures ok ==> forall c :: 0 <= c < n ==> sent[c] == Sent(before + [s], c)
  {
    if s.ss != 0 || s.se != DCTSIZE2 - 1 || s.ah != 0 || s.al != 0 {
      return false;
    }
    for ci := 0 to |s.comps|
      invariant forall c :: 0 <= c < n ==> sent[c] == (Sent(before, c) || c in s.comps[..ci])
      invariant forall i :: 0 <= i < ci ==> !Sent(before, s.comps[i])
    {
      var thisi := s.comps[ci];
      assert thisi !in s.comps[..ci];
      if sent[thisi] {
        return false;
      }
      sent[thisi] := true;
      assert s.comps[..ci + 1] == s.comps[..ci] + [thisi];
    }
    assert s.comps[..|s.comps|] == s.comps;
    forall c ensures Sent(before + [s], c) <==> Sent(before, c) || c in s.comps {
      SentOneMore(before, s, c);
    }
    return true;
  }

  lemma SentOneMore(before: seq<ScanInfo>, s: ScanInfo, c: int)
    ensures Sent(before + [s], c) <==> Sent(before, c) || c in s.comps
  {
    var all := before + [s];
    if j :| 0 <= j < |before| && c in before[j].comps {
      assert all[j] == before[j];
    }
    assert all[|before|] == s;
  }

  /** validate_script: exactly the scripts that keep the rules are accepted. */
  method ValidateScript(scans: seq<ScanInfo>, n: nat) returns (verdict: Verdict)
    requires 0 < n <= MAX_COMPONENTS
    ensures verdict == Progressive <==> AcceptedProgressive(scans, n)
    ensures verdict == Sequential <==> AcceptedSequential(scans, n)
  {
    if |scans| <= 0 {
      return Bad;
    }
    if !scans[0].IsFull() {
      verdict := ValidateProgressive(scans, n);
    } else {
      verdict := ValidateSequential(scans, n);
    }
  }

  lemma FirstFits(scans: seq<ScanInfo>, n: nat, j: nat)
    requires j < |scans|
    ensures !ScanFits(scans[..j], scans[j], n) ==> !AllFit(scans, n)
  {
  }

  method ValidateProgressive(scans: seq<ScanInfo>, n: nat) returns (verdict: Verdict)
    requires scans != [] && !scans[0].IsFull()
    ensures verdict == if AcceptedProgressive(scans, n) then Progressive else Bad
  {
    var bitpos := new int[n, DCTSIZE2]((_, _) => -1);
    for scanno := 0 to |scans|
      invariant Positions(bitpos, scans[..scanno], n)
      invariant forall j :: 0 <= j < scanno ==> ScanFits(scans[..j], scans[j], n)
    {
      FirstFits(scans, n, scanno);
      hide Positions, ScanFits;
      var ok := CheckComps(scans[scanno].comps, n);
      if !ok {
        NotEvenComps(scans[..scanno], scans[scanno], n);
        return Bad;
      }
      ok := CheckProgressive(bitpos, scans[scanno], n, scans[..scanno]);
      if !ok {
        return Bad;
      }
      assert scans[..scanno + 1] == scans[..scanno] + [scans[scanno]];
    }
    assert scans[..|scans|] == scans;
    for ci := 0 to n
      invariant forall c :: 0 <= c < ci ==> Last(scans, c, 0) >= 0
    {
      if bitpos[ci, 0] < 0 {
        return Bad;
      }
    }
    return Progressive;
  }

  lemma NotEvenComps(before: seq<ScanInfo>, s: ScanInfo, n: nat)
    requires !CompsOk(s.comps, n)
    ensures !ScanFits(before, s, n) && !ScanIsNew(before, s, n)
  {
  }

  method ValidateSequential(scans: seq<ScanInfo>, n: nat) returns (verdict: Verdict)
    requires scans != [] && scans[0].IsFull()
    ensures verdict == if AcceptedSequential(scans, n) then Sequential else Bad
  {
    var sent := new bool[n](_ => false);
    for scanno := 0 to |scans|
      invariant forall c :: 0 <= c < n ==> sent[c] == Sent(scans[..scanno], c)
      invariant forall j :: 0 <= j < scanno ==> ScanIsNew(scans[..j], scans[j], n)
    {
      var ok := CheckComps(scans[scanno].comps, n);
      if !ok {
        NotEvenComps(scans[..scanno], scans[scanno], n);
        return Bad;
      }
      ok := CheckSequential(sent, scans[scanno], n, scans[..scanno]);
      if !ok {
        return Bad;
      }
      assert scans[..scanno + 1] == scans[..scanno] + [scans[scanno]];
    }
    assert scans[..|scans|] == scans;
    for ci := 0 to n
      invariant forall c :: 0 <= c < ci ==> Sent(scans, c)
    {
      if !sent[ci] {
        return Bad;
      }
    }
    return Sequential;
  }
}
