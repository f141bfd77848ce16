/**
 The recommended progressive script of jcparam.c: it is filled to its computed size, accepted,
 and brings every coefficient of every component to full precision.
 */
module SimpleProgression {
  import opened ScanScript

  // ----- the scans of the script

  function OneScan(ci: nat, ss: int, se: int, ah: int, al: int): ScanInfo {
    ScanInfo([ci], ss, se, ah, al)
  }

  /** One scan for each component. */
  function Each(n: nat, ss: int, se: int, ah: int, al: int): (r: seq<ScanInfo>)
    ensures |r| == n
  {
    seq(n, ci requires 0 <= ci < n => OneScan(ci, ss, se, ah, al))
  }

  function Iota(n: nat): (r: seq<int>)
    ensures |r| == n
  {
    seq(n, i => i)
  }

  /** The DC scan, interleaved if possible. */
  function Dc(n: nat, ah: int, al: int): (r: seq<ScanInfo>)
    ensures |r| == if n <= MAX_COMPS_IN_SCAN then 1 else n
  {
    if n <= MAX_COMPS_IN_SCAN then [ScanInfo(Iota(n), 0, 0, ah, al)] else Each(n, 0, 0, ah, al)
  }

  function ScriptSize(n: nat, ycc: bool): nat {
    if n == 3 && ycc then 10 else if n > MAX_COMPS_IN_SCAN then 6 * n else 2 + 4 * n
  }

  function YccScript(): seq<ScanInfo> {
    Dc(3, 0, 1)
    + [OneScan(0, 1, 5, 0, 2)]
    + [OneScan(2, 1, 63, 0, 1)]
    + [OneScan(1, 1, 63, 0, 1)]
    + [OneScan(0, 6, 63, 0, 2)]
    + [OneScan(0, 1, 63, 2, 1)]
    + Dc(3, 1, 0)
    + [OneScan(2, 1, 63, 1, 0)]
    + [OneScan(1, 1, 63, 1, 0)]
    + [OneScan(0, 1, 63, 1, 0)]
  }

  function PlainScript(n: nat): seq<ScanInfo> {
    Dc(n, 0, 1) + Each(n, 1, 5, 0, 2) + Each(n, 6, 63, 0, 2) + Each(n, 1, 63, 2, 1) + Dc(n, 1, 0) + Each(n, 1, 63, 1, 0)
  }

  function SimpleScript(n: nat, ycc: bool): seq<ScanInfo> {
    if n == 3 && ycc then YccScript() else PlainScript(n)
  }

  // ----- filling them in

  /** Scans written from position `at` on; the others stay. */
  ghost predicate Filled(before: seq<ScanInfo>, after: seq<ScanInfo>, at: nat, scans: seq<ScanInfo>) {
    at + |scans| <= |before| && after == before[..at] + scans + before[at + |scans|..]
  }

  /** fill_a_scan */
  method FillAScan(script: array<ScanInfo>, at: nat, ci: nat, ss: int, se: int, ah: int, al: int) returns (next: nat)
    requires at < script.Length
    modifies script
    ensures next == at + 1 && Filled(old(script[..]), script[..], at, [OneScan(ci, ss, se, ah, al)])
  {
    script[at] := ScanInfo([ci], ss, se, ah, al);
    next := at + 1;
  }

  /** fill_scans */
  method FillScans(script: array<ScanInfo>, at: nat, n: nat, ss: int, se: int, ah: int, al: int) returns (next: nat)
    requires at + n <= script.Length
    modifies script
    ensures next == at + n && Filled(old(script[..]), script[..], at, Each(n, ss, se, ah, al))
  {
    next := at;
    for ci := 0 to n
      invariant next == at + ci
      invariant Filled(old(script[..]), script[..], at, Each(ci, ss, se, ah, al))
    {
      script[next] := ScanInfo([ci], ss, se, ah, al);
      next := next + 1;
      assert Each(ci + 1, ss, se, ah, al) == Each(ci, ss, se, ah, al) + [OneScan(ci, ss, se, ah, al)];
    }
  }

  /** fill_dc_scans */
  method FillDcScans(script: array<ScanInfo>, at: nat, n: nat, ah: int, al: int) returns (next: nat)
    requires at + |Dc(n, ah, al)| <= script.Length
    modifies script
    ensures next == at + |Dc(n, ah, al)| && Filled(old(script[..]), script[..], at, Dc(n, ah, al))
  {
    if n <= MAX_COMPS_IN_SCAN {
      var comps := [];
      for ci := 0 to n
        invariant comps == Iota(ci)
      {
        comps := comps + [ci];
      }
      script[at] := ScanInfo(comps, 0, 0, ah, al);
      next := at + 1;
    } else {
      next := FillScans(script, at, n, 0, 0, ah, al);
    }
  }

  /** What has been filled so far. */
  lemma FilledOn(before: seq<ScanInfo>, after: seq<ScanInfo>, done: seq<ScanInfo>, more: seq<ScanInfo>)
    requires done <= before && Filled(before, after, |done|, more)
    ensures done + more <= after && |after| == |before|
  {
  }

  /** jpeg_simple_progression: the script fills exactly the space computed for it. */
  method SimpleProgressionScript(n: nat, ycc: bool) returns (script: seq<ScanInfo>)
    requires 0 < n <= MAX_COMPONENTS
    ensures script == SimpleScript(n, ycc) && |script| == ScriptSize(n, ycc)
  {
    hide Filled, Dc, Each;
    var nscans := if n == 3 && ycc then 10 else if n > MAX_COMPS_IN_SCAN then 6 * n else 2 + 4 * n;
    var space := new ScanInfo[if nscans > 10 then nscans else 10](_ => ScanInfo([], 0, 0, 0, 0));
    if n == 3 && ycc {
      FillYcc(space);
    } else {
      FillPlain(space, n);
    }
    script := space[..nscans];
  }

  method FillYcc(space: array<ScanInfo>)
    requires space.Length >= 10
    modifies space
    ensures YccScript() <= space[..] && |YccScript()| == 10
  {
    ghost var done: seq<ScanInfo> := [];
    var at := 0;
    at, done := AppendDc(space, at, done, 3, 0, 1);
    hide *;
    assert [] + Dc(3, 0, 1) == Dc(3, 0, 1);
    at, done := Append(space, at, done, 0, 1, 5, 0, 2);
    at, done := Append(space, at, done, 2, 1, 63, 0, 1);
    at, done := Append(space, at, done, 1, 1, 63, 0, 1);
    at, done := Append(space, at, done, 0, 6, 63, 0, 2);
    at, done := Append(space, at, done, 0, 1, 63, 2, 1);
    at, done := AppendDc(space, at, done, 3, 1, 0);
    at, done := Append(space, at, done, 2, 1, 63, 1, 0);
    at, done := Append(space, at, done, 1, 1, 63, 1, 0);
    at, done := Append(space, at, done, 0, 1, 63, 1, 0);
    YccParts();
  }

  lemma YccParts()
    ensures YccScript() == Dc(3, 0, 1) + [OneScan(0, 1, 5, 0, 2)] + [OneScan(2, 1, 63, 0, 1)]
                         + [OneScan(1, 1, 63, 0, 1)] + [OneScan(0, 6, 63, 0, 2)] + [OneScan(0, 1, 63, 2, 1)]
                         + Dc(3, 1, 0) + [OneScan(2, 1, 63, 1, 0)] + [OneScan(1, 1, 63, 1, 0)]
                         + [OneScan(0, 1, 63, 1, 0)]
    ensures |YccScript()| == 10
  {
  }

  /** One more scan for one component. */
  method Append(space: array<ScanInfo>, at: nat, ghost done: seq<ScanInfo>, ci: nat, ss: int, se: int, ah: int, al: int)
    returns (next: nat, ghost more: seq<ScanInfo>)
    requires at == |done| < space.Length && done <= space[..]
    modifies space
    ensures more == done + [OneScan(ci, ss, se, ah, al)] && next == |more| && more <= space[..]
  {
    ghost var s := space[..];
    next := FillAScan(space, at, ci, ss, se, ah, al);
    FilledOn(s, space[..], done, [OneScan(ci, ss, se, ah, al)]);
    more := done + [OneScan(ci, ss, se, ah, al)];
  }

  /** One more scan for every component. */
  method AppendEach(space: array<ScanInfo>, at: nat, ghost done: seq<ScanInfo>, n: nat, ss: int, se: int, ah: int,
                    al: int)
    returns (next: nat, ghost more: seq<ScanInfo>)
    requires at == |done| && |done| + n <= space.Length && done <= space[..]
    modifies space
    ensures more == done + Each(n, ss, se, ah, al) && next == |more| && more <= space[..]
  {
    hide Each, Filled;
    ghost var s := space[..];
    next := FillScans(space, at, n, ss, se, ah, al);
    FilledOn(s, space[..], done, Each(n, ss, se, ah, al));
    more := done + Each(n, ss, se, ah, al);
  }

  method AppendDc(space: array<ScanInfo>, at: nat, ghost done: seq<ScanInfo>, n: nat, ah: int, al: int)
    returns (next: nat, ghost more: seq<ScanInfo>)
    requires at == |done| && |done| + |Dc(n, ah, al)| <= space.Length && done <= space[..]
    modifies space
    ensures more == done + Dc(n, ah, al) && next == |more| && more <= space[..]
  {
    hide Each, Filled, Dc;
    ghost var s := space[..];
    next := FillDcScans(space, at, n, ah, al);
    FilledOn(s, space[..], done, Dc(n, ah, al));
    more := done + Dc(n, ah, al);
  }

  method FillPlain(space: array<ScanInfo>, n: nat)
    requires space.Length >= if n > MAX_COMPS_IN_SCAN then 6 * n else 2 + 4 * n
    modifies space
    ensures PlainScript(n) <= space[..] && |PlainScript(n)| == if n > MAX_COMPS_IN_SCAN then 6 * n else 2 + 4 * n
  {
    hide Each, Filled, Dc;
    ghost var done: seq<ScanInfo> := [];
    var at := 0;
    at, done := AppendDc(space, at, done, n, 0, 1);
    at, done := AppendEach(space, at, done, n, 1, 5, 0, 2);
    at, done := AppendEach(space, at, done, n, 6, 63, 0, 2);
    at, done := AppendEach(space, at, done, n, 1, 63, 2, 1);
    at, done := AppendDc(space, at, done, n, 1, 0);
    at, done := AppendEach(space, at, done, n, 1, 63, 1, 0);
    assert [] + Dc(n, 0, 1) == Dc(n, 0, 1);
    assert done == PlainScript(n);
  }

  // ----- the script is accepted

  lemma OneMoreFits(scans: seq<ScanInfo>, s: ScanInfo, n: nat)
    requires AllFit(scans, n) && ScanFits(scans, s, n)
    ensures AllFit(scans + [s], n)
  {
    var all := scans + [s];
    hide ScanFits;
    forall j | 0 <= j < |all| ensures ScanFits(all[..j], all[j], n) {
      if j < |scans| {
        assert all[..j] == scans[..j];
      } else {
        assert all[..j] == scans;
      }
    }
  }

  lemma LastOfMore(scans: seq<ScanInfo>, s: ScanInfo, c: int, k: int)
    ensures Last(scans + [s], c, k) == if s.Sends(c, k) then s.al else Last(scans, c, k)
  {
    assert (scans + [s])[..|scans|] == scans;
  }

  /** A scan of one component that fits. */
  lemma OneFits(scans: seq<ScanInfo>, n: nat, ci: nat, ss: nat, se: nat, ah: nat, al: nat)
    requires AllFit(scans, n) && ci < n && ss <= se < DCTSIZE2 && ah <= MAX_AH_AL && al <= MAX_AH_AL
    requires if ss == 0 then se == 0 else Last(scans, ci, 0) >= 0
    requires forall k :: ss <= k <= se ==> Continues(Last(scans, ci, k), ah, al)
    ensures AllFit(scans + [OneScan(ci, ss, se, ah, al)], n)
    ensures forall c, k :: Last(scans + [OneScan(ci, ss, se, ah, al)], c, k)
                        == if c == ci && ss <= k <= se then al else Last(scans, c, k)
  {
    var s := OneScan(ci, ss, se, ah, al);
    OneMoreFits(scans, s, n);
    forall c, k ensures Last(scans + [s], c, k) == if c == ci && ss <= k <= se then al else Last(scans, c, k) {
      LastOfMore(scans, s, c, k);
    }
  }

  /** The same scan for each component. */
  lemma {:induction false} EachFits(scans: seq<ScanInfo>, n: nat, m: nat, ss: nat, se: nat, ah: nat, al: nat)
    requires AllFit(scans, n) && m <= n && ss <= se < DCTSIZE2 && ah <= MAX_AH_AL && al <= MAX_AH_AL
    requires ss == 0 ==> se == 0
    requires ss > 0 ==> forall c :: 0 <= c < n ==> Last(scans, c, 0) >= 0
    requires forall c, k :: 0 <= c < n && ss <= k <= se ==> Continues(Last(scans, c, k), ah, al)
    ensures AllFit(scans + Each(m, ss, se, ah, al), n)
    ensures forall c, k :: Last(scans + Each(m, ss, se, ah, al), c, k)
                        == if 0 <= c < m && ss <= k <= se then al else Last(scans, c, k)
  {
    hide AllFit, Last, Continues, Each;
    EachMore(scans, m, ss, se, ah, al);
    if m > 0 {
      var c := m - 1;
      EachFits(scans, n, c, ss, se, ah, al);
      var more := scans + Each(c, ss, se, ah, al);
      forall k | ss <= k <= se ensures Continues(Last(more, c, k), ah, al) {
        assert Last(more, c, k) == Last(scans, c, k);
      }
      assert Last(more, c, 0) == Last(scans, c, 0);
      OneFits(more, n, c, ss, se, ah, al);
    }
  }

  lemma EachMore(scans: seq<ScanInfo>, m: nat, ss: nat, se: nat, ah: nat, al: nat)
    ensures if m == 0 then scans + Each(m, ss, se, ah, al) == scans
            else scans + Each(m, ss, se, ah, al)
                 == scans + Each(m - 1, ss, se, ah, al) + [OneScan(m - 1, ss, se, ah, al)]
  {
  }

  lemma DcFits(scans: seq<ScanInfo>, n: nat, ah: nat, al: nat)
    requires AllFit(scans, n) && 0 < n && ah <= MAX_AH_AL && al <= MAX_AH_AL
    requires forall c :: 0 <= c < n ==> Continues(Last(scans, c, 0), ah, al)
    ensures AllFit(scans + Dc(n, ah, al), n)
    ensures forall c, k :: Last(scans + Dc(n, ah, al), c, k) == if 0 <= c < n && k == 0 then al else Last(scans, c, k)
  {
    if n <= MAX_COMPS_IN_SCAN {
      var s := ScanInfo(Iota(n), 0, 0, ah, al);
      OneMoreFits(scans, s, n);
      forall c, k ensures Last(scans + [s], c, k) == if 0 <= c < n && k == 0 then al else Last(scans, c, k) {
        LastOfMore(scans, s, c, k);
        assert 0 <= c < n ==> Iota(n)[c] == c;
      }
    } else {
      EachFits(scans, n, n, 0, 0, ah, al);
    }
  }

  /** Every coefficient of every component has been sent to precision 0. */
  ghost predicate Complete(scans: seq<ScanInfo>, n: nat) {
    forall c, k :: 0 <= c < n && 0 <= k < DCTSIZE2 ==> Last(scans, c, k) == 0
  }

  lemma PlainFits(n: nat)
    requires 0 < n
    ensures AllFit(PlainScript(n), n) && Complete(PlainScript(n), n)
  {
    hide AllFit;
    NothingFits(n);
    hide Each, Dc;
    var p1 := [] + Dc(n, 0, 1);
    DcFits([], n, 0, 1);
    var p2 := p1 + Each(n, 1, 5, 0, 2);
    EachFits(p1, n, n, 1, 5, 0, 2);
    var p3 := p2 + Each(n, 6, 63, 0, 2);
    EachFits(p2, n, n, 6, 63, 0, 2);
    var p4 := p3 + Each(n, 1, 63, 2, 1);
    EachFits(p3, n, n, 1, 63, 2, 1);
    var p5 := p4 + Dc(n, 1, 0);
    DcFits(p4, n, 1, 0);
    EachFits(p5, n, n, 1, 63, 1, 0);
    assert p1 == Dc(n, 0, 1);
    assert PlainScript(n) == p5 + Each(n, 1, 63, 1, 0);
  }

  lemma NothingFits(n: nat)
    ensures AllFit([], n)
  {
  }

  /** The precision to which the DC, the first five AC and the other AC coefficients of a component have been sent. */
  datatype Sofar = Sofar(dc: int, low: int, high: int) {
    function At(k: nat): int {
      if k == 0 then dc else if k <= 5 then low else high
    }
  }

  ghost predicate StandsAt(scans: seq<ScanInfo>, t: seq<Sofar>) {
    && AllFit(scans, |t|)
    && forall c, k :: 0 <= c < |t| && 0 <= k < DCTSIZE2 ==> Last(scans, c, k) == t[c].At(k)
  }

  /** An AC scan of the low, the high, or all the AC coefficients. */
  lemma AcStep(scans: seq<ScanInfo>, t: seq<Sofar>, ci: nat, ss: nat, se: nat, ah: nat, al: nat) returns (u: seq<Sofar>)
    requires StandsAt(scans, t) && ci < |t| && t[ci].dc >= 0 && ah <= MAX_AH_AL && al <= MAX_AH_AL
    requires (ss == 1 && se == 5) || (ss == 6 && se == 63) || (ss == 1 && se == 63)
    requires ss == 1 ==> Continues(t[ci].low, ah, al)
    requires se == 63 ==> Continues(t[ci].high, ah, al)
    ensures StandsAt(scans + [OneScan(ci, ss, se, ah, al)], u)
    ensures u == t[ci := Sofar(t[ci].dc, if ss == 1 then al else t[ci].low, if se == 63 then al else t[ci].high)]
  {
    u := t[ci := Sofar(t[ci].dc, if ss == 1 then al else t[ci].low, if se == 63 then al else t[ci].high)];
    hide AllFit, Last;
    OneFits(scans, |t|, ci, ss, se, ah, al);
  }

  lemma DcStep(scans: seq<ScanInfo>, t: seq<Sofar>, ah: nat, al: nat) returns (u: seq<Sofar>)
    requires StandsAt(scans, t) && |t| == 3 && ah <= MAX_AH_AL && al <= MAX_AH_AL
    requires forall c :: 0 <= c < 3 ==> Continues(t[c].dc, ah, al)
    ensures StandsAt(scans + Dc(3, ah, al), u)
    ensures u == [Sofar(al, t[0].low, t[0].high), Sofar(al, t[1].low, t[1].high), Sofar(al, t[2].low, t[2].high)]
  {
    u := [Sofar(al, t[0].low, t[0].high), Sofar(al, t[1].low, t[1].high), Sofar(al, t[2].low, t[2].high)];
    hide AllFit, Last, Dc;
    DcFits(scans, 3, ah, al);
  }

  lemma YccFits()
    ensures AllFit(YccScript(), 3) && Complete(YccScript(), 3)
  {
    var t := [Sofar(-1, -1, -1), Sofar(-1, -1, -1), Sofar(-1, -1, -1)];
    assert StandsAt([], t);
    YccParts();
    hide StandsAt, AllFit, Last, Dc, YccScript, Complete;
    var scans: seq<ScanInfo> := [];
    assert [] + Dc(3, 0, 1) == Dc(3, 0, 1);
    t := DcStep(scans, t, 0, 1);
    scans := Dc(3, 0, 1);
    t := AcStep(scans, t, 0, 1, 5, 0, 2);
    scans := scans + [OneScan(0, 1, 5, 0, 2)];
    t := AcStep(scans, t, 2, 1, 63, 0, 1);
    scans := scans + [OneScan(2, 1, 63, 0, 1)];
    t := AcStep(scans, t, 1, 1, 63, 0, 1);
    scans := scans + [OneScan(1, 1, 63, 0, 1)];
    t := AcStep(scans, t, 0, 6, 63, 0, 2);
    scans := scans + [OneScan(0, 6, 63, 0, 2)];
    t := AcStep(scans, t, 0, 1, 63, 2, 1);
    scans := scans + [OneScan(0, 1, 63, 2, 1)];
    t := DcStep(scans, t, 1, 0);
    scans := scans + Dc(3, 1, 0);
    t := AcStep(scans, t, 2, 1, 63, 1, 0);
    scans := scans + [OneScan(2, 1, 63, 1, 0)];
    t := AcStep(scans, t, 1, 1, 63, 1, 0);
    scans := scans + [OneScan(1, 1, 63, 1, 0)];
    t := AcStep(scans, t, 0, 1, 63, 1, 0);
    scans := scans + [OneScan(0, 1, 63, 1, 0)];
    AllAtZero(scans, t);
  }

  lemma AllAtZero(scans: seq<ScanInfo>, t: seq<Sofar>)
    requires StandsAt(scans, t) && forall c :: 0 <= c < |t| ==> t[c] == Sofar(0, 0, 0)
    ensures AllFit(scans, |t|) && Complete(scans, |t|)
  {
  }

  /** The script for YCbCr images is the one that wizard.doc lists, Cr before Cb. */
  lemma DocumentedScript()
    ensures SimpleScript(3, true) ==
              [ScanInfo([0, 1, 2], 0, 0, 0, 1), ScanInfo([0], 1, 5, 0, 2), ScanInfo([2], 1, 63, 0, 1),
               ScanInfo([1], 1, 63, 0, 1), ScanInfo([0], 6, 63, 0, 2), ScanInfo([0], 1, 63, 2, 1),
               ScanInfo([0, 1, 2], 0, 0, 1, 0), ScanInfo([2], 1, 63, 1, 0), ScanInfo([1], 1, 63, 1, 0),
               ScanInfo([0], 1, 63, 1, 0)]
  {
    YccParts();
    assert Iota(3) == [0, 1, 2];
  }

  /** DC scan i of component c, interleaved with those of the others if there are at most four. */
  predicate IsDc(s: ScanInfo, n: nat, c: nat, ah: int, al: int) {
    && s.ss == 0 && s.se == 0 && s.ah == ah && s.al == al
    && (if n <= 4 then |s.comps| == n && c < n && s.comps[c] == c else s.comps == [c])
  }

  /**
   For every other image: DC, the first five AC coefficients and the others of every component without
   their lowest one and two bits, and then the AC and DC bits that were left out, from the top.
   */
  lemma OtherScripts(n: nat, ycc: bool, c: nat)
    requires c < n && !(n == 3 && ycc)
    ensures var script, dcs := SimpleScript(n, ycc), if n <= 4 then 1 else n;
            && |script| == 2 * dcs + 4 * n
            && IsDc(script[if n <= 4 then 0 else c], n, c, 0, 1)
            && script[dcs + c] == ScanInfo([c], 1, 5, 0, 2)
            && script[dcs + n + c] == ScanInfo([c], 6, 63, 0, 2)
            && script[dcs + 2 * n + c] == ScanInfo([c], 1, 63, 2, 1)
            && IsDc(script[dcs + 3 * n + if n <= 4 then 0 else c], n, c, 1, 0)
            && script[2 * dcs + 3 * n + c] == ScanInfo([c], 1, 63, 1, 0)
  {
    var dcs, d0, d1 := if n <= 4 then 1 else n, Dc(n, 0, 1), Dc(n, 1, 0);
    var e1, e2, e3, e4 := Each(n, 1, 5, 0, 2), Each(n, 6, 63, 0, 2), Each(n, 1, 63, 2, 1), Each(n, 1, 63, 1, 0);
    var p := d0 + e1 + e2 + e3;
    var at := if n <= 4 then 0 else c;
    assert IsDc(d0[at], n, c, 0, 1) && IsDc(d1[at], n, c, 1, 0);
    assert |d0| == dcs && |d1| == dcs;
    hide Each, Dc, IsDc;
    EachAt(n, c, 1, 5, 0, 2);
    EachAt(n, c, 6, 63, 0, 2);
    EachAt(n, c, 1, 63, 2, 1);
    EachAt(n, c, 1, 63, 1, 0);
    assert |p| == dcs + 3 * n && p[at] == d0[at] && p[dcs + c] == e1[c] && p[dcs + n + c] == e2[c]
        && p[dcs + 2 * n + c] == e3[c];
    assert SimpleScript(n, ycc) == p + d1 + e4;
  }

  lemma EachAt(n: nat, c: nat, ss: int, se: int, ah: int, al: int)
    requires c < n
    ensures Each(n, ss, se, ah, al)[c] == ScanInfo([c], ss, se, ah, al)
  {
  }

  /** The recommended script is accepted as progressive, and nothing of the image is left unsent. */
  lemma SimpleScriptIsComplete(n: nat, ycc: bool)
    requires 0 < n <= MAX_COMPONENTS
    ensures AcceptedProgressive(SimpleScript(n, ycc), n) && Complete(SimpleScript(n, ycc), n)
  {
    if n == 3 && ycc {
      YccFits();
    } else {
      PlainFits(n);
    }
    hide AllFit, Last;
    assert SimpleScript(n, ycc)[0].se == 0;
  }
}
