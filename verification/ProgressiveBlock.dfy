/**
 The band of a block that a progressive AC scan codes, and how its tokens come
 about coefficient by coefficient.
 */
module ProgressiveBlock {
  import opened BitString
  import opened ByteStream
  import opened HuffmanCode
  import opened Tokens
  import opened SequentialCode
  import opened SequentialScan
  import opened ProgressiveBand
  import opened ProgressiveRun
  import opened ProgressiveEmitter

  // ----- the band of a block

  /** The point transform of an AC coefficient: division by 2^al, rounding towards zero. */
  function Point(c: int, al: nat): int {
    if c < 0 then -(-c / Pow2(al)) else c / Pow2(al)
  }

  lemma HalfOfPoint(c: int, al: nat)
    ensures Half(Point(c, al)) == Point(c, al + 1)
  {
    HalveQuotient(if c < 0 then -c else c, Pow2(al));
  }

  lemma HalveQuotient(x: nat, d: nat)
    requires d > 0
    ensures x / d / 2 == x / (2 * d)
  {
    var q, r := x / d, x % d;
    assert x == q * d + r;
    assert q * d == (q / 2) * (2 * d) + (q % 2) * d;
    if q % 2 == 1 {
      DivModUnique(x, 2 * d, q / 2, d + r);
    } else {
      DivModUnique(x, 2 * d, q / 2, r);
    }
  }

  /** Parameters of an AC scan; it refines when Ah is not 0. */
  datatype AcParams = AcParams(order: seq<nat>, ss: nat, se: nat, al: nat, scan: AcScan) {
    predicate WellFormed() {
      IsOrder(order) && 1 <= ss <= se < DCTSIZE2 && scan.tbl < NUM_HUFF_TBLS
    }
  }

  type Params = p: AcParams | p.WellFormed()
    witness AcParams(seq(DCTSIZE2, i => i), 1, 63, 0, AcScan(0, false, 0))

  /** The coefficients ss..se of a block to a precision, in zigzag order. */
  function Precise(p: Params, block: Coefs, al: nat): (v: seq<int>)
    ensures |v| == p.se - p.ss + 1
  {
    seq(p.se - p.ss + 1, i requires 0 <= i < p.se - p.ss + 1 => Point(block[p.order[p.ss + i]], al))
  }

  function BandOf(p: Params, block: Coefs): (b: Band)
    ensures b.Len() == p.se - p.ss + 1
  {
    PreciseIsBand(p, block);
    BandData(if p.scan.refining then Precise(p, block, p.al + 1) else Zeros(p.se - p.ss + 1), Precise(p, block, p.al))
  }

  lemma PreciseIsBand(p: Params, block: Coefs)
    ensures BandData(Precise(p, block, p.al + 1), Precise(p, block, p.al)).WellFormed()
  {
    forall i | 0 <= i < p.se - p.ss + 1
      ensures Half(Precise(p, block, p.al)[i]) == Precise(p, block, p.al + 1)[i]
    {
      HalfOfPoint(block[p.order[p.ss + i]], p.al);
    }
  }

  /** In a refinement scan a coefficient is new exactly when it is 1 or -1. */
  lemma NewIffOne(p: Params, block: Coefs, i: nat)
    requires p.scan.refining && i < BandOf(p, block).Len()
    ensures IsNew(BandOf(p, block), i) <==> Abs(BandOf(p, block).now[i]) == 1
  {
    HalfOfPoint(block[p.order[p.ss + i]], p.al);
    assert BandOf(p, block).was[i] == Half(BandOf(p, block).now[i]);
  }

  /** ... and so every refinement scan is in range. */
  lemma RefinementIsInRange(p: Params, block: Coefs)
    requires p.scan.refining
    ensures NewInRange(BandOf(p, block), true)
  {
    hide BandOf;
    var b := BandOf(p, block);
    forall i | 0 <= i < b.Len() && IsNew(b, i) ensures NumBits(Abs(b.now[i])) <= 1 {
      NewIffOne(p, block, i);
      assert NumBits(1) == 1;
    }
  }

  /** In a first scan every non-zero coefficient is new. */
  lemma FirstScanIsNew(p: Params, block: Coefs)
    requires !p.scan.refining
    ensures forall i :: 0 <= i < p.se - p.ss + 1 ==> (IsNew(BandOf(p, block), i) <==> BandOf(p, block).now[i] != 0)
  {
  }

  /** To full precision, nothing is lost. */
  lemma FullPrecision(p: Params, block: Coefs, i: nat)
    requires i < p.se - p.ss + 1
    ensures Precise(p, block, 0)[i] == block[p.order[p.ss + i]]
  {
    PointOfZero(block[p.order[p.ss + i]], 0);
  }

  lemma PointOfZero(c: int, al: nat)
    requires al == 0
    ensures Point(c, al) == c
  {
    var d := Pow2(al);
    assert d == 1;
    DivModUnique(c, d, c, 0);
    DivModUnique(-c, d, -c, 0);
  }

  lemma BandValue(p: Params, block: Coefs, i: nat)
    requires i < BandOf(p, block).Len()
    ensures BandOf(p, block).now[i] != 0 ==> (BandOf(p, block).now[i] < 0 <==> block[p.order[p.ss + i]] < 0)
    ensures BandOf(p, block).now[i] == 0 <==> Abs(BandOf(p, block).now[i]) == 0
  {
    PointSign(block[p.order[p.ss + i]], p.al);
  }

  lemma PointSign(c: int, al: nat)
    ensures Point(c, al) != 0 ==> (Point(c, al) < 0 <==> c < 0)
  {
    QuotientAtLeast(Abs(c), Pow2(al), 0);
  }

  lemma ZrlsEmpty(tbl: nat, r: nat, br: Bits)
    ensures Zrls(tbl, r, br) == [] <==> r <= 15
  {
  }

  lemma AfterAfter(a: seq<Token>, b: seq<Token>, c: Coded)
    ensures After(a, After(b, c)) == After(a + b, c)
  {
    Assoc(a, b, c.syms);
  }

  /** A correction bit's place in the block, after the run-length codes in front of it. */
  lemma CorrectionNext(b: Band, tbl: nat, i: nat, r: nat, br: Bits, out: seq<Token>)
    requires i < b.Len() && b.now[i] != 0 && !IsNew(b, i) && NewAhead(b, i)
    requires After(out, CodeBand(b, tbl, i, r, br)) == BlockCode(b, tbl)
    ensures var zrls, next := Zrls(tbl, r, br),
                              CodeBand(b, tbl, i + 1, r % 16, (if r > 15 then [] else br) + [CorrectionBit(b.now[i])]);
            After(out + zrls, next) == BlockCode(b, tbl) && BlockCode(b, tbl).syms == out + (zrls + next.syms)
  {
    hide Zrls, CorrectionBit, NewAhead, BlockCode;
    var zrls, next := Zrls(tbl, r, br),
                      CodeBand(b, tbl, i + 1, r % 16, (if r > 15 then [] else br) + [CorrectionBit(b.now[i])]);
    AfterAfter(out, zrls, next);
  }

  /** A new coefficient's place in the block. */
  lemma NewNext(b: Band, tbl: nat, i: nat, r: nat, br: Bits, out: seq<Token>)
    requires i < b.Len() && IsNew(b, i)
    requires After(out, CodeBand(b, tbl, i, r, br)) == BlockCode(b, tbl)
    ensures var zrls, sym, next := Zrls(tbl, r, br), NewTokens(tbl, r % 16, b.now[i], if r > 15 then [] else br),
                                   CodeBand(b, tbl, i + 1, 0, []);
            && After(out + zrls + sym, next) == BlockCode(b, tbl)
            && BlockCode(b, tbl).syms == out + (zrls + (sym + next.syms))
            && BlockCode(b, tbl).syms == (out + zrls) + (sym + next.syms)
  {
    hide Zrls, CorrectionBit, BlockCode, MagnitudeBits;
    var zrls, sym, next := Zrls(tbl, r, br), NewTokens(tbl, r % 16, b.now[i], if r > 15 then [] else br),
                           CodeBand(b, tbl, i + 1, 0, []);
    assert sym == NewTokens(tbl, r, b.now[i], if r > 15 then [] else br);
    hide NewTokens;
    AfterAfter(out, zrls + sym, next);
    Assoc(out, zrls, sym);
    Assoc(zrls, sym, next.syms);
    Assoc(out, zrls, sym + next.syms);
  }

  /** Something new at i or beyond means that the block has symbols of its own. */
  lemma {:induction false} NewMeansSymbols(b: Band, tbl: nat, i: nat)
    requires i <= b.Len() && NewAhead(b, i)
    ensures BlockCode(b, tbl).syms != []
    decreases i
  {
    if i == 0 {
      SymbolAhead(b, tbl, 0, 0, []);
    } else {
      NewMeansSymbols(b, tbl, i - 1);
    }
  }

  lemma NotCoveredInside(ts: Coder, a: seq<Token>, out: seq<Token>, part: seq<Token>, rest: seq<Token>)
    requires !ts.Covers(a + part)
    ensures !ts.Covers(a + (out + (part + rest)))
  {
    if ts.Covers(a + (out + (part + rest))) {
      CoversParts(ts, a, out + (part + rest));
      CoversParts(ts, out, part + rest);
      CoversParts(ts, part, rest);
      ItemsConcat(ts, a, part);
      assert false;
    }
  }

  lemma KeepBit(s: seq<nat>, from: nat, n: nat, bit: nat)
    requires from + n < |s|
    ensures var s' := s[from + n := bit];
            && BufferedBits(s', from, n + 1) == BufferedBits(s, from, n) + [bit % 2 == 1]
            && forall m: nat :: m <= from + n ==> BufferedBits(s', 0, m) == BufferedBits(s, 0, m)
  {
  }

  lemma AbsOfBand(p: Params, block: Coefs, i: nat)
    requires i < p.se - p.ss + 1
    ensures Abs(BandOf(p, block).now[i]) == ShiftRight(Abs(block[p.order[p.ss + i]]), p.al)
  {
    AbsOfPoint(block[p.order[p.ss + i]], p.al);
  }

  lemma AbsOfPoint(c: int, al: nat)
    ensures Abs(Point(c, al)) == ShiftRight(Abs(c), al)
  {
    hide Pow2;
  }

  function ShiftRight(x: nat, n: nat): (r: nat) {
    QuotientAtLeast(x, Pow2(n), 0);
    x / Pow2(n)
  }

  /** Beyond position `last` nothing is new, and it is itself, or it lies before the band. */
  lemma {:induction false} LastNew(b: Band, i: nat, last: int)
    requires i < b.Len() && last < b.Len() && (last >= 0 ==> IsNew(b, last))
    requires forall j: nat :: last < j < b.Len() ==> !IsNew(b, j)
    ensures i <= last <==> NewAhead(b, i)
    decreases b.Len() - i
  {
    if i + 1 < b.Len() {
      LastNew(b, i + 1, last);
    }
  }

  // ----- the point transform of a first scan

  /** The absolute value after the point transform, and the number whose low-order bits are sent. */
  method PointTransform(p: Params, block: Coefs, k: nat) returns (temp: nat, temp2: int)
    requires !p.scan.refining && p.ss <= k <= p.se
    ensures var b, i := BandOf(p, block), k - p.ss;
            && temp == Abs(b.now[i]) && (temp == 0 <==> b.now[i] == 0) && (temp != 0 ==> IsNew(b, i))
            && (temp != 0 ==> temp2 == if b.now[i] < 0 then b.now[i] - 1 else b.now[i])
  {
    var c := block[p.order[k]];
    FirstAt(p, block, k - p.ss, c);
    hide BandOf, ShiftRight;
    if c == 0 {
      return 0, 0;
    }
    if c < 0 {
      temp := ShiftRight(-c, p.al);
      temp2 := -1 - temp;
    } else {
      temp := ShiftRight(c, p.al);
      temp2 := temp;
    }
  }

  lemma FirstAt(p: Params, block: Coefs, i: nat, c: int)
    requires !p.scan.refining && i < BandOf(p, block).Len() && c == block[p.order[p.ss + i]]
    ensures var v := BandOf(p, block).now[i];
            && Abs(v) == ShiftRight(if c < 0 then -c else c, p.al)
            && (v != 0 ==> IsNew(BandOf(p, block), i) && (v < 0 <==> c < 0)) && (c == 0 ==> v == 0)
  {
    FirstScanIsNew(p, block);
    AbsOfBand(p, block, i);
    BandValue(p, block, i);
    PointOfNothing(p.al);
    hide ShiftRight, Pow2, Half;
  }

  lemma PointOfNothing(al: nat)
    ensures Point(0, al) == 0
  {
    DivModUnique(0, Pow2(al), 0, 0);
  }

  // ----- the pre-pass of a refinement block

  /** The transformed absolute value of one coefficient. */
  method AbsValue(p: Params, block: Coefs, k: nat) returns (temp: nat)
    requires p.ss <= k <= p.se
    ensures temp == Abs(BandOf(p, block).now[k - p.ss])
  {
    hide BandOf, ShiftRight;
    AbsOfBand(p, block, k - p.ss);
    var c := block[p.order[k]];
    if c < 0 {
      c := -c;
    }
    temp := ShiftRight(c, p.al);
  }

  /** Absolute values, and an index that tells what lies at or before the last new coefficient. */
  ghost predicate Prepared(p: Params, block: Coefs, absvalues: seq<nat>, eob: nat) {
    var b := BandOf(p, block);
    && |absvalues| == DCTSIZE2
    && (forall i: nat :: i < b.Len() ==> absvalues[p.ss + i] == Abs(b.now[i]))
    && (forall i: nat :: i < b.Len() ==> (p.ss + i <= eob <==> NewAhead(b, i)))
  }

  /** Pre-pass: the transformed absolute values, and the index of the last newly non-zero coefficient (0 if none). */
  method PrePass(p: Params, block: Coefs) returns (absvalues: seq<nat>, eob: nat)
    requires p.scan.refining
    ensures |absvalues| == DCTSIZE2 && Prepared(p, block, absvalues, eob)
  {
    hide NewAhead, IsNew, BandOf, Abs, IsOrder;
    ghost var b := BandOf(p, block);
    absvalues, eob := FindLastNew(p, block);
    forall i: nat | i < b.Len() ensures p.ss + i <= eob <==> NewAhead(b, i) {
      LastNew(b, i, eob - p.ss);
    }
  }

  method FindLastNew(p: Params, block: Coefs) returns (absvalues: seq<nat>, eob: nat)
    requires p.scan.refining
    ensures |absvalues| == DCTSIZE2
    ensures forall i: nat :: i < BandOf(p, block).Len() ==> absvalues[p.ss + i] == Abs(BandOf(p, block).now[i])
    ensures eob == 0 || (p.ss <= eob <= p.se && IsNew(BandOf(p, block), eob - p.ss))
    ensures forall i: nat :: i < BandOf(p, block).Len() && eob < p.ss + i ==> !IsNew(BandOf(p, block), i)
  {
    hide NewAhead, IsNew, BandOf, Abs, IsOrder;
    ghost var b := BandOf(p, block);
    absvalues := seq(DCTSIZE2, _ => 0);
    eob := 0;
    for k := p.ss to p.se + 1
      invariant |absvalues| == DCTSIZE2
      invariant forall i: nat :: i < k - p.ss ==> absvalues[p.ss + i] == Abs(b.now[i])
      invariant eob == 0 || (p.ss <= eob < k && IsNew(b, eob - p.ss))
      invariant forall i: nat :: i < k - p.ss && eob < p.ss + i ==> !IsNew(b, i)
    {
      var temp := AbsValue(p, block, k);
      NewIffOne(p, block, k - p.ss);
      absvalues := absvalues[k := temp];
      if temp == 1 {
        eob := k;
      }
    }
  }

  lemma JoinBuffered(s: seq<nat>, m: nat, n: nat)
    requires m + n <= |s|
    ensures BufferedBits(s, 0, m) + BufferedBits(s, m, n) == BufferedBits(s, 0, m + n)
  {
  }

  lemma NoRun(tbl: nat, c: Bits)
    ensures EobTokens(tbl, 0, c) == []
  {
  }

  lemma LongRun(e: nat)
    requires NumBits(e) > 15
    ensures e > MAX_EOBRUN
  {
    if e <= MAX_EOBRUN {
      EobParts(e);
    }
  }
}
