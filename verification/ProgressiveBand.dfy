/**
 One block of a progressive AC scan (sections G.1.2.2, G.1.2.3 and G.2 of ITU-T
 T.81). A first scan and a refinement scan are the same code: a coefficient that was
 zero before the scan is sent as a run, a size and its bits when it becomes non-zero,
 and one that was already non-zero only gets a correction bit. In a first scan
 everything was zero before.
 */
module ProgressiveBand {
  import opened BitString
  import opened ByteStream
  import opened HuffmanCode
  import opened Tokens
  import opened SequentialCode

  /** Division by two, rounding towards zero. */
  function Half(x: int): int {
    if x < 0 then -(-x / 2) else x / 2
  }

  /** The coefficients of a band before and after the scan, to the precision of each. */
  datatype BandData = BandData(was: seq<int>, now: seq<int>) {
    predicate WellFormed() {
      |was| == |now| && forall k :: 0 <= k < |was| && was[k] != 0 ==> Half(now[k]) == was[k]
    }

    function Len(): nat {
      |now|
    }
  }

  type Band = b: BandData | b.WellFormed() witness BandData([], [])

  predicate IsNew(b: Band, k: nat)
    requires k < b.Len()
  {
    b.was[k] == 0 && b.now[k] != 0
  }

  /** A newly non-zero coefficient at k or beyond. */
  predicate NewAhead(b: Band, k: nat)
    decreases b.Len() - k
  {
    k < b.Len() && (IsNew(b, k) || NewAhead(b, k + 1))
  }

  /** The correction bit: the next bit of the absolute value. */
  function CorrectionBit(v: int): bool {
    Abs(v) % 2 == 1
  }

  // ----- the tokens of a block

  /** Run-length-16 codes; the correction bits of the coefficients passed follow the first. */
  function Zrls(tbl: nat, r: nat, br: Bits): (t: seq<Token>) {
    if r <= 15 then [] else [Symbol(false, tbl, 0xF0), Extra(br)] + Zrls(tbl, r - 16, [])
  }

  /** A newly non-zero coefficient after r zeros, and the correction bits of those passed. */
  function NewTokens(tbl: nat, r: nat, v: int, br: Bits): seq<Token> {
    [Symbol(false, tbl, AcSymbol(r, v)), Extra(MagnitudeBits(v)), Extra(br)]
  }

  /** What a block sends at once, the correction bits it leaves for its end-of-band code, and whether it needs one. */
  datatype Coded = Coded(syms: seq<Token>, rest: Bits, eob: bool)

  function After(t: seq<Token>, c: Coded): Coded {
    c.(syms := t + c.syms)
  }

  /** Coefficients k and up, with r zeros and the correction bits br pending (Figures G.3 and G.7). */
  function CodeBand(b: Band, tbl: nat, k: nat, r: nat, br: Bits): Coded
    requires k <= b.Len()
    decreases b.Len() - k
  {
    if k == b.Len() then Coded([], br, r > 0 || br != [])
    else if b.now[k] == 0 then CodeBand(b, tbl, k + 1, r + 1, br)
    else if !NewAhead(b, k) then CodeBand(b, tbl, k + 1, r, br + [CorrectionBit(b.now[k])])
    else
      var br' := if r > 15 then [] else br;
      if b.was[k] != 0 then
        After(Zrls(tbl, r, br), CodeBand(b, tbl, k + 1, r % 16, br' + [CorrectionBit(b.now[k])]))
      else
        After(Zrls(tbl, r, br) + NewTokens(tbl, r, b.now[k], br'), CodeBand(b, tbl, k + 1, 0, []))
  }

  function BlockCode(b: Band, tbl: nat): Coded {
    CodeBand(b, tbl, 0, 0, [])
  }

  /**
   Nothing is sent in vain: the symbols of a band end with its last new coefficient, and there are none
   without one.
   */
  lemma {:induction false} BandEnds(b: Band, tbl: nat, k: nat, r: nat, br: Bits)
    returns (last: nat, front: seq<Token>, run: nat, bits: Bits)
    requires k <= b.Len()
    ensures k <= last <= b.Len() && (last < b.Len() ==> IsNew(b, last))
    ensures forall i :: (if last < b.Len() then last + 1 else k) <= i < b.Len() ==> !IsNew(b, i)
    ensures CodeBand(b, tbl, k, r, br).syms
         == if last < b.Len() then front + NewTokens(tbl, run, b.now[last], bits) else []
    decreases b.Len() - k
  {
    hide Zrls, NewTokens, CorrectionBit, NewAhead;
    AheadStep(b, k);
    last, front, run, bits := b.Len(), [], 0, [];
    if k < b.Len() {
      if b.now[k] == 0 {
        last, front, run, bits := BandEnds(b, tbl, k + 1, r + 1, br);
      } else if !NewAhead(b, k) {
        last, front, run, bits := BandEnds(b, tbl, k + 1, r, br + [CorrectionBit(b.now[k])]);
        NotAhead(b, k, last);
      } else {
        last, front, run, bits := CoefEnds(b, tbl, k, r, br);
      }
    }
  }

  lemma CoefEnds(b: Band, tbl: nat, k: nat, r: nat, br: Bits)
    returns (last: nat, front: seq<Token>, run: nat, bits: Bits)
    requires k < b.Len() && b.now[k] != 0 && NewAhead(b, k)
    ensures k <= last < b.Len() && IsNew(b, last) && forall i :: last < i < b.Len() ==> !IsNew(b, i)
    ensures CodeBand(b, tbl, k, r, br).syms == front + NewTokens(tbl, run, b.now[last], bits)
    decreases b.Len() - k, 0
  {
    hide Zrls, NewTokens, CorrectionBit, NewAhead;
    AheadStep(b, k);
    var zrls, br' := Zrls(tbl, r, br), if r > 15 then [] else br;
    if b.was[k] != 0 {
      last, front, run, bits := BandEnds(b, tbl, k + 1, r % 16, br' + [CorrectionBit(b.now[k])]);
      var i := AheadOf(b, k + 1);
      Assoc3(zrls, front, NewTokens(tbl, run, b.now[last], bits));
      front := zrls + front;
    } else {
      last, front, run, bits := BandEnds(b, tbl, k + 1, 0, []);
      var now := NewTokens(tbl, r, b.now[k], br');
      if last == b.Len() {
        last, front, run, bits := k, zrls, r, br';
        assert zrls + now + [] == zrls + now;
      } else {
        Assoc3(zrls + now, front, NewTokens(tbl, run, b.now[last], bits));
        front := zrls + now + front;
      }
    }
  }

  lemma Assoc3(a: seq<Token>, b: seq<Token>, c: seq<Token>)
    ensures a + (b + c) == a + b + c
  {
  }

  lemma AheadStep(b: Band, k: nat)
    requires k <= b.Len()
    ensures NewAhead(b, k) <==> k < b.Len() && (IsNew(b, k) || NewAhead(b, k + 1))
  {
  }

  lemma {:induction false} NotAhead(b: Band, k: nat, i: nat)
    requires k <= i <= b.Len() && !NewAhead(b, k)
    ensures i < b.Len() ==> !IsNew(b, i)
    decreases i - k
  {
    if k < i {
      NotAhead(b, k + 1, i);
    }
  }

  lemma {:induction false} AheadOf(b: Band, k: nat) returns (i: nat)
    requires k <= b.Len() && NewAhead(b, k)
    ensures k <= i < b.Len() && IsNew(b, i)
    decreases b.Len() - k
  {
    i := k;
    if !IsNew(b, k) {
      i := AheadOf(b, k + 1);
    }
  }

  // ----- the decoder

  /** A coefficient with its next bit appended. */
  function Corrected(o: int, bit: bool): int {
    2 * o + (if !bit then 0 else if o < 0 then -1 else 1)
  }

  /** Pass the already non-zero coefficients, appending their bits, and `run` zeros; stop at the next zero. */
  function Skip(was: seq<int>, out: seq<int>, run: nat, input: Bits): (r: Option<(seq<int>, Bits)>)
    requires |out| <= |was|
    ensures r.Some? ==> |r.value.0| < |was| && |r.value.1| <= |input|
    decreases |was| - |out|
  {
    var k := |out|;
    if k == |was| then None
    else if was[k] != 0 then
      if input == [] then None else Skip(was, out + [Corrected(was[k], input[0])], run, input[1..])
    else if run == 0 then Some((out, input))
    else Skip(was, out + [0], run - 1, input)
  }

  /** Append a bit to every already non-zero coefficient up to the end of the band. */
  function Finish(was: seq<int>, out: seq<int>, input: Bits): (r: Option<(seq<int>, Bits)>)
    requires |out| <= |was|
    ensures r.Some? ==> |r.value.0| == |was| && |r.value.1| <= |input|
    decreases |was| - |out|
  {
    var k := |out|;
    if k == |was| then Some((out, input))
    else if was[k] == 0 then Finish(was, out + [0], input)
    else if input == [] then None
    else Finish(was, out + [Corrected(was[k], input[0])], input[1..])
  }

  /** The size of a new coefficient: always 1 in a refinement scan. */
  predicate SizeOk(refining: bool, size: nat) {
    refining ==> size <= 1
  }

  /** The band from position |out| on; also the number of further blocks that the end-of-band code ends. */
  function DecodeBand(t: LegalTable, refining: bool, was: seq<int>, out: seq<int>, input: Bits)
    : (r: Option<(seq<int>, nat, Bits)>)
    requires |out| <= |was|
    ensures r.Some? ==> |r.value.0| == |was|
    decreases |input|, 0
  {
    if |out| == |was| then Some((out, 0, input))
    else
      match DecodeSymbol(t, input)
      case None => None
      case Some((rs, rest)) => DecodeBandCoef(t, refining, was, out, rs / 16, rs % 16, rest)
  }

  function DecodeBandCoef(t: LegalTable, refining: bool, was: seq<int>, out: seq<int>, run: nat, size: nat, rest: Bits)
    : (r: Option<(seq<int>, nat, Bits)>)
    requires |out| <= |was|
    ensures r.Some? ==> |r.value.0| == |was|
    decreases |rest|, 1
  {
    if size == 0 && run < 15 then
      if run > |rest| then None
      else
        match Finish(was, out, rest[run..])
        case None => None
        case Some((v, rest')) => Some((v, Pow2(run) + Val(rest[..run]) - 1, rest'))
    else if size > |rest| || !SizeOk(refining, size) then None
    else
      match Skip(was, out, run, rest[size..])
      case None => None
      case Some((out', rest')) => DecodeBand(t, refining, was, out' + [Extend(rest[..size])], rest')
  }

  /** One block, `eobrun` blocks being ended already. */
  function DecodeBandBlock(t: LegalTable, refining: bool, was: seq<int>, eobrun: nat, input: Bits)
    : (r: Option<(seq<int>, nat, Bits)>)
    ensures r.Some? ==> |r.value.0| == |was|
  {
    if eobrun == 0 then DecodeBand(t, refining, was, [], input)
    else
      match Finish(was, [], input)
      case None => None
      case Some((v, rest)) => Some((v, eobrun - 1, rest))
  }

  // ----- coefficients passed without a new one among them

  predicate NoNew(b: Band, p: nat, k: nat)
    requires p <= k <= b.Len()
  {
    forall j :: p <= j < k ==> !IsNew(b, j)
  }

  function ZerosIn(b: Band, p: nat, k: nat): (n: nat)
    requires p <= k <= b.Len()
    decreases k - p
  {
    if p == k then 0 else (if b.now[p] == 0 then 1 else 0) + ZerosIn(b, p + 1, k)
  }

  function BitsIn(b: Band, p: nat, k: nat): (c: Bits)
    requires p <= k <= b.Len()
    decreases k - p
  {
    if p == k then []
    else (if b.now[p] == 0 then [] else [CorrectionBit(b.now[p])]) + BitsIn(b, p + 1, k)
  }

  lemma {:induction false} OneMoreIn(b: Band, p: nat, k: nat)
    requires p <= k < b.Len()
    ensures ZerosIn(b, p, k + 1) == ZerosIn(b, p, k) + if b.now[k] == 0 then 1 else 0
    ensures BitsIn(b, p, k + 1) == BitsIn(b, p, k) + if b.now[k] == 0 then [] else [CorrectionBit(b.now[k])]
    decreases k - p
  {
    if p < k {
      OneMoreIn(b, p + 1, k);
    }
  }

  /** A stretch of zeros has no correction bits. */
  lemma {:induction false} OnlyZerosIn(b: Band, p: nat, q: nat, k: nat)
    requires p <= q <= k <= b.Len() && forall j :: q <= j < k ==> b.now[j] == 0
    ensures ZerosIn(b, p, k) == ZerosIn(b, p, q) + (k - q) && BitsIn(b, p, k) == BitsIn(b, p, q)
    decreases k - q
  {
    if q < k {
      OnlyZerosIn(b, p, q, k - 1);
      OneMoreIn(b, p, k - 1);
    }
  }

  lemma CorrectedIsNow(o: int, v: int)
    requires o != 0 && Half(v) == o
    ensures Corrected(o, CorrectionBit(v)) == v
  {
  }

  /** What the decoder makes of a coefficient that is not new. */
  lemma PassOne(b: Band, p: nat)
    requires p < b.Len() && !IsNew(b, p)
    ensures b.was[p] == 0 <==> b.now[p] == 0
    ensures b.was[p] != 0 ==> Corrected(b.was[p], CorrectionBit(b.now[p])) == b.now[p]
    ensures b.now[..p] + [b.now[p]] == b.now[..p + 1]
  {
    if b.was[p] != 0 {
      CorrectedIsNow(b.was[p], b.now[p]);
    }
  }

  /** The decoder passes a stretch without new coefficients and stops at the zero after it. */
  lemma {:induction false} SkipPasses(b: Band, p: nat, j: nat, tail: Bits)
    requires p <= j < b.Len() && NoNew(b, p, j) && b.was[j] == 0
    ensures Skip(b.was, b.now[..p], ZerosIn(b, p, j), BitsIn(b, p, j) + tail) == Some((b.now[..j], tail))
    decreases j - p
  {
    if p == j {
      assert BitsIn(b, p, j) + tail == tail;
    } else {
      PassOne(b, p);
      SkipPasses(b, p + 1, j, tail);
      if b.now[p] == 0 {
        assert BitsIn(b, p, j) + tail == BitsIn(b, p + 1, j) + tail;
      } else {
        var input := BitsIn(b, p, j) + tail;
        assert input[0] == CorrectionBit(b.now[p]) && input[1..] == BitsIn(b, p + 1, j) + tail;
      }
    }
  }

  /** The decoder finishes a band without new coefficients. */
  lemma {:induction false} FinishPasses(b: Band, p: nat, tail: Bits)
    requires p <= b.Len() && NoNew(b, p, b.Len())
    ensures Finish(b.was, b.now[..p], BitsIn(b, p, b.Len()) + tail) == Some((b.now, tail))
    decreases b.Len() - p
  {
    if p == b.Len() {
      assert BitsIn(b, p, p) + tail == tail && b.now[..p] == b.now;
    } else {
      PassOne(b, p);
      FinishPasses(b, p + 1, tail);
      var input := BitsIn(b, p, b.Len()) + tail;
      if b.now[p] == 0 {
        assert input == BitsIn(b, p + 1, b.Len()) + tail;
      } else {
        assert input[0] == CorrectionBit(b.now[p]) && input[1..] == BitsIn(b, p + 1, b.Len()) + tail;
      }
    }
  }

  // ----- decoding undoes coding

  /** New coefficients fit: one bit in a refinement scan. */
  predicate NewInRange(b: Band, refining: bool) {
    forall k :: 0 <= k < b.Len() && IsNew(b, k) ==>
      NumBits(Abs(b.now[k])) <= if refining then 1 else MAX_COEF_BITS
  }

  lemma DecodeBandBy(t: LegalTable, refining: bool, was: seq<int>, out: seq<int>, input: Bits, rs: byte, rest: Bits)
    requires |out| < |was| && DecodeSymbol(t, input) == Some((rs, rest))
    ensures DecodeBand(t, refining, was, out, input) == DecodeBandCoef(t, refining, was, out, rs / 16, rs % 16, rest)
  {
  }

  lemma DecodeBandCoefBy(t: LegalTable, refining: bool, was: seq<int>, out: seq<int>, run: nat, mag: Bits, more: Bits,
                     out': seq<int>, rest: Bits)
    requires |out| <= |was| && (|mag| > 0 || run == 15) && SizeOk(refining, |mag|)
    requires Skip(was, out, run, more) == Some((out', rest))
    ensures DecodeBandCoef(t, refining, was, out, run, |mag|, mag + more)
         == DecodeBand(t, refining, was, out' + [Extend(mag)], rest)
  {
    assert (mag + more)[..|mag|] == mag && (mag + more)[|mag|..] == more;
  }

  /** A run-length-16 code takes the decoder past its sixteenth zero. */
  lemma ZrlStep(t: LegalTable, ts: Coder, b: Band, tbl: nat, refining: bool, p: nat, j: nat, br: Bits,
                more: seq<Token>, tail: Bits)
    requires Knows(t, ts, false, tbl) && Sendable(ts, [Symbol(false, tbl, 0xF0), Extra(br)] + more)
    requires p <= j < b.Len() && NoNew(b, p, j) && b.now[j] == 0 && ZerosIn(b, p, j) == 15 && br == BitsIn(b, p, j)
    ensures Sendable(ts, more)
    ensures DecodeBand(t, refining, b.was, b.now[..p],
              TokenBits(ts, [Symbol(false, tbl, 0xF0), Extra(br)] + more) + tail)
         == DecodeBand(t, refining, b.was, b.now[..j + 1], TokenBits(ts, more) + tail)
  {
    hide TokenBits, DecodeSymbol, Knows, Sendable, DecodeBand, DecodeBandCoef, Skip, Val;
    var zrl := Symbol(false, tbl, 0xF0);
    SendableParts(ts, [zrl, Extra(br)], more);
    var rest := TokenBits(ts, more) + tail;
    DecodePair(t, ts, zrl, br, more, tail);
    DecodeBandBy(t, refining, b.was, b.now[..p], TokenBits(ts, [zrl, Extra(br)] + more) + tail, 0xF0, br + rest);
    assert b.was[j] == 0;
    SkipPasses(b, p, j, rest);
    assert [] + (br + rest) == br + rest;
    DecodeBandCoefBy(t, refining, b.was, b.now[..p], 15, [], br + rest, b.now[..j], rest);
    ExtendOfNothing();
    assert b.now[..j] + [0] == b.now[..j + 1];
  }

  /** With more than 15 zeros before k, and no more than 15 before the last stretch of zeros. */
  lemma SixteenthZero(b: Band, p: nat, q: nat, k: nat) returns (j: nat)
    requires p <= q <= k < b.Len() && NoNew(b, p, k) && (forall j :: q <= j < k ==> b.now[j] == 0)
    requires ZerosIn(b, p, q) <= 15 < ZerosIn(b, p, k)
    ensures q <= j < k && b.now[j] == 0 && NoNew(b, p, j) && NoNew(b, j + 1, k)
    ensures ZerosIn(b, p, j) == 15 && BitsIn(b, p, j) == BitsIn(b, p, k)
    ensures ZerosIn(b, j + 1, k) == ZerosIn(b, p, k) - 16 && BitsIn(b, j + 1, k) == []
    ensures ZerosIn(b, j + 1, j + 1) == 0
  {
    OnlyZerosIn(b, p, q, k);
    j := q + (15 - ZerosIn(b, p, q));
    OnlyZerosIn(b, p, q, j);
    OnlyZerosIn(b, j + 1, j + 1, k);
  }

  /** All the run-length-16 codes before the non-zero coefficient k; p' is where the decoder stands then. */
  lemma {:induction false} ZrlsDecode(t: LegalTable, ts: Coder, b: Band, tbl: nat, refining: bool, p: nat, q: nat,
                                      k: nat,
                                      r: nat, br: Bits, more: seq<Token>, tail: Bits)
    returns (p': nat)
    requires p <= q <= k < b.Len() && NoNew(b, p, k) && (forall j :: q <= j < k ==> b.now[j] == 0)
    requires ZerosIn(b, p, q) <= 15 && r == ZerosIn(b, p, k) && br == BitsIn(b, p, k)
    requires Knows(t, ts, false, tbl) && Sendable(ts, Zrls(tbl, r, br) + more)
    ensures p <= p' <= k && NoNew(b, p', k)
    ensures ZerosIn(b, p', k) == r % 16 && BitsIn(b, p', k) == if r > 15 then [] else br
    ensures Sendable(ts, more)
    ensures DecodeBand(t, refining, b.was, b.now[..p], TokenBits(ts, Zrls(tbl, r, br) + more) + tail)
         == DecodeBand(t, refining, b.was, b.now[..p'], TokenBits(ts, more) + tail)
    decreases r
  {
    hide TokenBits, Knows, Sendable, DecodeBand, ZerosIn, BitsIn, NoNew;
    if r <= 15 {
      assert Zrls(tbl, r, br) + more == more;
      p' := p;
    } else {
      var j := SixteenthZero(b, p, q, k);
      var rest := Zrls(tbl, r - 16, []) + more;
      assert Zrls(tbl, r, br) + more == [Symbol(false, tbl, 0xF0), Extra(br)] + rest;
      ZrlStep(t, ts, b, tbl, refining, p, j, br, rest, tail);
      p' := ZrlsDecode(t, ts, b, tbl, refining, j + 1, j + 1, k, r - 16, [], more, tail);
    }
  }

  lemma NewSymbol(r: nat, v: int)
    requires v != 0 && NumBits(Abs(v)) <= MAX_COEF_BITS
    ensures AcSymbol(r, v) / 16 == r % 16 && AcSymbol(r, v) % 16 == |MagnitudeBits(v)| > 0
  {
    hide NumBits, MagnitudeBits;
    SymbolParts(r % 16, v);
  }

  /** The symbol, bits and correction bits of a new coefficient take the decoder past it. */
  lemma NewStep(t: LegalTable, ts: Coder, b: Band, tbl: nat, refining: bool, p: nat, k: nat, r: nat,
                br: Bits, more: seq<Token>, tail: Bits)
    requires p <= k < b.Len() && NoNew(b, p, k) && IsNew(b, k) && NewInRange(b, refining)
    requires ZerosIn(b, p, k) == r % 16 && br == BitsIn(b, p, k)
    requires Knows(t, ts, false, tbl) && Sendable(ts, NewTokens(tbl, r, b.now[k], br) + more)
    ensures Sendable(ts, more)
    ensures DecodeBand(t, refining, b.was, b.now[..p], TokenBits(ts, NewTokens(tbl, r, b.now[k], br) + more) + tail)
         == DecodeBand(t, refining, b.was, b.now[..k + 1], TokenBits(ts, more) + tail)
  {
    hide TokenBits, DecodeSymbol, Knows, Sendable, DecodeBand, DecodeBandCoef, Skip, MagnitudeBits, AcSymbol,
      NumBits, Extend;
    var v := b.now[k];
    SendableParts(ts, NewTokens(tbl, r, v, br), more);
    var rest := TokenBits(ts, more) + tail;
    var sym, mag := Symbol(false, tbl, AcSymbol(r, v)), MagnitudeBits(v);
    var all := NewTokens(tbl, r, v, br) + more;
    assert all == [sym, Extra(mag)] + ([Extra(br)] + more);
    DecodePair(t, ts, sym, mag, [Extra(br)] + more, tail);
    FirstTokenBits(ts, Extra(br), more);
    Assoc(br, TokenBits(ts, more), tail);
    DecodeBandBy(t, refining, b.was, b.now[..p], TokenBits(ts, all) + tail, sym.sym, mag + (br + rest));
    NewSymbol(r, v);
    ExtendInverts(v);
    SkipPasses(b, p, k, rest);
    DecodeBandCoefBy(t, refining, b.was, b.now[..p], r % 16, mag, br + rest, b.now[..k], rest);
    assert b.now[..k] + [v] == b.now[..k + 1];
  }

  /**
   From coefficient k on, with r zeros and the bits br pending since p: the decoder gets
   as far as p', from where on nothing is new and the rest is left to the end-of-band code.
   */
  lemma {:induction false} BandDecodes(t: LegalTable, ts: Coder, b: Band, tbl: nat, refining: bool, p: nat, q: nat,
                                       k: nat,
                                       r: nat, br: Bits, tail: Bits)
    returns (p': nat)
    requires p <= q <= k <= b.Len() && NoNew(b, p, k) && (forall j :: q <= j < k ==> b.now[j] == 0)
    requires r == ZerosIn(b, p, k) && br == BitsIn(b, p, k) && (NewAhead(b, k) ==> ZerosIn(b, p, q) <= 15)
    requires NewInRange(b, refining) && Knows(t, ts, false, tbl) && Sendable(ts, CodeBand(b, tbl, k, r, br).syms)
    ensures p <= p' <= b.Len() && NoNew(b, p', b.Len())
    ensures CodeBand(b, tbl, k, r, br).rest == BitsIn(b, p', b.Len())
    ensures CodeBand(b, tbl, k, r, br).eob <==> p' < b.Len()
    ensures DecodeBand(t, refining, b.was, b.now[..p], TokenBits(ts, CodeBand(b, tbl, k, r, br).syms) + tail)
         == DecodeBand(t, refining, b.was, b.now[..p'], tail)
    decreases b.Len() - k
  {
    hide TokenBits, Knows, Sendable, DecodeBand, Zrls, NewTokens, NewInRange, CorrectionBit, Half;
    if k == b.Len() {
      p' := p;
      NothingSent(ts, tail);
      SomethingPending(b, p);
    } else if b.now[k] == 0 {
      OneMoreIn(b, p, k);
      p' := BandDecodes(t, ts, b, tbl, refining, p, q, k + 1, r + 1, br, tail);
    } else if !NewAhead(b, k) {
      OneMoreIn(b, p, k);
      p' := BandDecodes(t, ts, b, tbl, refining, p, k + 1, k + 1, r, br + [CorrectionBit(b.now[k])], tail);
    } else {
      p' := CoefDecodes(t, ts, b, tbl, refining, p, q, k, r, br, tail);
    }
  }

  lemma CoefDecodes(t: LegalTable, ts: Coder, b: Band, tbl: nat, refining: bool, p: nat, q: nat, k: nat,
                    r: nat, br: Bits, tail: Bits)
    returns (p': nat)
    requires p <= q <= k < b.Len() && NoNew(b, p, k) && (forall j :: q <= j < k ==> b.now[j] == 0)
    requires r == ZerosIn(b, p, k) && br == BitsIn(b, p, k) && ZerosIn(b, p, q) <= 15
    requires b.now[k] != 0 && NewAhead(b, k)
    requires NewInRange(b, refining) && Knows(t, ts, false, tbl) && Sendable(ts, CodeBand(b, tbl, k, r, br).syms)
    ensures p <= p' <= b.Len() && NoNew(b, p', b.Len())
    ensures CodeBand(b, tbl, k, r, br).rest == BitsIn(b, p', b.Len())
    ensures CodeBand(b, tbl, k, r, br).eob <==> p' < b.Len()
    ensures DecodeBand(t, refining, b.was, b.now[..p], TokenBits(ts, CodeBand(b, tbl, k, r, br).syms) + tail)
         == DecodeBand(t, refining, b.was, b.now[..p'], tail)
    decreases b.Len() - k, 0
  {
    hide TokenBits, Knows, Sendable, DecodeBand, Zrls, NewTokens, NewInRange, NewAhead, CorrectionBit, Half,
      CodeBand, BitsIn, ZerosIn;
    CoefCode(b, tbl, k, r, br);
    var zrls, br' := Zrls(tbl, r, br), if r > 15 then [] else br;
    if b.was[k] != 0 {
      var bit := CorrectionBit(b.now[k]);
      var p1 := ZrlsDecode(t, ts, b, tbl, refining, p, q, k, r, br,
          CodeBand(b, tbl, k + 1, r % 16, br' + [bit]).syms, tail);
      OneMoreIn(b, p1, k);
      p' := BandDecodes(t, ts, b, tbl, refining, p1, k + 1, k + 1, r % 16, br' + [bit], tail);
    } else {
      var new', rest := NewTokens(tbl, r, b.now[k], br'), CodeBand(b, tbl, k + 1, 0, []).syms;
      assert zrls + new' + rest == zrls + (new' + rest);
      var p1 := ZrlsDecode(t, ts, b, tbl, refining, p, q, k, r, br, new' + rest, tail);
      NewStep(t, ts, b, tbl, refining, p1, k, r, br', rest, tail);
      NothingIn(b, k + 1);
      p' := BandDecodes(t, ts, b, tbl, refining, k + 1, k + 1, k + 1, 0, [], tail);
    }
  }

  lemma NothingIn(b: Band, k: nat)
    requires k <= b.Len()
    ensures ZerosIn(b, k, k) == 0 && BitsIn(b, k, k) == [] && NoNew(b, k, k)
  {
  }

  lemma CoefCode(b: Band, tbl: nat, k: nat, r: nat, br: Bits)
    requires k < b.Len() && b.now[k] != 0 && NewAhead(b, k)
    ensures var zrls, br' := Zrls(tbl, r, br), if r > 15 then [] else br;
            CodeBand(b, tbl, k, r, br)
              == if b.was[k] != 0 then
                   After(zrls, CodeBand(b, tbl, k + 1, r % 16, br' + [CorrectionBit(b.now[k])]))
                 else After(zrls + NewTokens(tbl, r, b.now[k], br'), CodeBand(b, tbl, k + 1, 0, []))
  {
    hide Zrls, NewTokens, CorrectionBit;
  }

  lemma NothingSent(ts: Coder, tail: Bits)
    ensures Sendable(ts, []) && TokenBits(ts, []) + tail == tail
  {
  }

  lemma SomethingPending(b: Band, p: nat)
    requires p <= b.Len()
    ensures ZerosIn(b, p, b.Len()) > 0 || BitsIn(b, p, b.Len()) != [] <==> p < b.Len()
  {
  }
}
