/**
 Sequential Huffman coding of blocks (sections F.1.2 and F.2.2 of ITU-T T.81):
 the tokens a block is sent as, and the decoder that gets the block back.
 */
module SequentialCode {
  import opened BitString
  import opened ByteStream
  import opened HuffmanCode
  import opened Tokens

  /** Coefficients of a block, in natural or in zigzag order. */
  type Coefs = s: seq<int> | |s| == DCTSIZE2 witness seq(DCTSIZE2, _ => 0)

  function Zeros(n: nat): (z: seq<int>)
    ensures |z| == n && forall i :: 0 <= i < n ==> z[i] == 0
  {
    seq(n, _ => 0)
  }

  // ----- the tokens of a block

  predicate AcInRange(z: Coefs) {
    forall k :: 1 <= k < DCTSIZE2 ==> NumBits(Abs(z[k])) <= MAX_COEF_BITS
  }

  predicate DcInRange(diff: int) {
    NumBits(Abs(diff)) <= MAX_COEF_BITS + 1
  }

  predicate BlockInRange(z: Coefs, pred: int) {
    DcInRange(z[0] - pred) && AcInRange(z)
  }

  /** Run-length-16 codes for a run of r zeros. */
  function ZrlTokens(tbl: nat, r: nat): (t: seq<Token>) {
    if r <= 15 then [] else [Symbol(false, tbl, 0xF0)] + ZrlTokens(tbl, r - 16)
  }

  /** The symbol byte RRRRSSSS; coefficients in range never overflow it. */
  function AcSymbol(r: nat, v: int): (s: byte) {
    (r % 16 * 16 + NumBits(Abs(v))) % 256
  }

  function DcSymbol(diff: int): (s: byte) {
    NumBits(Abs(diff)) % 256
  }

  /** What is sent for coefficient v after r zeros. */
  function CoefTokens(tbl: nat, r: nat, v: int): seq<Token> {
    [Symbol(false, tbl, AcSymbol(r, v)), Extra(MagnitudeBits(v))]
  }

  /** Coefficients k and up, r zeros already pending (Figure F.2). */
  function AcTokens(z: Coefs, tbl: nat, k: nat, r: nat): (t: seq<Token>)
    requires 1 <= k <= DCTSIZE2
    decreases DCTSIZE2 - k
  {
    if k == DCTSIZE2 then (if r > 0 then [Symbol(false, tbl, 0)] else [])
    else if z[k] == 0 then AcTokens(z, tbl, k + 1, r + 1)
    else ZrlTokens(tbl, r) + CoefTokens(tbl, r, z[k]) + AcTokens(z, tbl, k + 1, 0)
  }

  function DcTokens(diff: int, tbl: nat): (t: seq<Token>) {
    if diff == 0 then [Symbol(true, tbl, 0)]
    else [Symbol(true, tbl, DcSymbol(diff)), Extra(MagnitudeBits(diff))]
  }

  function BlockTokens(z: Coefs, pred: int, dcTbl: nat, acTbl: nat): seq<Token> {
    DcTokens(z[0] - pred, dcTbl) + AcTokens(z, acTbl, 1, 0)
  }

  lemma {:induction false} NoMarksInZrl(tbl: nat, r: nat)
    ensures NoMarks(ZrlTokens(tbl, r))
  {
    if r > 15 {
      NoMarksInZrl(tbl, r - 16);
    }
  }

  lemma {:induction false} NoMarksInAc(z: Coefs, tbl: nat, k: nat, r: nat)
    requires 1 <= k <= DCTSIZE2
    ensures NoMarks(AcTokens(z, tbl, k, r))
    decreases DCTSIZE2 - k
  {
    if k < DCTSIZE2 {
      if z[k] == 0 {
        NoMarksInAc(z, tbl, k + 1, r + 1);
      } else {
        NoMarksInAc(z, tbl, k + 1, 0);
        NoMarksInZrl(tbl, r);
      }
    }
  }

  lemma NoMarksInBlock(z: Coefs, pred: int, dcTbl: nat, acTbl: nat)
    ensures NoMarks(BlockTokens(z, pred, dcTbl, acTbl))
  {
    NoMarksInAc(z, acTbl, 1, 0);
  }

  /** AC coefficients have at most ten bits, and DC differences eleven. */
  lemma RangesAre(z: Coefs, diff: int)
    ensures AcInRange(z) <==> forall k :: 1 <= k < 64 ==> -1023 <= z[k] <= 1023
    ensures DcInRange(diff) <==> -2047 <= diff <= 2047
  {
    TenBits(diff, 11);
    forall k | 1 <= k < 64 ensures NumBits(Abs(z[k])) <= 10 <==> -1023 <= z[k] <= 1023 {
      TenBits(z[k], 10);
    }
  }

  lemma TenBits(v: int, n: nat)
    requires n == 10 || n == 11
    ensures NumBits(Abs(v)) <= n <==> Abs(v) < if n == 10 then 1024 else 2048
  {
    BitsBelow(Abs(v), n);
    Pow2Add(8, n - 8);
    Pow2Constants();
    assert Pow2(2) == 4 && Pow2(3) == 8;
  }

  lemma {:induction false} BitsBelow(v: nat, n: nat)
    ensures NumBits(v) <= n <==> v < Pow2(n)
  {
    if v > 0 && n > 0 {
      BitsBelow(v / 2, n - 1);
    }
  }

  /**
   Nothing is sent in vain: the code of the last non-zero coefficient ends the block, but for the
   end-of-block code after zeros.
   */
  lemma {:induction false} BlockEnds(z: Coefs, tbl: nat, k: nat, r: nat)
    returns (last: nat, front: seq<Token>, run: nat)
    requires 1 <= k <= 64
    ensures k - 1 <= last < 64 && (last >= k ==> z[last] != 0) && forall i :: last < i < 64 ==> z[i] == 0
    ensures AcTokens(z, tbl, k, r)
         == (if last >= k then front + CoefTokens(tbl, run, z[last]) else [])
            + if last < 63 || (last < k && r > 0) then [Symbol(false, tbl, 0)] else []
    decreases 64 - k
  {
    hide ZrlTokens, CoefTokens;
    if k == 64 {
      last, front, run := 63, [], 0;
    } else {
      var l, f, n := BlockEnds(z, tbl, k + 1, if z[k] == 0 then r + 1 else 0);
      if z[k] == 0 {
        last, front, run := if l == k then k - 1 else l, f, n;
      } else {
        last := l;
        var before := ZrlTokens(tbl, r);
        if l == k {
          front, run := before, r;
          assert AcTokens(z, tbl, k + 1, 0) == if k < 63 then [Symbol(false, tbl, 0)] else [];
        } else {
          front, run := before + CoefTokens(tbl, r, z[k]) + f, n;
          AcSplit(before + CoefTokens(tbl, r, z[k]), f, CoefTokens(tbl, n, z[l]),
                  if l < 63 then [Symbol(false, tbl, 0)] else []);
        }
      }
    }
  }

  lemma AcSplit(a: seq<Token>, b: seq<Token>, c: seq<Token>, d: seq<Token>)
    ensures a + (b + c + d) == a + b + c + d
  {
  }

  // ----- the decoder

  /**
   Figure F.13: what a symbol RS, followed by the bits `rest`, adds to the
   coefficients decoded so far; None when it does not fit into the block.
   */
  function AcStep(rs: byte, rest: Bits, z: seq<int>): (r: Option<(seq<int>, Bits)>)
    ensures r.Some? ==> |r.value.0| <= DCTSIZE2 && |r.value.1| <= |rest|
  {
    var run, size := rs / 16, rs % 16;
    if size == 0 then
      if run < 15 then (if |z| > DCTSIZE2 then None else Some((z + Zeros(DCTSIZE2 - |z|), rest)))
      else if |z| + 16 > DCTSIZE2 then None
      else Some((z + Zeros(16), rest))
    else if |z| + run >= DCTSIZE2 || size > |rest| then None
    else Some((z + Zeros(run) + [Extend(rest[..size])], rest[size..]))
  }

  /** The coefficients |z| and up of the block that starts with z. */
  function DecodeAc(t: LegalTable, input: Bits, z: seq<int>): (r: Option<(Coefs, Bits)>)
    requires |z| <= DCTSIZE2
    decreases |input|
  {
    if |z| == DCTSIZE2 then Some((z, input))
    else
      match DecodeSymbol(t, input)
      case None => None
      case Some((rs, rest)) =>
        match AcStep(rs, rest, z)
        case None => None
        case Some((z', rest')) => DecodeAc(t, rest', z')
  }

  /** Section F.2.2.1: the DC difference. */
  function DecodeDc(t: LegalTable, input: Bits): (r: Option<(int, Bits)>) {
    match DecodeSymbol(t, input)
    case None => None
    case Some((size, rest)) =>
      if size > |rest| then None else Some((Extend(rest[..size]), rest[size..]))
  }

  function DecodeBlock(dc: LegalTable, ac: LegalTable, pred: int, input: Bits): (r: Option<(Coefs, Bits)>) {
    match DecodeDc(dc, input)
    case None => None
    case Some((diff, rest)) => DecodeAc(ac, rest, [pred + diff])
  }

  // ----- decoding undoes encoding

  /** Table `tbl` of the encoder was derived from the decoder's table. */
  ghost predicate Knows(ht: LegalTable, ts: Coder, isDC: bool, tbl: nat) {
    tbl < NUM_HUFF_TBLS && Derives(ht, ts.At(isDC, tbl))
  }

  lemma DecodeToken(ht: LegalTable, ts: Coder, t: Token, more: seq<Token>, tail: Bits)
    requires t.Symbol? && Knows(ht, ts, t.dc, t.tbl) && Sendable(ts, [t] + more)
    ensures Sendable(ts, more)
    ensures DecodeSymbol(ht, TokenBits(ts, [t] + more) + tail) == Some((t.sym, TokenBits(ts, more) + tail))
  {
    FirstTokenBits(ts, t, more);
    assert ([t] + more)[0] == t;
    var d, rest := ts.At(t.dc, t.tbl), TokenBits(ts, more);
    DecodeInvertsCode(ht, d, t.sym, rest + tail);
    Assoc(d.CodeBits(t.sym), rest, tail);
  }

  /** A symbol followed by its literal bits. */
  lemma DecodePair(ht: LegalTable, ts: Coder, t: Token, b: Bits, more: seq<Token>, tail: Bits)
    requires t.Symbol? && Knows(ht, ts, t.dc, t.tbl) && Sendable(ts, [t, Extra(b)] + more)
    ensures Sendable(ts, more)
    ensures DecodeSymbol(ht, TokenBits(ts, [t, Extra(b)] + more) + tail)
         == Some((t.sym, b + (TokenBits(ts, more) + tail)))
  {
    hide TokenBits, DecodeSymbol, Knows;
    assert [t, Extra(b)] + more == [t] + ([Extra(b)] + more);
    DecodeToken(ht, ts, t, [Extra(b)] + more, tail);
    FirstTokenBits(ts, Extra(b), more);
    Assoc(b, TokenBits(ts, more), tail);
  }

  lemma DecodeAcBy(t: LegalTable, input: Bits, z: seq<int>, rs: byte, rest: Bits, z': seq<int>, rest': Bits)
    requires |z| < DCTSIZE2 && DecodeSymbol(t, input) == Some((rs, rest))
    requires AcStep(rs, rest, z) == Some((z', rest'))
    ensures DecodeAc(t, input, z) == DecodeAc(t, rest', z')
  {
  }

  lemma StepOverZeros(z: seq<int>, rest: Bits)
    requires |z| + 16 < DCTSIZE2
    ensures AcStep(0xF0, rest, z) == Some((z + Zeros(16), rest))
  {
  }

  lemma StepToCoef(z: seq<int>, r: nat, v: int, rest: Bits)
    requires r <= 15 && |z| + r < DCTSIZE2 && v != 0 && NumBits(Abs(v)) <= MAX_COEF_BITS
    ensures AcStep(AcSymbol(r, v), MagnitudeBits(v) + rest, z) == Some((z + Zeros(r) + [v], rest))
  {
    var b := MagnitudeBits(v);
    ExtendInverts(v);
    assert (b + rest)[..|b|] == b && (b + rest)[|b|..] == rest;
    SymbolParts(r, v);
  }

  lemma SymbolParts(r: nat, v: int)
    requires r <= 15 && v != 0 && NumBits(Abs(v)) <= MAX_COEF_BITS
    ensures AcSymbol(r, v) / 16 == r && AcSymbol(r, v) % 16 == |MagnitudeBits(v)| > 0
  {
    hide NumBits, MagnitudeBits;
    DivModUnique(AcSymbol(r, v), 16, r, NumBits(Abs(v)));
  }

  /** The zero-run codes take the decoder over all but the last r % 16 zeros. */
  lemma {:induction false} DecodeZrl(ht: LegalTable, ts: Coder, tbl: nat, z: seq<int>, r: nat,
                                     more: seq<Token>, tail: Bits)
    requires Knows(ht, ts, false, tbl) && Sendable(ts, ZrlTokens(tbl, r) + more) && |z| + r < DCTSIZE2
    ensures Sendable(ts, more)
    ensures DecodeAc(ht, TokenBits(ts, ZrlTokens(tbl, r) + more) + tail, z)
         == DecodeAc(ht, TokenBits(ts, more) + tail, z + Zeros(r - r % 16))
    decreases r
  {
    hide DecodeAc, TokenBits, DecodeSymbol, Knows, Sendable;
    if r <= 15 {
      assert ZrlTokens(tbl, r) + more == more;
      assert z + Zeros(r - r % 16) == z;
    } else {
      ZrlStep(ht, ts, tbl, z, r, more, tail);
      DecodeZrl(ht, ts, tbl, z + Zeros(16), r - 16, more, tail);
      ZerosJoin(z, 16, r - 16 - (r - 16) % 16);
    }
  }

  lemma ZrlStep(ht: LegalTable, ts: Coder, tbl: nat, z: seq<int>, r: nat, more: seq<Token>, tail: Bits)
    requires 15 < r && Knows(ht, ts, false, tbl) && Sendable(ts, ZrlTokens(tbl, r) + more) && |z| + r < DCTSIZE2
    ensures Sendable(ts, ZrlTokens(tbl, r - 16) + more)
    ensures DecodeAc(ht, TokenBits(ts, ZrlTokens(tbl, r) + more) + tail, z)
         == DecodeAc(ht, TokenBits(ts, ZrlTokens(tbl, r - 16) + more) + tail, z + Zeros(16))
  {
    hide DecodeAc, TokenBits, DecodeSymbol, Knows, Sendable, AcStep;
    var t, rest := Symbol(false, tbl, 0xF0), ZrlTokens(tbl, r - 16) + more;
    assert ZrlTokens(tbl, r) + more == [t] + rest;
    DecodeToken(ht, ts, t, rest, tail);
    StepOverZeros(z, TokenBits(ts, rest) + tail);
    DecodeAcBy(ht, TokenBits(ts, [t] + rest) + tail, z, t.sym, TokenBits(ts, rest) + tail,
               z + Zeros(16), TokenBits(ts, rest) + tail);
  }

  lemma CoefStep(ht: LegalTable, ts: Coder, tbl: nat, z: seq<int>, r: nat, v: int, more: seq<Token>, tail: Bits)
    requires r <= 15 && |z| + r < DCTSIZE2 && v != 0 && NumBits(Abs(v)) <= MAX_COEF_BITS
    requires Knows(ht, ts, false, tbl) && Sendable(ts, CoefTokens(tbl, r, v) + more)
    ensures Sendable(ts, more)
    ensures DecodeAc(ht, TokenBits(ts, CoefTokens(tbl, r, v) + more) + tail, z)
         == DecodeAc(ht, TokenBits(ts, more) + tail, z + Zeros(r) + [v])
  {
    hide DecodeAc, TokenBits, DecodeSymbol, Knows, Sendable, AcStep, AcSymbol, MagnitudeBits, NumBits;
    var b := MagnitudeBits(v);
    DecodePair(ht, ts, Symbol(false, tbl, AcSymbol(r, v)), b, more, tail);
    var rest := TokenBits(ts, more) + tail;
    StepToCoef(z, r, v, rest);
    DecodeAcBy(ht, TokenBits(ts, CoefTokens(tbl, r, v) + more) + tail, z, AcSymbol(r, v), b + rest,
               z + Zeros(r) + [v], rest);
  }

  /** Coefficient v after any number of zeros: runs, symbol, literal bits, and what follows. */
  lemma DecodeCoef(ht: LegalTable, ts: Coder, tbl: nat, z: seq<int>, r: nat, v: int, more: seq<Token>, tail: Bits)
    requires |z| + r < DCTSIZE2 && v != 0 && NumBits(Abs(v)) <= MAX_COEF_BITS
    requires Knows(ht, ts, false, tbl) && Sendable(ts, ZrlTokens(tbl, r) + CoefTokens(tbl, r, v) + more)
    ensures Sendable(ts, more)
    ensures DecodeAc(ht, TokenBits(ts, ZrlTokens(tbl, r) + CoefTokens(tbl, r, v) + more) + tail, z)
         == DecodeAc(ht, TokenBits(ts, more) + tail, z + Zeros(r) + [v])
  {
    hide DecodeAc, TokenBits, Knows, Sendable, ZrlTokens, CoefTokens, NumBits, AcSymbol, MagnitudeBits;
    Assoc(ZrlTokens(tbl, r), CoefTokens(tbl, r, v), more);
    RunModulo16(tbl, r, v);
    DecodeZrl(ht, ts, tbl, z, r, CoefTokens(tbl, r, v) + more, tail);
    CoefStep(ht, ts, tbl, z + Zeros(r - r % 16), r % 16, v, more, tail);
    ZerosJoin(z, r - r % 16, r % 16);
  }

  lemma RunModulo16(tbl: nat, r: nat, v: int)
    requires NumBits(Abs(v)) <= MAX_COEF_BITS
    ensures CoefTokens(tbl, r, v) == CoefTokens(tbl, r % 16, v)
  {
    hide NumBits, MagnitudeBits;
  }

  lemma ZerosJoin(z: seq<int>, m: nat, n: nat)
    ensures z + Zeros(m) + Zeros(n) == z + Zeros(m + n)
  {
  }

  /** From coefficient k on, with the last r coefficients zero, the decoder restores z. */
  lemma {:induction false} DecodeAcInverts(ht: LegalTable, ts: Coder, tbl: nat, z: Coefs, k: nat, r: nat, tail: Bits)
    requires 1 <= k <= DCTSIZE2 && r < k && AcInRange(z)
    requires forall i :: k - r <= i < k ==> z[i] == 0
    requires Knows(ht, ts, false, tbl) && Sendable(ts, AcTokens(z, tbl, k, r))
    ensures DecodeAc(ht, TokenBits(ts, AcTokens(z, tbl, k, r)) + tail, z[..k - r]) == Some((z, tail))
    decreases DCTSIZE2 - k
  {
    hide DecodeAc, TokenBits, Knows, Sendable, ZrlTokens, NumBits;
    if k == DCTSIZE2 {
      DecodeAtEnd(ht, ts, tbl, z, r, tail);
    } else if z[k] == 0 {
      assert (k + 1) - (r + 1) == k - r;
      DecodeAcInverts(ht, ts, tbl, z, k + 1, r + 1, tail);
    } else {
      DecodeCoef(ht, ts, tbl, z[..k - r], r, z[k], AcTokens(z, tbl, k + 1, 0), tail);
      DecodeAcInverts(ht, ts, tbl, z, k + 1, 0, tail);
      assert z[..k - r] + Zeros(r) + [z[k]] == z[..k + 1];
    }
  }

  lemma DecodeAtEnd(ht: LegalTable, ts: Coder, tbl: nat, z: Coefs, r: nat, tail: Bits)
    requires r < DCTSIZE2 && AcInRange(z) && forall i :: DCTSIZE2 - r <= i < DCTSIZE2 ==> z[i] == 0
    requires Knows(ht, ts, false, tbl) && Sendable(ts, AcTokens(z, tbl, DCTSIZE2, r))
    ensures DecodeAc(ht, TokenBits(ts, AcTokens(z, tbl, DCTSIZE2, r)) + tail, z[..DCTSIZE2 - r]) == Some((z, tail))
  {
    hide AcInRange, Knows, DecodeSymbol;
    assert TokenBits(ts, []) + tail == tail;
    if r == 0 {
      assert z[..DCTSIZE2 - r] == z;
    } else {
      hide TokenBits, Sendable;
      var t := Symbol(false, tbl, 0);
      assert AcTokens(z, tbl, DCTSIZE2, r) == [t] + [];
      DecodeToken(ht, ts, t, [], tail);
      assert z[..DCTSIZE2 - r] + Zeros(r) == z;
      assert DecodeAc(ht, tail, z) == Some((z, tail));
      DecodeAcBy(ht, TokenBits(ts, [t] + []) + tail, z[..DCTSIZE2 - r], 0, tail, z, tail);
    }
  }

  lemma ExtendOfNothing()
    ensures Extend([]) == 0
  {
  }

  lemma DcSymbolSize(diff: int)
    requires DcInRange(diff)
    ensures DcSymbol(diff) == |MagnitudeBits(diff)|
  {
  }

  lemma DecodeDcInverts(ht: LegalTable, ts: Coder, tbl: nat, diff: int, more: seq<Token>, tail: Bits)
    requires DcInRange(diff) && Knows(ht, ts, true, tbl) && Sendable(ts, DcTokens(diff, tbl) + more)
    ensures Sendable(ts, more)
    ensures DecodeDc(ht, TokenBits(ts, DcTokens(diff, tbl) + more) + tail)
         == Some((diff, TokenBits(ts, more) + tail))
  {
    hide TokenBits, DecodeSymbol, Knows, Sendable, MagnitudeBits, NumBits, Extend, Val;
    if diff == 0 {
      assert Extend([]) == 0 by { ExtendOfNothing(); }
      DecodeToken(ht, ts, Symbol(true, tbl, 0), more, tail);
    } else {
      var b := MagnitudeBits(diff);
      ExtendInverts(diff);
      DcSymbolSize(diff);
      DecodePair(ht, ts, Symbol(true, tbl, DcSymbol(diff)), b, more, tail);
      var rest := TokenBits(ts, more) + tail;
      assert (b + rest)[..|b|] == b && (b + rest)[|b|..] == rest;
    }
  }

  /** A block comes back, and the decoder stops exactly where the block's bits end. */
  lemma DecodeBlockInverts(dc: LegalTable, ac: LegalTable, ts: Coder, z: Coefs, pred: int,
                           dcTbl: nat, acTbl: nat, tail: Bits)
    requires BlockInRange(z, pred) && Knows(dc, ts, true, dcTbl) && Knows(ac, ts, false, acTbl)
    requires Sendable(ts, BlockTokens(z, pred, dcTbl, acTbl))
    ensures DecodeBlock(dc, ac, pred, TokenBits(ts, BlockTokens(z, pred, dcTbl, acTbl)) + tail) == Some((z, tail))
  {
    hide DecodeDc, DecodeAc, TokenBits, Knows, Sendable, AcTokens;
    DecodeDcInverts(dc, ts, dcTbl, z[0] - pred, AcTokens(z, acTbl, 1, 0), tail);
    DecodeAcInverts(ac, ts, acTbl, z, 1, 0, tail);
    assert z[..1] == [pred + (z[0] - pred)];
  }
}
