/**
 encode_one_block and htest_one_block of jchuff.c: the coder and the statistics
 pass, both proved against the same tokens.
 */
module BlockEncoder {
  import opened BitString
  import opened ByteStream
  import opened HuffmanCode
  import opened Tokens
  import opened SequentialCode
  import opened SequentialScan
  import opened BitWriter

  /** Codes are at most 16 bits long, as in every table that was derived. */
  predicate ShortCodes(ts: Coder) {
    forall isDC: bool, i: nat, s: byte :: i < NUM_HUFF_TBLS ==> ts.At(isDC, i).ehufsi[s] <= 16
  }

  lemma DerivedCodesAreShort(d: Decoder, ts: Coder)
    requires DecoderKnows(d, ts)
    ensures ShortCodes(ts)
  {
    forall isDC: bool, i: nat, s: byte | i < NUM_HUFF_TBLS ensures ts.At(isDC, i).ehufsi[s] <= 16 {
      assert Knows(d.dc[i], ts, true, i) && Knows(d.ac[i], ts, false, i);
      if ts.At(isDC, i).Codes(s) {
        NoCodeIsAllOnes(if isDC then d.dc[i] else d.ac[i], ts.At(isDC, i), s);
      }
    }
  }

  /** The state after sending tokens without markers from state s. */
  function SentTo(ts: Coder, s: Sink, tokens: seq<Token>): Sink
    requires Sendable(ts, tokens)
  {
    ItemsAreData(ts, tokens);
    PutAll(s, Items(ts, tokens))
  }

  lemma ItemsAreData(ts: Coder, tokens: seq<Token>)
    requires Sendable(ts, tokens)
    ensures AllData(Items(ts, tokens)) && WellNumbered(Items(ts, tokens))
  {
  }

  lemma SendNothing(ts: Coder, s: Sink)
    ensures Sendable(ts, []) && SentTo(ts, s, []) == s
  {
  }

  lemma SendOneMore(ts: Coder, s: Sink, tokens: seq<Token>, t: Token)
    requires Sendable(ts, tokens) && Sendable(ts, [t])
    ensures Sendable(ts, tokens + [t]) && !t.Mark? && (t.Symbol? ==> t.tbl < NUM_HUFF_TBLS)
    ensures SentTo(ts, s, tokens + [t]) == Put(SentTo(ts, s, tokens), ItemOf(ts, t).bits)
  {
    assert [t][0] == t;
    TokenBitsConcat(ts, tokens, [t]);
    ItemsConcat(ts, tokens, [t]);
    var items := Items(ts, tokens);
    assert Items(ts, tokens + [t])[..|items|] == items;
  }

  /** The writer has sent exactly these tokens since state s. */
  ghost predicate Wrote(w: Writer, ts: Coder, s: Sink, tokens: seq<Token>): (r: bool)
    reads w`next, w`free, w`putBuffer, w`putBits, w`pending, w`answers, w`tried, w.dest, w.dest.buffer
    ensures r ==> w.Kept()
  {
    w.Valid() && Sendable(ts, tokens) && w.State() == SentTo(ts, s, tokens)
  }

  /** The writer was refused a buffer, having tried no more than what sending these tokens comes to. */
  ghost predicate Cut(w: Writer, ts: Coder, s: Sink, tokens: seq<Token>)
    reads w`answers, w`tried, w.dest`log, w.dest`plan
  {
    w.Refused() && (Sendable(ts, tokens) ==> w.tried <= SentTo(ts, s, tokens).bytes)
  }

  /** How a call ends that was to send these tokens. */
  ghost predicate Stopped(w: Writer, ts: Coder, s: Sink, tokens: seq<Token>, result: Outcome)
    reads w`answers, w`tried, w.dest`log, w.dest`plan
  {
    && (result.Suspended? ==> Cut(w, ts, s, tokens))
    && (result.Error? ==> Open(w.answers) && result.Uncodable())
  }

  lemma PutAllGrows(s: Sink, items: seq<Item>)
    requires WellNumbered(items)
    ensures s.bytes <= PutAll(s, items).bytes
  {
    PutAllAppends(s, items);
  }

  lemma SentToGrows(ts: Coder, s: Sink, a: seq<Token>, b: seq<Token>)
    requires Sendable(ts, a + b)
    ensures Sendable(ts, a) && SentTo(ts, s, a).bytes <= SentTo(ts, s, a + b).bytes
  {
    SendableParts(ts, a, b);
    ItemsAreData(ts, a);
    ItemsAreData(ts, b);
    ItemsConcat(ts, a, b);
    hide PutAll, Items, Sendable;
    PutAllConcat(s, Items(ts, a), Items(ts, b));
    PutAllGrows(PutAll(s, Items(ts, a)), Items(ts, b));
  }

  lemma CutShort(w: Writer, ts: Coder, s: Sink, a: seq<Token>, b: seq<Token>)
    requires Cut(w, ts, s, a)
    ensures Cut(w, ts, s, a + b)
  {
    hide Sendable, SentTo;
    if Sendable(ts, a + b) {
      SentToGrows(ts, s, a, b);
    }
  }

  /** A call that stopped within a part stopped within the whole. */
  lemma StoppedIn(w: Writer, ts: Coder, s: Sink, sent: seq<Token>, a: seq<Token>, b: seq<Token>, result: Outcome)
    requires Stopped(w, ts, s, sent + a, result)
    ensures Stopped(w, ts, s, sent + (a + b), result)
  {
    Assoc(sent, a, b);
    hide Cut;
    if result.Suspended? {
      CutShort(w, ts, s, sent + a, b);
    }
  }

  lemma NotSuspended(w: Writer, ts: Coder, s: Sink, sent: seq<Token>, tokens: seq<Token>, result: Outcome)
    requires Wrote(w, ts, s, sent) && (result.Done? || result.Uncodable())
    ensures Stopped(w, ts, s, tokens, result)
  {
  }

  /** Emit a Huffman symbol. */
  method EmitSymbol(w: Writer, ts: Coder, dc: bool, tbl: nat, sym: byte, ghost s: Sink, ghost sent: seq<Token>)
    returns (r: Outcome)
    requires Wrote(w, ts, s, sent) && tbl < NUM_HUFF_TBLS && ShortCodes(ts)
    modifies w, w.dest, w.dest.buffer
    ensures w.dest.buffer == old(w.dest.buffer) || fresh(w.dest.buffer)
    ensures w.lastDc == old(w.lastDc) && w.Kept()
    ensures Stopped(w, ts, s, sent + [Symbol(dc, tbl, sym)], r)
    ensures r.Error? ==> r.why == MissingCode && !ts.Covers([Symbol(dc, tbl, sym)])
    ensures r.Done? ==> Wrote(w, ts, s, sent + [Symbol(dc, tbl, sym)])
  {
    ghost var t := Symbol(dc, tbl, sym);
    assert [t][0] == t;
    var d := ts.At(dc, tbl);
    hide Sendable, SentTo, Put, BitsOf, Writer.Kept, Writer.Refused, Cut, Open;
    ghost var before := w.State();
    r := w.EmitBits(d.ehufco[sym], d.ehufsi[sym]);
    if r.Done? {
      SymbolIsSendable(ts, dc, tbl, sym);
      SendOneMore(ts, s, sent, t);
    } else if r.Suspended? {
      CutInToken(w, ts, s, sent, t, before);
    }
  }

  lemma CutInToken(w: Writer, ts: Coder, s: Sink, sent: seq<Token>, t: Token, before: Sink)
    requires Sendable(ts, sent) && before == SentTo(ts, s, sent) && w.Refused()
    requires t.Symbol? ==> t.tbl < NUM_HUFF_TBLS
    requires t.Mark? || w.tried <= Put(before, ItemOf(ts, t).bits).bytes
    ensures Cut(w, ts, s, sent + [t])
  {
    hide SentTo, Put, Writer.Refused;
    if Sendable(ts, sent + [t]) {
      SendableParts(ts, sent, [t]);
      SendOneMore(ts, s, sent, t);
    }
  }

  lemma SymbolIsSendable(ts: Coder, dc: bool, tbl: nat, sym: byte)
    requires tbl < NUM_HUFF_TBLS && ts.At(dc, tbl).Codes(sym)
    ensures Sendable(ts, [Symbol(dc, tbl, sym)])
  {
  }

  /** Emit literal bits. */
  method EmitExtra(w: Writer, ts: Coder, code: int, size: nat, ghost s: Sink, ghost sent: seq<Token>)
    returns (r: Outcome)
    requires Wrote(w, ts, s, sent) && 1 <= size <= 16
    modifies w, w.dest, w.dest.buffer
    ensures w.dest.buffer == old(w.dest.buffer) || fresh(w.dest.buffer)
    ensures w.lastDc == old(w.lastDc) && w.Kept()
    ensures !r.Error? && Stopped(w, ts, s, sent + [Extra(BitsOf(code, size))], r)
    ensures r.Done? ==> Wrote(w, ts, s, sent + [Extra(BitsOf(code, size))])
  {
    ghost var t := Extra(BitsOf(code, size));
    hide SentTo, Put, BitsOf, Writer.Kept, Writer.Refused, Cut, Open;
    ghost var before := w.State();
    r := w.EmitBits(code, size);
    if r.Done? {
      assert Sendable(ts, [t]);
      SendOneMore(ts, s, sent, t);
    } else if r.Suspended? {
      CutInToken(w, ts, s, sent, t, before);
    }
  }

  /** Find the number of bits needed for a magnitude. */
  method CountBits(magnitude: nat) returns (nbits: nat)
    ensures nbits == NumBits(magnitude)
  {
    nbits := 0;
    var temp := magnitude;
    while temp != 0
      invariant nbits + NumBits(temp) == NumBits(magnitude)
      decreases temp
    {
      nbits := nbits + 1;
      temp := temp / 2;
    }
  }

  // ----- the coder

  lemma CoversFirst(ts: Coder, sent: seq<Token>, t: Token, more: seq<Token>)
    requires !ts.Covers([t])
    ensures !ts.Covers(sent + [t] + more)
  {
    assert (sent + [t] + more)[|sent|] == t;
    assert [t][0] == t;
  }

  /** Run-length-16 codes for as long as more than 15 zeros are pending. */
  method EncodeZrl(w: Writer, ts: Coder, tbl: nat, run: nat, ghost s: Sink, ghost sent: seq<Token>)
    returns (result: Outcome, r: nat)
    requires Wrote(w, ts, s, sent) && tbl < NUM_HUFF_TBLS && ShortCodes(ts)
    modifies w, w.dest, w.dest.buffer
    ensures w.dest.buffer == old(w.dest.buffer) || fresh(w.dest.buffer)
    ensures w.lastDc == old(w.lastDc) && w.Kept()
    ensures Stopped(w, ts, s, sent + ZrlTokens(tbl, run), result)
    ensures result.Error? ==> !ts.Covers(ZrlTokens(tbl, run))
    ensures result.Done? ==> r == run % 16 && Wrote(w, ts, s, sent + ZrlTokens(tbl, run))
  {
    hide Sendable, SentTo, Wrote, ShortCodes, Stopped, Writer.Kept, Writer.Valid;
    ghost var out: seq<Token> := [];
    r := run;
    assert sent + out == sent;
    while r > 15
      invariant w.dest.buffer == old(w.dest.buffer) || fresh(w.dest.buffer)
      invariant w.lastDc == old(w.lastDc) && w.Kept()
      invariant Wrote(w, ts, s, sent + out)
      invariant out + ZrlTokens(tbl, r) == ZrlTokens(tbl, run) && r % 16 == run % 16
      decreases r
    {
      ghost var t := Symbol(false, tbl, 0xF0);
      assert out + ZrlTokens(tbl, r) == out + [t] + ZrlTokens(tbl, r - 16);
      result := EmitSymbol(w, ts, false, tbl, 0xF0, s, sent + out);
      if !result.Done? {
        if result.Error? {
          CoversFirst(ts, out, t, ZrlTokens(tbl, r - 16));
        }
        Assoc(sent, out, [t]);
        StoppedIn(w, ts, s, sent, out + [t], ZrlTokens(tbl, r - 16), result);
        return;
      }
      Assoc(sent, out, [t]);
      out := out + [t];
      r := r - 16;
    }
    assert out + [] == out;
    result := Done;
    NotSuspended(w, ts, s, sent + out, sent + ZrlTokens(tbl, run), result);
  }

  /** A non-zero coefficient after `run` zeros. */
  method EncodeCoef(w: Writer, ts: Coder, tbl: nat, run: nat, v: int, ghost s: Sink, ghost sent: seq<Token>)
    returns (result: Outcome)
    requires Wrote(w, ts, s, sent) && tbl < NUM_HUFF_TBLS && ShortCodes(ts) && v != 0
    modifies w, w.dest, w.dest.buffer
    ensures w.dest.buffer == old(w.dest.buffer) || fresh(w.dest.buffer)
    ensures w.lastDc == old(w.lastDc) && w.Kept()
    ensures Stopped(w, ts, s, sent + (ZrlTokens(tbl, run) + CoefTokens(tbl, run, v)), result)
    ensures result.Error? ==>
              NumBits(Abs(v)) > MAX_COEF_BITS || !ts.Covers(ZrlTokens(tbl, run) + CoefTokens(tbl, run, v))
    ensures result.Done? ==>
              && NumBits(Abs(v)) <= MAX_COEF_BITS
              && Wrote(w, ts, s, sent + (ZrlTokens(tbl, run) + CoefTokens(tbl, run, v)))
  {
    hide Sendable, SentTo, Wrote, ShortCodes, ZrlTokens, MagnitudeBits, Stopped, Writer.Kept, Writer.Valid;
    ghost var zrl, sym, extra := ZrlTokens(tbl, run), Symbol(false, tbl, AcSymbol(run, v)), Extra(MagnitudeBits(v));
    assert CoefTokens(tbl, run, v) == [sym] + [extra];
    var r;
    result, r := EncodeZrl(w, ts, tbl, run, s, sent);
    if !result.Done? {
      if result.Error? {
        NotCoveredByPart(ts, zrl, [sym] + [extra]);
      }
      StoppedIn(w, ts, s, sent, zrl, [sym] + [extra], result);
      return;
    }
    var temp, temp2 := v, v;
    if temp < 0 {
      temp := -temp;
      temp2 := temp2 - 1;
    }
    var nbits := CountBits(temp);
    if nbits > MAX_COEF_BITS {
      result := Error(BadCoefficient);
      NotSuspended(w, ts, s, sent + zrl, sent + (zrl + ([sym] + [extra])), result);
      return;
    }
    var i := r * 16 + nbits;
    assert i == AcSymbol(run, v);
    result := EmitSymbol(w, ts, false, tbl, i, s, sent + zrl);
    Assoc(zrl, [sym], [extra]);
    Assoc(sent, zrl, [sym]);
    if !result.Done? {
      if result.Error? {
        CoversFirst(ts, zrl, sym, [extra]);
      }
      StoppedIn(w, ts, s, sent, zrl + [sym], [extra], result);
      return;
    }
    assert MagnitudeBits(v) == BitsOf(temp2, nbits) by { MagnitudeOf(v); }
    result := EmitExtra(w, ts, temp2, nbits, s, sent + zrl + [sym]);
    Assoc(sent, zrl + [sym], [extra]);
  }

  lemma MagnitudeOf(v: int)
    ensures MagnitudeBits(v) == BitsOf(if v < 0 then v - 1 else v, NumBits(Abs(v)))
  {
  }

  lemma NotCoveredByPart(ts: Coder, a: seq<Token>, b: seq<Token>)
    requires !ts.Covers(a) || !ts.Covers(b)
    ensures !ts.Covers(a + b)
  {
    if ts.Covers(a + b) {
      CoversParts(ts, a, b);
      assert false;
    }
  }

  /** The AC coefficients of a block. */
  method EncodeAc(w: Writer, ts: Coder, order: seq<nat>, block: Coefs, tbl: nat, ghost s: Sink, ghost sent: seq<Token>)
    returns (result: Outcome)
    requires Wrote(w, ts, s, sent) && tbl < NUM_HUFF_TBLS && ShortCodes(ts) && IsOrder(order)
    modifies w, w.dest, w.dest.buffer
    ensures w.dest.buffer == old(w.dest.buffer) || fresh(w.dest.buffer)
    ensures w.lastDc == old(w.lastDc) && w.Kept()
    ensures Stopped(w, ts, s, sent + AcTokens(Zigzag(order, block), tbl, 1, 0), result)
    ensures var z := Zigzag(order, block);
            && (result.Error? ==> !(AcInRange(z) && ts.Covers(AcTokens(z, tbl, 1, 0))))
            && (result.Done? ==> AcInRange(z) && Wrote(w, ts, s, sent + AcTokens(z, tbl, 1, 0)))
  {
    hide Sendable, SentTo, Wrote, ShortCodes, ZrlTokens, CoefTokens, NumBits, Writer.Kept, Writer.Valid, Stopped;
    ghost var z, out: seq<Token> := Zigzag(order, block), [];
    assert sent + out == sent;
    assert out + AcTokens(z, tbl, 1, 0) == AcTokens(z, tbl, 1, 0);
    var r, k := 0, 1;
    while k < DCTSIZE2
      invariant 1 <= k <= DCTSIZE2
      invariant w.dest.buffer == old(w.dest.buffer) || fresh(w.dest.buffer)
      invariant w.lastDc == old(w.lastDc) && w.Kept()
      invariant Wrote(w, ts, s, sent + out)
      invariant out + AcTokens(z, tbl, k, r) == AcTokens(z, tbl, 1, 0)
      invariant forall i :: 1 <= i < k ==> NumBits(Abs(z[i])) <= MAX_COEF_BITS
    {
      var temp := block[order[k]];
      if temp == 0 {
        r := r + 1;
        ZeroHasNoBits();
      } else {
        ghost var coef, more := ZrlTokens(tbl, r) + CoefTokens(tbl, r, temp), AcTokens(z, tbl, k + 1, 0);
        Assoc(out, coef, more);
        result := EncodeCoef(w, ts, tbl, r, temp, s, sent + out);
        if !result.Done? {
          if result.Error? && NumBits(Abs(temp)) <= MAX_COEF_BITS {
            NotCoveredByPart(ts, out, coef);
            NotCoveredByPart(ts, out + coef, more);
          }
          Assoc(sent, out, coef);
          StoppedIn(w, ts, s, sent, out + coef, more, result);
          return;
        }
        Assoc(sent, out, coef);
        out := out + coef;
        r := 0;
      }
      k := k + 1;
    }
    if r > 0 {
      ghost var eob := Symbol(false, tbl, 0);
      result := EmitSymbol(w, ts, false, tbl, 0, s, sent + out);
      if result.Error? {
        NotCoveredByPart(ts, out, [eob]);
      }
      Assoc(sent, out, [eob]);
    } else {
      assert out + [] == out;
      result := Done;
      NotSuspended(w, ts, s, sent + out, sent + out, result);
    }
  }

  lemma ZeroHasNoBits()
    ensures NumBits(Abs(0)) == 0
  {
  }

  /** The DC difference of a block. */
  method EncodeDc(w: Writer, ts: Coder, diff: int, tbl: nat, ghost s: Sink, ghost sent: seq<Token>)
    returns (result: Outcome)
    requires Wrote(w, ts, s, sent) && tbl < NUM_HUFF_TBLS && ShortCodes(ts)
    modifies w, w.dest, w.dest.buffer
    ensures w.dest.buffer == old(w.dest.buffer) || fresh(w.dest.buffer)
    ensures w.lastDc == old(w.lastDc) && w.Kept()
    ensures Stopped(w, ts, s, sent + DcTokens(diff, tbl), result)
    ensures result.Error? ==> !(DcInRange(diff) && ts.Covers(DcTokens(diff, tbl)))
    ensures result.Done? ==> DcInRange(diff) && Wrote(w, ts, s, sent + DcTokens(diff, tbl))
  {
    hide Sendable, SentTo, Wrote, ShortCodes, MagnitudeBits, Stopped, Writer.Kept, Writer.Valid, Writer.Refused,
      Writer.Noted, Cut;
    var temp, temp2 := diff, diff;
    if temp < 0 {
      temp := -temp;
      temp2 := temp2 - 1;
    }
    var nbits := CountBits(temp);
    if nbits > MAX_COEF_BITS + 1 {
      result := Error(BadCoefficient);
      NotSuspended(w, ts, s, sent, sent + DcTokens(diff, tbl), result);
      return;
    }
    ghost var sym, extra := Symbol(true, tbl, nbits), Extra(MagnitudeBits(diff));
    assert DcTokens(diff, tbl) == if nbits == 0 then [sym] else [sym] + [extra];
    result := EmitSymbol(w, ts, true, tbl, nbits, s, sent);
    if result.Error? {
      NotCoveredByPart(ts, [sym], [extra]);
    }
    if !result.Done? && nbits > 0 {
      StoppedIn(w, ts, s, sent, [sym], [extra], result);
    }
    if result.Done? && nbits > 0 {
      assert MagnitudeBits(diff) == BitsOf(temp2, nbits) by { MagnitudeOf(diff); }
      result := EmitExtra(w, ts, temp2, nbits, s, sent + [sym]);
      Assoc(sent, [sym], [extra]);
    }
  }

  /** encode_one_block: Done, Suspended, or an error exactly when the block cannot be coded. */
  method EncodeOneBlock(w: Writer, ts: Coder, order: seq<nat>, block: Coefs, pred: int, dcTbl: nat, acTbl: nat,
                        ghost s: Sink, ghost sent: seq<Token>)
    returns (result: Outcome)
    requires Wrote(w, ts, s, sent) && dcTbl < NUM_HUFF_TBLS && acTbl < NUM_HUFF_TBLS && ShortCodes(ts) && IsOrder(order)
    modifies w, w.dest, w.dest.buffer
    ensures w.dest.buffer == old(w.dest.buffer) || fresh(w.dest.buffer)
    ensures w.lastDc == old(w.lastDc) && w.Kept()
    ensures Stopped(w, ts, s, sent + BlockTokens(Zigzag(order, block), pred, dcTbl, acTbl), result)
    ensures var z := Zigzag(order, block);
            && (result.Error? ==> !(BlockInRange(z, pred) && ts.Covers(BlockTokens(z, pred, dcTbl, acTbl))))
            && (result.Done? ==>
                  BlockInRange(z, pred) && Wrote(w, ts, s, sent + BlockTokens(z, pred, dcTbl, acTbl)))
  {
    hide Wrote, ShortCodes, DcTokens, AcTokens, AcInRange, DcInRange, Stopped, Writer.Kept, Writer.Valid;
    ghost var z := Zigzag(order, block);
    ghost var dc, ac := DcTokens(z[0] - pred, dcTbl), AcTokens(z, acTbl, 1, 0);
    result := EncodeDc(w, ts, block[0] - pred, dcTbl, s, sent);
    if result.Error? && DcInRange(z[0] - pred) {
      NotCoveredByPart(ts, dc, ac);
    }
    if !result.Done? {
      StoppedIn(w, ts, s, sent, dc, ac, result);
    } else {
      result := EncodeAc(w, ts, order, block, acTbl, s, sent + dc);
      Assoc(sent, dc, ac);
      if result.Error? && AcInRange(z) {
        NotCoveredByPart(ts, dc, ac);
      }
    }
  }
}
