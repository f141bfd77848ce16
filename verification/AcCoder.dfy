/**
 The AC coding status of jcphuff.c, a pending end-of-band run and its correction
 bits, and the routines that code one block against it.
 */
module AcCoder {
  import opened BitString
  import opened ByteStream
  import opened Tokens
  import opened SequentialCode
  import opened SequentialScan
  import opened BitWriter
  import opened BlockEncoder
  import opened ProgressiveBand
  import opened ProgressiveRun
  import opened ProgressiveBlock
  import opened ProgressiveEmitter

  /** Zeros since the last symbol (r), and where the correction bits since then are kept (BR_buffer, BR). */
  datatype Run = Run(zeros: nat, start: nat, count: nat)

  /**
   While a block is coded: `out` are its own tokens so far. What was pending before it,
   a run of e0 blocks with correction bits c0, goes out in front of the first of them.
   */
  datatype Trace = Trace(sent0: seq<Token>, e0: nat, c0: Bits, released: bool, out: seq<Token>) {
    function Sent(tbl: nat): seq<Token> {
      if released then sent0 + EobTokens(tbl, e0, c0) + out else sent0
    }

    predicate Bounded() {
      e0 < MAX_EOBRUN && |c0| <= MAX_CORR_BITS - DCTSIZE2 + 1 && (e0 == 0 ==> c0 == [])
    }

    function Plus(more: seq<Token>): Trace {
      this.(released := true, out := out + more)
    }

    /** The block has symbols of its own, and one of these or of the pending run has no code. */
    ghost predicate Lacks(ts: Coder, tbl: nat, code: Coded) {
      code.syms != [] && Missing(ts, tbl, code.syms)
    }

    /** The trace of the same block, possibly further on. */
    predicate Continues(g: Trace) {
      sent0 == g.sent0 && e0 == g.e0 && c0 == g.c0
    }

    /** A token of the pending run or of `tokens` has no code. */
    ghost predicate Missing(ts: Coder, tbl: nat, tokens: seq<Token>) {
      !ts.Covers(EobTokens(tbl, e0, c0) + tokens)
    }
  }

  class AcStatus {
    const tbl: nat
    const bitBuffer: array<nat>            // correction bits, one per element
    var eobrun: nat
    var be: nat

    constructor (tbl: nat)
      ensures this.tbl == tbl && bitBuffer.Length == MAX_CORR_BITS && fresh(bitBuffer)
      ensures eobrun == 0 && be == 0
    {
      this.tbl := tbl;
      bitBuffer := new nat[MAX_CORR_BITS];
      eobrun, be := 0, 0;
    }

    ghost predicate Fits(e: Emitter)
      reads e.w.dest
    {
      && bitBuffer.Length == MAX_CORR_BITS && e.counts != bitBuffer && bitBuffer as object != e.w.dest.buffer
      && !e.isDC && e.tbl == tbl
    }

    /** The pending correction bits. */
    ghost function Buffered(): Bits
      reads `be, bitBuffer
      requires be <= bitBuffer.Length
    {
      BufferedBits(bitBuffer[..], 0, be)
    }

    ghost function Kept(run: Run): Bits
      reads bitBuffer
      requires run.start + run.count <= bitBuffer.Length
    {
      BufferedBits(bitBuffer[..], run.start, run.count)
    }

    /** emit_eobrun: send the pending run and its correction bits. The size check fires only above 0x7FFF. */
    method EmitEobrun(e: Emitter) returns (r: Outcome)
      requires e.Ok() && Fits(e) && be <= MAX_CORR_BITS && (eobrun == 0 ==> be == 0)
      modifies this, e, e.counts, e.w, e.w.dest, e.w.dest.buffer
      ensures e.w.dest.buffer == old(e.w.dest.buffer) || fresh(e.w.dest.buffer)
      ensures bitBuffer[..] == old(bitBuffer[..])
      ensures r.Done? ==> e.Ok() && eobrun == 0 && be == 0
      ensures r.Done? ==> e.sent == old(e.sent) + EobTokens(tbl, old(eobrun), old(Buffered()))
      ensures r == Error(MissingCode) ==>
                old(eobrun) > MAX_EOBRUN || !e.ts.Covers(EobTokens(tbl, old(eobrun), old(Buffered())))
      ensures (old(eobrun) > MAX_EOBRUN && r == Error(MissingCode)) || CannotSuspend(r, e.gather)
      ensures r == Error(CantSuspend) ==> e.w.Refused()
    {
      if eobrun > 0 {
        var temp: nat, nbits: nat := eobrun / 2, 0;
        while temp != 0
          invariant nbits + NumBits(temp) + 1 == NumBits(eobrun)
          decreases temp
        {
          nbits := nbits + 1;
          temp := temp / 2;
        }
        r := EmitRun(e, nbits);
      } else {
        r := Done;
        assert e.sent + [] == e.sent;
      }
    }

    method EmitRun(e: Emitter, nbits: nat) returns (r: Outcome)
      requires e.Ok() && Fits(e) && be <= MAX_CORR_BITS && eobrun > 0 && nbits == NumBits(eobrun) - 1
      modifies this, e, e.counts, e.w, e.w.dest, e.w.dest.buffer
      ensures e.w.dest.buffer == old(e.w.dest.buffer) || fresh(e.w.dest.buffer)
      ensures bitBuffer[..] == old(bitBuffer[..])
      ensures r.Done? ==> e.Ok() && eobrun == 0 && be == 0
      ensures r.Done? ==> e.sent == old(e.sent) + EobTokens(tbl, old(eobrun), old(Buffered()))
      ensures r == Error(MissingCode) ==>
                old(eobrun) > MAX_EOBRUN || !e.ts.Covers(EobTokens(tbl, old(eobrun), old(Buffered())))
      ensures (old(eobrun) > MAX_EOBRUN && r == Error(MissingCode)) || CannotSuspend(r, e.gather)
      ensures r == Error(CantSuspend) ==> e.w.Refused()
    {
      hide NumBits, BitsOf, Emitter.Ok;
      ghost var sent0, c := e.sent, Buffered();
      ghost var sym, low, corr := Symbol(false, tbl, EobSymbol(eobrun)), Extra(BitsOf(eobrun, nbits)), Extra(c);
      assert EobTokens(tbl, eobrun, c) == [sym, low, corr];
      if nbits > 14 {
        LongRun(eobrun);
        return Error(MissingCode);
      }
      r := e.EmitSymbol(nbits * 16);
      if !r.Done? {
        if r == Error(MissingCode) {
          CoversFirst(e.ts, [], sym, [low, corr]);
          assert [] + [sym] + [low, corr] == [sym, low, corr];
        }
        return;
      }
      if nbits > 0 {
        r := e.EmitExtra(eobrun, nbits);
        if !r.Done? {
          return;
        }
      } else {
        assert BitsOf(eobrun, 0) == [];
        e.NoteNothing();
      }
      eobrun := 0;
      r := e.EmitBuffered(bitBuffer, 0, be);
      be := 0;
      assert sent0 + [sym] + [low] + [corr] == sent0 + [sym, low, corr];
    }

    // ----- inside a block

    ghost predicate Track(e: Emitter, g: Trace): (r: bool)
      reads this, bitBuffer, e, e.counts, e.w, e.w.dest, e.w.dest.buffer
      ensures r ==> Fits(e)
    {
      && e.Ok() && Fits(e) && e.sent == g.Sent(tbl) && g.Bounded()
      && (if g.released then eobrun == 0 && be == 0
          else g.out == [] && eobrun == g.e0 && be == |g.c0| && Buffered() == g.c0)
    }

    /** Emit any pending EOBRUN, before the first symbol of the block. */
    method Release(e: Emitter, ghost g: Trace) returns (r: Outcome)
      requires Track(e, g)
      modifies this, e, e.counts, e.w, e.w.dest, e.w.dest.buffer
      ensures e.w.dest.buffer == old(e.w.dest.buffer) || fresh(e.w.dest.buffer)
      ensures bitBuffer[..] == old(bitBuffer[..])
      ensures r.Done? ==> Track(e, g.Plus([]))
      ensures r == Error(MissingCode) ==> g.Missing(e.ts, tbl, [])
      ensures CannotSuspend(r, e.gather)
      ensures r == Error(CantSuspend) ==> e.w.Refused()
    {
      hide EobTokens, Emitter.Ok;
      r := EmitEobrun(e);
      NoRun(tbl, []);
      assert g.out + [] == g.out && e.sent + [] == e.sent;
      assert EobTokens(tbl, g.e0, g.c0) + [] == EobTokens(tbl, g.e0, g.c0);
    }

    /** One run-length-16 code, and the correction bits that go with it. */
    method EmitOneZrl(e: Emitter, run: Run, ghost g: Trace) returns (result: Outcome)
      requires Track(e, g) && run.start + run.count <= MAX_CORR_BITS
      modifies this, e, e.counts, e.w, e.w.dest, e.w.dest.buffer
      ensures e.w.dest.buffer == old(e.w.dest.buffer) || fresh(e.w.dest.buffer)
      ensures bitBuffer[..] == old(bitBuffer[..])
      ensures result.Done? ==> Track(e, g.Plus(ZrlAndBits(tbl, Kept(run))))
      ensures result == Error(MissingCode) ==> g.Missing(e.ts, tbl, ZrlAndBits(tbl, Kept(run)))
      ensures CannotSuspend(result, e.gather)
      ensures result == Error(CantSuspend) ==> e.w.Refused()
    {
      hide EobTokens, Emitter.Ok, BufferedBits;
      ghost var f0, extra := Symbol(false, tbl, 0xF0), Extra(Kept(run));
      result := Release(e, g);
      if !result.Done? {
        if result == Error(MissingCode) {
          MissingRun(e.ts, tbl, g, [f0, extra]);
        }
        return;
      }
      result := e.EmitSymbol(0xF0);
      if !result.Done? {
        if result == Error(MissingCode) {
          MissingFirst(e.ts, tbl, g, f0, [extra]);
          assert [f0] + [extra] == [f0, extra];
        }
        return;
      }
      result := e.EmitBuffered(bitBuffer, run.start, run.count);
      SentTwoMore(tbl, g, f0, extra);
    }

    /** The run-length-16 codes of a run; the correction bits go with the first. */
    method EmitZrls(e: Emitter, run: Run, ghost g: Trace) returns (result: Outcome, run': Run, ghost g': Trace)
      requires Track(e, g) && run.start + run.count <= MAX_CORR_BITS
      modifies this, e, e.counts, e.w, e.w.dest, e.w.dest.buffer
      ensures e.w.dest.buffer == old(e.w.dest.buffer) || fresh(e.w.dest.buffer)
      ensures bitBuffer[..] == old(bitBuffer[..])
      ensures run' == if run.zeros > 15 then Run(run.zeros % 16, 0, 0) else run
      ensures g' == if run.zeros > 15 then g.Plus(Zrls(tbl, run.zeros, Kept(run))) else g
      ensures result.Done? ==> Track(e, g')
      ensures result == Error(MissingCode) ==> g.Missing(e.ts, tbl, Zrls(tbl, run.zeros, Kept(run)))
      ensures CannotSuspend(result, e.gather)
      ensures result == Error(CantSuspend) ==> e.w.Refused()
    {
      hide Track, EobTokens, BufferedBits;
      g' := g;
      run' := run;
      result := Done;
      if run.zeros > 15 {
        ghost var zrls, all := [], Zrls(tbl, run.zeros, Kept(run));
        while run'.zeros > 15
          invariant e.w.dest.buffer == old(e.w.dest.buffer) || fresh(e.w.dest.buffer)
          invariant bitBuffer[..] == old(bitBuffer[..])
          invariant result.Done? && run'.zeros % 16 == run.zeros % 16 && (run' == run || run' == Run(run'.zeros, 0, 0))
          invariant if zrls == [] then run' == run && g' == g else run' == Run(run'.zeros, 0, 0) && g' == g.Plus(zrls)
          invariant run'.start + run'.count <= MAX_CORR_BITS
          invariant Track(e, g') && zrls + Zrls(tbl, run'.zeros, Kept(run')) == all
          decreases run'.zeros
        {
          ghost var one, more := ZrlAndBits(tbl, Kept(run')), Zrls(tbl, run'.zeros - 16, []);
          assert Zrls(tbl, run'.zeros, Kept(run')) == one + more;
          result := EmitOneZrl(e, run', g');
          if !result.Done? {
            if result == Error(MissingCode) {
              MissingLater(e.ts, tbl, g, g', zrls, one, more);
            }
            g', run' := g.Plus(all), Run(run.zeros % 16, 0, 0);
            return;
          }
          PlusPlus(g, zrls, one);
          Assoc(zrls, one, more);
          zrls := zrls + one;
          g' := g.Plus(zrls);
          run' := Run(run'.zeros - 16, 0, 0);
        }
        assert zrls + [] == zrls;
      }
    }

    /** A newly non-zero coefficient: symbol, its own bits, and the correction bits kept. */
    method EmitNew(e: Emitter, run: Run, code: int, nbits: nat, ghost v: int, ghost g: Trace) returns (result: Outcome)
      requires Track(e, g) && run.start + run.count <= MAX_CORR_BITS && run.zeros <= 15
      requires 1 <= nbits <= MAX_COEF_BITS && nbits == NumBits(Abs(v)) && BitsOf(code, nbits) == MagnitudeBits(v)
      modifies this, e, e.counts, e.w, e.w.dest, e.w.dest.buffer
      ensures e.w.dest.buffer == old(e.w.dest.buffer) || fresh(e.w.dest.buffer)
      ensures bitBuffer[..] == old(bitBuffer[..])
      ensures result.Done? ==> Track(e, g.Plus(NewTokens(tbl, run.zeros, v, Kept(run))))
      ensures result == Error(MissingCode) ==> g.Missing(e.ts, tbl, NewTokens(tbl, run.zeros, v, Kept(run)))
      ensures CannotSuspend(result, e.gather)
      ensures result == Error(CantSuspend) ==> e.w.Refused()
    {
      hide EobTokens, Emitter.Ok, BufferedBits, MagnitudeBits, BitsOf, NumBits;
      ghost var sym, mag, corr := Symbol(false, tbl, AcSymbol(run.zeros, v)), Extra(MagnitudeBits(v)), Extra(Kept(run));
      result := Release(e, g);
      if !result.Done? {
        if result == Error(MissingCode) {
          MissingRun(e.ts, tbl, g, [sym, mag, corr]);
        }
        return;
      }
      assert run.zeros * 16 + nbits == AcSymbol(run.zeros, v);
      result := e.EmitSymbol(run.zeros * 16 + nbits);
      if !result.Done? {
        if result == Error(MissingCode) {
          MissingFirst(e.ts, tbl, g, sym, [mag, corr]);
          assert [sym] + [mag, corr] == [sym, mag, corr];
        }
        return;
      }
      result := e.EmitExtra(code, nbits);
      if !result.Done? {
        return;
      }
      result := e.EmitBuffered(bitBuffer, run.start, run.count);
      SentThreeMore(tbl, g, sym, mag, corr);
    }

    // ----- in front of coefficient i of a band

    /** The tokens so far and, with this run pending, the rest of the band make up the whole block. */
    ghost predicate InBand(e: Emitter, b: Band, i: nat, run: Run, g: Trace)
      reads this, bitBuffer, e, e.counts, e.w, e.w.dest, e.w.dest.buffer
    {
      && i <= b.Len() < DCTSIZE2 && run.count <= i && g.Bounded() && Track(e, g)
      && (g.released <==> g.out != []) && run.start == (if g.released then 0 else |g.c0|)
      && After(g.out, CodeBand(b, tbl, i, run.zeros, Kept(run))) == BlockCode(b, tbl)
    }

    /** A zero is only counted. */
    lemma PassZero(e: Emitter, b: Band, i: nat, run: Run, g: Trace)
      requires InBand(e, b, i, run, g) && i < b.Len() && b.now[i] == 0
      ensures InBand(e, b, i + 1, run.(zeros := run.zeros + 1), g)
    {
      hide Track, BufferedBits;
    }

    /** The correction bit is the next bit of the absolute value; it is kept. */
    method KeepCorrection(e: Emitter, temp: nat, run: Run, ghost b: Band, ghost i: nat, ghost g: Trace)
      returns (run': Run)
      requires i < b.Len() < DCTSIZE2 && run.count <= i && Track(e, g) && temp == Abs(b.now[i])
      requires (g.released <==> g.out != []) && run.start == if g.released then 0 else |g.c0|
      requires After(g.out, CodeBand(b, tbl, i + 1, run.zeros, Kept(run) + [CorrectionBit(b.now[i])]))
                 == BlockCode(b, tbl)
      modifies bitBuffer
      ensures InBand(e, b, i + 1, run', g)
    {
      hide CodeBand, BlockCode, Emitter.Ok, EobTokens;
      ghost var before := bitBuffer[..];
      bitBuffer[run.start + run.count] := temp % 2;
      KeepBit(before, run.start, run.count, temp % 2);
      run' := run.(count := run.count + 1);
    }

    /** A new coefficient, the run-length codes being sent. */
    method SendNew(e: Emitter, run: Run, code: int, nbits: nat, ghost b: Band, ghost i: nat, ghost g: Trace)
      returns (result: Outcome, run': Run, ghost g': Trace)
      requires i < b.Len() < DCTSIZE2 && run.start + run.count <= MAX_CORR_BITS && run.zeros <= 15 && Track(e, g)
      requires 1 <= nbits <= MAX_COEF_BITS && nbits == NumBits(Abs(b.now[i]))
                 && BitsOf(code, nbits) == MagnitudeBits(b.now[i])
      requires NextIsNew(b, tbl, i, run.zeros, Kept(run), g.out)
      modifies this, e, e.counts, e.w, e.w.dest, e.w.dest.buffer
      ensures e.w.dest.buffer == old(e.w.dest.buffer) || fresh(e.w.dest.buffer)
      ensures result.Done? ==> InBand(e, b, i + 1, run', g')
      ensures result == Error(MissingCode) ==> g.Missing(e.ts, tbl, BlockCode(b, tbl).syms)
      ensures g'.Continues(g)
      ensures CannotSuspend(result, e.gather)
      ensures result == Error(CantSuspend) ==> e.w.Refused()
    {
      hide CodeBand, BlockCode, EobTokens, BufferedBits, MagnitudeBits, BitsOf, NumBits, NewTokens, Track;
      ghost var sym, next := NewTokens(tbl, run.zeros, b.now[i], Kept(run)), CodeBand(b, tbl, i + 1, 0, []);
      run', g' := Run(0, 0, 0), g.Plus(sym);
      TrackIsBounded(e, g);
      result := EmitNew(e, run, code, nbits, b.now[i], g);
      if result == Error(MissingCode) {
        MissingInside(e.ts, tbl, g, sym, next.syms);
      }
      NewIsSomething(tbl, run.zeros, b.now[i], Kept(run), g.out);
    }

    lemma TrackIsBounded(e: Emitter, g: Trace)
      requires Track(e, g)
      ensures g.Bounded()
    {
    }

    // ----- the refinement coder

    /** The correction bit or the symbol of a coefficient, the run-length codes being sent. */
    method RefineHere(e: Emitter, negative: bool, temp: nat, run: Run, ghost b: Band, ghost i: nat, ghost g: Trace)
      returns (result: Outcome, run': Run, ghost g': Trace)
      requires i < b.Len() < DCTSIZE2 && run.count <= i && run.zeros <= 15 && Track(e, g)
      requires (g.released <==> g.out != []) && run.start == if g.released then 0 else |g.c0|
      requires temp == Abs(b.now[i]) > 0 && negative == (b.now[i] < 0)
      requires g.Bounded() && NextHas(b, tbl, i, temp, run.zeros, Kept(run), g.out)
      modifies this, e, e.counts, e.w, e.w.dest, e.w.dest.buffer, bitBuffer
      ensures e.w.dest.buffer == old(e.w.dest.buffer) || fresh(e.w.dest.buffer)
      ensures result.Done? ==> InBand(e, b, i + 1, run', g')
      ensures result == Error(MissingCode) ==> g.Missing(e.ts, tbl, BlockCode(b, tbl).syms)
      ensures g'.Continues(g)
      ensures CannotSuspend(result, e.gather)
      ensures result == Error(CantSuspend) ==> e.w.Refused()
    {
      SignBit(b.now[i], temp);
      hide Track, BufferedBits, CorrectionBit, BlockCode, NextIsNew, CodeBand, MagnitudeBits, BitsOf, NumBits, InBand;
      if temp > 1 {
        run' := KeepCorrection(e, temp, run, b, i, g);
        result, g' := Done, g;
      } else {
        result, run', g' := SendNew(e, run, if negative then 0 else 1, 1, b, i, g);
      }
    }

    /** A coefficient with something new at or after it: run-length codes, then a correction bit or a symbol. */
    method RefineAhead(e: Emitter, negative: bool, temp: nat, run: Run, ghost b: Band, ghost i: nat, ghost g: Trace)
      returns (result: Outcome, run': Run, ghost g': Trace)
      requires InBand(e, b, i, run, g) && i < b.Len() && NewAhead(b, i)
      requires temp == Abs(b.now[i]) > 0 && (temp == 1 <==> IsNew(b, i)) && negative == (b.now[i] < 0)
      modifies this, e, e.counts, e.w, e.w.dest, e.w.dest.buffer, bitBuffer
      ensures e.w.dest.buffer == old(e.w.dest.buffer) || fresh(e.w.dest.buffer)
      ensures result.Done? ==> InBand(e, b, i + 1, run', g')
      ensures result == Error(MissingCode) ==> g.Missing(e.ts, tbl, BlockCode(b, tbl).syms)
      ensures g'.Continues(g)
      ensures CannotSuspend(result, e.gather)
      ensures result == Error(CantSuspend) ==> e.w.Refused()
    {
      ghost var bits, zrls := Kept(run), Zrls(tbl, run.zeros, Kept(run));
      ghost var rest := AfterZrls(b, tbl, i, temp, run.zeros, bits, g.out);
      ZrlsEmpty(tbl, run.zeros, bits);
      NoZrls(g.out, zrls);
      PlusBounded(e.ts, tbl, g, zrls, BlockCode(b, tbl).syms);
      assert b.Len() < DCTSIZE2 && run.count <= i && g.Bounded() && Track(e, g);
      assert (g.released <==> g.out != []) && run.start == if g.released then 0 else |g.c0|;
      hide *;
      result, run', g' := EmitZrls(e, run, g);
      if !result.Done? {
        if result == Error(MissingCode) {
          MissingInside(e.ts, tbl, g, zrls, rest);
        }
        return;
      }
      KeptAfterZrls(run, run');
      result, run', g' := RefineHere(e, negative, temp, run', b, i, g');
    }

    /** Nothing is kept after a run-length code. */
    lemma KeptAfterZrls(run: Run, run': Run)
      requires run.start + run.count <= bitBuffer.Length
      requires run' == if run.zeros > 15 then Run(run.zeros % 16, 0, 0) else run
      ensures Kept(run') == (if run.zeros > 15 then [] else Kept(run)) && run'.count <= run.count && run'.zeros <= 15
      ensures run'.zeros == run.zeros % 16 && run'.start == if run.zeros > 15 then 0 else run.start
    {
    }

    /**
     A coefficient that is not zero; run-length codes are left out when they can be folded into the
     end-of-band code.
     */
    method RefineNonZero(e: Emitter, negative: bool, temp: nat, ahead: bool, run: Run, ghost b: Band, ghost i: nat,
                         ghost g: Trace)
      returns (result: Outcome, run': Run, ghost g': Trace)
      requires InBand(e, b, i, run, g) && i < b.Len() && (ahead <==> NewAhead(b, i))
      requires temp == Abs(b.now[i]) > 0 && (temp == 1 <==> IsNew(b, i)) && negative == (b.now[i] < 0)
      modifies this, e, e.counts, e.w, e.w.dest, e.w.dest.buffer, bitBuffer
      ensures e.w.dest.buffer == old(e.w.dest.buffer) || fresh(e.w.dest.buffer)
      ensures result.Done? ==> InBand(e, b, i + 1, run', g')
      ensures result == Error(MissingCode) ==>
                g.Lacks(e.ts, tbl, BlockCode(b, tbl))
      ensures g'.Continues(g)
      ensures CannotSuspend(result, e.gather)
      ensures result == Error(CantSuspend) ==> e.w.Refused()
    {
      if ahead {
        NewMeansSymbols(b, tbl, i);
        hide InBand, Track, BlockCode, EobTokens;
        result, run', g' := RefineAhead(e, negative, temp, run, b, i, g);
      } else {
        hide Track, BlockCode, EobTokens, CorrectionBit, BufferedBits;
        run' := KeepCorrection(e, temp, run, b, i, g);
        result, g' := Done, g;
      }
    }

    /** Coefficient k of the block, zero or not. */
    method RefineOne(e: Emitter, p: Params, block: Coefs, k: nat, absvalues: seq<nat>, eob: nat, run: Run,
                     ghost b: Band, ghost g: Trace, ghost g0: Trace)
      returns (result: Outcome, run': Run, ghost g': Trace)
      requires p.scan.refining && p.ss <= k <= p.se && |absvalues| == DCTSIZE2 && Prepared(p, block, absvalues, eob)
      requires b == BandOf(p, block) && InBand(e, b, k - p.ss, run, g) && g.Continues(g0)
      modifies this, e, e.counts, e.w, e.w.dest, e.w.dest.buffer, bitBuffer
      ensures e.w.dest.buffer == old(e.w.dest.buffer) || fresh(e.w.dest.buffer)
      ensures result.Done? ==> InBand(e, b, k - p.ss + 1, run', g')
      ensures result == Error(MissingCode) ==> g0.Lacks(e.ts, tbl, BlockCode(b, tbl))
      ensures g'.Continues(g0)
      ensures CannotSuspend(result, e.gather)
      ensures result == Error(CantSuspend) ==> e.w.Refused()
    {
      hide *;
      ghost var i := k - p.ss;
      BandLength(p, block, b);
      StartOfBand(b, g0, e.gather);
      PreparedAt(p, block, absvalues, eob, i);
      var temp := absvalues[k];
      if temp == 0 {
        PassZero(e, b, i, run, g);
        result, run', g' := Done, run.(zeros := run.zeros + 1), g;
      } else {
        result, run', g' := RefineNonZero(e, block[p.order[k]] < 0, temp, k <= eob, run, b, i, g);
        LacksToo(e.ts, tbl, BlockCode(b, tbl), g0, g, g');
      }
    }

    method RefineCoefs(e: Emitter, p: Params, block: Coefs, absvalues: seq<nat>, eob: nat, ghost b: Band,
                       ghost g0: Trace)
      returns (result: Outcome, run: Run, ghost g: Trace)
      requires p.scan.refining && |absvalues| == DCTSIZE2 && Prepared(p, block, absvalues, eob)
      requires b == BandOf(p, block) && InBand(e, b, 0, Run(0, be, 0), g0)
      modifies this, e, e.counts, e.w, e.w.dest, e.w.dest.buffer, bitBuffer
      ensures e.w.dest.buffer == old(e.w.dest.buffer) || fresh(e.w.dest.buffer)
      ensures result.Done? ==>
                InBand(e, b, b.Len(), run, g) && g.Continues(g0)
      ensures result == Error(MissingCode) ==>
                g0.Lacks(e.ts, tbl, BlockCode(b, tbl))
      ensures CannotSuspend(result, e.gather)
      ensures result == Error(CantSuspend) ==> e.w.Refused()
    {
      hide *;
      BandLength(p, block, b);
      StartOfBand(b, g0, e.gather);
      ghost var i: nat := 0;
      run, g := Run(0, be, 0), g0;
      var k := p.ss;
      while k <= p.se
        invariant k == p.ss + i && i <= b.Len()
        invariant InBand(e, b, i, run, g)
        invariant g.Continues(g0)
        invariant e.w.dest.buffer == old(e.w.dest.buffer) || fresh(e.w.dest.buffer)
      {
        result, run, g := RefineOne(e, p, block, k, absvalues, eob, run, b, g, g0);
        if !result.Done? {
          return;
        }
        k := k + 1;
        i := i + 1;
      }
      result := Done;
    }

    // ----- between blocks

    /** This run and these correction bits are pending, within their bounds. */
    ghost predicate At(e: Emitter, pos: AcPos, sent: seq<Token>): (r: bool)
      reads this, bitBuffer, e, e.counts, e.w, e.w.dest, e.w.dest.buffer
      ensures r ==> Fits(e)
    {
      && e.Ok() && Fits(e) && e.sent == sent && InBounds() && pos.eobrun == eobrun && pos.be == Buffered()
    }

    /** Between blocks the counter and the buffer always have room for another block. */
    ghost predicate InBounds()
      reads this
    {
      eobrun < MAX_EOBRUN && be <= MAX_CORR_BITS - DCTSIZE2 + 1 && (eobrun == 0 ==> be == 0)
      && bitBuffer.Length == MAX_CORR_BITS
    }

    lemma StartInBand(e: Emitter, b: Band, pos: AcPos, sent: seq<Token>)
      requires At(e, pos, sent) && b.Len() < DCTSIZE2
      ensures InBand(e, b, 0, Run(0, be, 0), Trace(sent, pos.eobrun, pos.be, false, []))
    {
      hide Emitter.Ok, CodeBand;
      assert Kept(Run(0, be, 0)) == [];
      var code := BlockCode(b, tbl);
      assert [] + code.syms == code.syms;
    }

    /** All coefficients passed. */
    lemma AfterBand(e: Emitter, b: Band, run: Run, g: Trace)
      requires InBand(e, b, b.Len(), run, g)
      ensures var code := BlockCode(b, tbl);
              && Track(e, g) && g.out == code.syms && (g.released <==> code.syms != []) && g.Bounded()
              && run.start == be && run.count == |code.rest| < DCTSIZE2 && code.rest == Kept(run)
              && (code.eob <==> run.zeros > 0 || run.count > 0)
    {
      hide Emitter.Ok, BufferedBits, EobTokens, BlockCode;
      assert g.out + [] == g.out;
    }

    /** Count an end of band, and force it out before the counter or the buffer could overflow. */
    method EndBlock(e: Emitter, run: Run, ghost scan: AcScan, ghost code: Coded, ghost g: Trace, ghost pos: AcPos)
      returns (result: Outcome)
      requires Track(e, g) && g.out == code.syms && (g.released <==> code.syms != []) && g.Bounded()
      requires scan.tbl == tbl && pos.eobrun == g.e0 && pos.be == g.c0
      requires run.start == be && run.count == |code.rest| < DCTSIZE2 && code.rest == Kept(run)
      requires code.eob <==> run.zeros > 0 || run.count > 0
      modifies this, e, e.counts, e.w, e.w.dest, e.w.dest.buffer
      ensures e.w.dest.buffer == old(e.w.dest.buffer) || fresh(e.w.dest.buffer)
      ensures result.Done? ==> At(e, BlockLeaves(scan, pos, code), g.sent0 + BlockSends(scan, pos, code))
      ensures result == Error(MissingCode) ==> !e.ts.Covers(BlockSends(scan, pos, code))
      ensures CannotSuspend(result, e.gather)
      ensures result == Error(CantSuspend) ==> e.w.Refused()
    {
      hide EobTokens, Emitter.Ok;
      ghost var sends := Released(scan, pos, code);
      Assoc(g.sent0, EobTokens(tbl, pos.eobrun, pos.be), code.syms);
      assert g.sent0 + [] == g.sent0;
      assert e.sent == g.sent0 + sends;
      result := Done;
      if run.zeros > 0 || run.count > 0 {
        JoinBuffered(bitBuffer[..], be, run.count);
        eobrun := eobrun + 1;
        be := be + run.count;
        assert (eobrun, Buffered()) == Pending(pos, code) by {
          assert [] + code.rest == code.rest;
        }
        if eobrun == MAX_EOBRUN || be > MAX_CORR_BITS - DCTSIZE2 + 1 {
          ghost var eob := EobTokens(tbl, eobrun, Buffered());
          result := EmitEobrun(e);
          if result == Error(MissingCode) {
            NotCoveredByPart(e.ts, sends, eob);
          }
          Assoc(g.sent0, sends, eob);
          return;
        }
      }
      assert sends + [] == sends;
    }

    /** encode_mcu_AC_refine, the block itself. */
    method RefineBlock(e: Emitter, p: Params, block: Coefs, ghost pos: AcPos, ghost sent: seq<Token>)
      returns (result: Outcome)
      requires p.scan.refining && p.scan.tbl == tbl && At(e, pos, sent)
      modifies this, e, e.counts, e.w, e.w.dest, e.w.dest.buffer, bitBuffer
      ensures e.w.dest.buffer == old(e.w.dest.buffer) || fresh(e.w.dest.buffer)
      ensures var code := BlockCode(BandOf(p, block), tbl);
              && (result.Done? ==> At(e, BlockLeaves(p.scan, pos, code), sent + BlockSends(p.scan, pos, code)))
              && (result == Error(MissingCode) ==> !e.ts.Covers(BlockSends(p.scan, pos, code)))
      ensures CannotSuspend(result, e.gather)
      ensures result == Error(CantSuspend) ==> e.w.Refused()
    {
      ghost var b := BandOf(p, block);
      ghost var code, g0 := BlockCode(b, tbl), Trace(sent, pos.eobrun, pos.be, false, []);
      StartInBand(e, b, pos, sent);
      hide InBand, Track, BandOf, BlockCode, BlockSends, BlockLeaves, EobTokens, Emitter.Ok, Prepared, IsOrder,
        AcStatus.At;
      var absvalues, eob := PrePass(p, block);
      var run;
      ghost var g;
      result, run, g := RefineCoefs(e, p, block, absvalues, eob, b, g0);
      if !result.Done? {
        if result == Error(MissingCode) {
          MissingBlock(e.ts, p.scan, pos, code);
        }
        return;
      }
      AfterBand(e, b, run, g);
      result := EndBlock(e, run, p.scan, code, g, pos);
    }

    // ----- the coder of a first scan

    /** Send the pending run, then the run-length codes. */
    method ReleaseAndZrls(e: Emitter, run: Run, ghost code: Coded, ghost rest: seq<Token>, ghost g: Trace)
      returns (result: Outcome, run': Run, ghost g': Trace)
      requires Track(e, g) && run.start + run.count <= MAX_CORR_BITS && code.syms != []
      requires code.syms == g.out + (Zrls(tbl, run.zeros, Kept(run)) + rest)
      modifies this, e, e.counts, e.w, e.w.dest, e.w.dest.buffer
      ensures e.w.dest.buffer == old(e.w.dest.buffer) || fresh(e.w.dest.buffer)
      ensures result.Done? ==> Track(e, g') && g'.out == g.out + Zrls(tbl, run.zeros, old(Kept(run)))
      ensures run'.start + run'.count <= MAX_CORR_BITS && run'.zeros == run.zeros % 16
      ensures Kept(run') == if run.zeros > 15 then [] else old(Kept(run))
      ensures result == Error(MissingCode) ==> g.Lacks(e.ts, tbl, code)
      ensures g'.Continues(g)
      ensures CannotSuspend(result, e.gather)
      ensures result == Error(CantSuspend) ==> e.w.Refused()
    {
      ghost var zrls := Zrls(tbl, run.zeros, Kept(run));
      TraceAfterZrls(e.ts, tbl, g, run.zeros, Kept(run), code);
      KeptAfterZrls(run, if run.zeros > 15 then Run(run.zeros % 16, 0, 0) else run);
      hide *;
      g', run' := g.Plus([]), if run.zeros > 15 then Run(run.zeros % 16, 0, 0) else run;
      result := Release(e, g);
      if !result.Done? {
        if result == Error(MissingCode) {
          MissingRun(e.ts, tbl, g, code.syms);
          LacksBecause(e.ts, tbl, g, code);
        }
        return;
      }
      result, run', g' := EmitZrls(e, run, g');
      if result == Error(MissingCode) {
        MissingInside(e.ts, tbl, g.Plus([]), zrls, rest);
        LacksBecause(e.ts, tbl, g.Plus([]), code);
      }
    }

    /** A coefficient that is not zero after the point transform. */
    method FirstNonZero(e: Emitter, temp: nat, temp2: int, run: Run, ghost b: Band, ghost i: nat, ghost g: Trace)
      returns (result: Outcome, run': Run, ghost g': Trace)
      requires InBand(e, b, i, run, g) && i < b.Len() && IsNew(b, i)
      requires temp == Abs(b.now[i]) && temp2 == if b.now[i] < 0 then b.now[i] - 1 else b.now[i]
      modifies this, e, e.counts, e.w, e.w.dest, e.w.dest.buffer
      ensures e.w.dest.buffer == old(e.w.dest.buffer) || fresh(e.w.dest.buffer)
      ensures result.Done? ==> InBand(e, b, i + 1, run', g')
      ensures RangeChecked(result, b, i, e.gather)
      ensures result == Error(CantSuspend) ==> e.w.Refused()
      ensures result == Error(MissingCode) ==> g.Lacks(e.ts, tbl, BlockCode(b, tbl))
      ensures g'.Continues(g)
    {
      ghost var rest := AfterZrls(b, tbl, i, 1, run.zeros, Kept(run), g.out);
      NewMeansSymbols(b, tbl, i);
      MagnitudeOf(b.now[i]);
      ghost var code := BlockCode(b, tbl);
      assert b.Len() < DCTSIZE2 && Track(e, g) && NumBits(Abs(b.now[i])) >= 1;
      assert NextIsNew(b, tbl, i, run.zeros % 16, if run.zeros > 15 then [] else Kept(run),
                       g.out + Zrls(tbl, run.zeros, Kept(run)));
      NotChecked(b, i, e.gather);
      hide *;
      result, run', g' := ReleaseAndZrls(e, run, code, rest, g);
      if !result.Done? {
        return;
      }
      var nbits := CountBits(temp);
      Checked(b, i, nbits, e.gather);
      if nbits > MAX_COEF_BITS {
        return Error(BadCoefficient), run', g';
      }
      ghost var g1 := g';
      result, run', g' := SendNew(e, run', temp2, nbits, b, i, g1);
      if result == Error(MissingCode) {
        LacksBecause(e.ts, tbl, g1, code);
      }
      LacksToo(e.ts, tbl, code, g, g1, g');
    }

    /** A coefficient, possibly zero only after the point transform. */
    method FirstOne(e: Emitter, temp: nat, temp2: int, run: Run, ghost b: Band, ghost i: nat, ghost g: Trace)
      returns (result: Outcome, run': Run, ghost g': Trace)
      requires InBand(e, b, i, run, g) && i < b.Len()
      requires temp == Abs(b.now[i]) && (temp == 0 <==> b.now[i] == 0) && (temp != 0 ==> IsNew(b, i))
      requires temp != 0 ==> temp2 == if b.now[i] < 0 then b.now[i] - 1 else b.now[i]
      modifies this, e, e.counts, e.w, e.w.dest, e.w.dest.buffer
      ensures e.w.dest.buffer == old(e.w.dest.buffer) || fresh(e.w.dest.buffer)
      ensures result.Done? ==> InBand(e, b, i + 1, run', g')
      ensures RangeChecked(result, b, i, e.gather)
      ensures result == Error(CantSuspend) ==> e.w.Refused()
      ensures result == Error(MissingCode) ==> g.Lacks(e.ts, tbl, BlockCode(b, tbl))
      ensures g'.Continues(g)
    {
      ZeroIsInRange(b, i, e.gather);
      assert g.Continues(g);
      hide *;
      if temp == 0 {
        PassZero(e, b, i, run, g);
        result, run', g' := Done, run.(zeros := run.zeros + 1), g;
      } else {
        result, run', g' := FirstNonZero(e, temp, temp2, run, b, i, g);
      }
    }

    method FirstCoefs(e: Emitter, p: Params, block: Coefs, ghost b: Band, ghost g0: Trace)
      returns (result: Outcome, run: Run, ghost g: Trace)
      requires !p.scan.refining && b == BandOf(p, block) && InBand(e, b, 0, Run(0, be, 0), g0)
      modifies this, e, e.counts, e.w, e.w.dest, e.w.dest.buffer
      ensures e.w.dest.buffer == old(e.w.dest.buffer) || fresh(e.w.dest.buffer)
      ensures result.Done? ==> InBand(e, b, b.Len(), run, g) && g.Continues(g0)
      ensures BandChecked(result, b, e.gather)
      ensures result == Error(CantSuspend) ==> e.w.Refused()
      ensures result == Error(MissingCode) ==> g0.Lacks(e.ts, tbl, BlockCode(b, tbl))
    {
      hide *;
      BandLength(p, block, b);
      StartOfBand(b, g0, e.gather);
      ghost var i: nat, code := 0, BlockCode(b, tbl);
      run, g := Run(0, be, 0), g0;
      var k := p.ss;
      while k <= p.se
        invariant k == p.ss + i && i <= b.Len()
        invariant InBand(e, b, i, run, g)
        invariant g.Continues(g0) && RangeTo(b, i)
        invariant e.w.dest.buffer == old(e.w.dest.buffer) || fresh(e.w.dest.buffer)
      {
        ghost var before := g;
        var temp, temp2 := PointTransform(p, block, k);
        result, run, g := FirstOne(e, temp, temp2, run, b, i, g);
        LacksToo(e.ts, tbl, code, g0, before, g);
        RangeToNext(result, b, i, e.gather);
        if !result.Done? {
          return;
        }
        k := k + 1;
        i := i + 1;
      }
      RangeToEnd(b, e.gather);
      result := Done;
    }

    /** encode_mcu_AC_first, the block itself. */
    method FirstBlock(e: Emitter, p: Params, block: Coefs, ghost pos: AcPos, ghost sent: seq<Token>)
      returns (result: Outcome)
      requires !p.scan.refining && p.scan.tbl == tbl && At(e, pos, sent)
      modifies this, e, e.counts, e.w, e.w.dest, e.w.dest.buffer
      ensures e.w.dest.buffer == old(e.w.dest.buffer) || fresh(e.w.dest.buffer)
      ensures var code := BlockCode(BandOf(p, block), tbl);
              && (result.Done? ==> At(e, BlockLeaves(p.scan, pos, code), sent + BlockSends(p.scan, pos, code)))
              && (result.Done? ==> NewInRange(BandOf(p, block), false))
              && (result == Error(BadCoefficient) ==> !NewInRange(BandOf(p, block), false))
              && (result == Error(MissingCode) ==> !e.ts.Covers(BlockSends(p.scan, pos, code)))
      ensures result == Error(BadCoefficient) || CannotSuspend(result, e.gather)
      ensures result == Error(CantSuspend) ==> e.w.Refused()
    {
      ghost var b := BandOf(p, block);
      ghost var code, g0 := BlockCode(b, tbl), Trace(sent, pos.eobrun, pos.be, false, []);
      StartInBand(e, b, pos, sent);
      hide InBand, Track, BandOf, BlockCode, BlockSends, BlockLeaves, EobTokens, Emitter.Ok, IsOrder, AcStatus.At,
        NewInRange, RangeChecked;
      var run;
      ghost var g;
      result, run, g := FirstCoefs(e, p, block, b, g0);
      if !result.Done? {
        if result == Error(MissingCode) {
          MissingBlock(e.ts, p.scan, pos, code);
        }
        return;
      }
      AfterBand(e, b, run, g);
      result := EndBlock(e, run, p.scan, code, g, pos);
    }
  }

  /** A run-length-16 code followed by correction bits. */
  function ZrlAndBits(tbl: nat, c: Bits): seq<Token> {
    [Symbol(false, tbl, 0xF0), Extra(c)]
  }

  lemma MissingMore(ts: Coder, tbl: nat, g: Trace, a: seq<Token>, b: seq<Token>)
    requires g.Missing(ts, tbl, a)
    ensures g.Missing(ts, tbl, a + b)
  {
    var eob := EobTokens(tbl, g.e0, g.c0);
    Assoc(eob, a, b);
    NotCoveredByPart(ts, eob + a, b);
  }

  lemma MissingRun(ts: Coder, tbl: nat, g: Trace, tokens: seq<Token>)
    requires g.Missing(ts, tbl, [])
    ensures g.Missing(ts, tbl, tokens)
  {
    MissingMore(ts, tbl, g, [], tokens);
    assert [] + tokens == tokens;
  }

  /** ... and so nothing that contains them can be sent. */
  lemma MissingInside(ts: Coder, tbl: nat, g: Trace, part: seq<Token>, rest: seq<Token>)
    requires g.Missing(ts, tbl, part)
    ensures g.Missing(ts, tbl, g.out + (part + rest))
  {
    NotCoveredInside(ts, EobTokens(tbl, g.e0, g.c0), g.out, part, rest);
  }

  lemma MissingFirst(ts: Coder, tbl: nat, g: Trace, t: Token, more: seq<Token>)
    requires !ts.Covers([t])
    ensures g.Missing(ts, tbl, [t] + more)
  {
    var eob := EobTokens(tbl, g.e0, g.c0);
    CoversFirst(ts, eob, t, more);
    Assoc(eob, [t], more);
  }

  /** `out`, a new coefficient i with nothing but r zeros before it, and the rest of the band make up the block. */
  predicate NextIsNew(b: Band, tbl: nat, i: nat, r: nat, bits: Bits, out: seq<Token>)
    requires i < b.Len()
  {
    var sym, next := NewTokens(tbl, r, b.now[i], bits), CodeBand(b, tbl, i + 1, 0, []);
    After(out + sym, next) == BlockCode(b, tbl) && BlockCode(b, tbl).syms == out + (sym + next.syms)
  }

  /** ... or a correction bit for coefficient i. */
  predicate NextHas(b: Band, tbl: nat, i: nat, temp: nat, r: nat, bits: Bits, out: seq<Token>)
    requires i < b.Len()
  {
    if temp == 1 then NextIsNew(b, tbl, i, r, bits, out)
    else After(out, CodeBand(b, tbl, i + 1, r, bits + [CorrectionBit(b.now[i])])) == BlockCode(b, tbl)
  }

  lemma NoZrls(out: seq<Token>, zrls: seq<Token>)
    ensures zrls == [] ==> out + zrls == out
    ensures zrls != [] ==> out + zrls != []
  {
  }

  lemma PlusBounded(ts: Coder, tbl: nat, g: Trace, zrls: seq<Token>, syms: seq<Token>)
    ensures var g' := g.Plus(zrls);
            && g'.released && g'.out == g.out + zrls && g'.Continues(g)
            && (g.Bounded() ==> g'.Bounded()) && (g'.Missing(ts, tbl, syms) ==> g.Missing(ts, tbl, syms))
  {
  }

  /** Coefficients before i are in the range of a first scan. */
  ghost predicate RangeTo(b: Band, i: nat)
    requires i <= b.Len()
  {
    forall j :: 0 <= j < i ==> NumBits(Abs(b.now[j])) <= MAX_COEF_BITS
  }

  lemma StartOfBand(b: Band, g: Trace, gather: bool)
    ensures g.Continues(g) && CannotSuspend(Done, gather) && RangeTo(b, 0)
  {
  }

  lemma BandLength(p: Params, block: Coefs, b: Band)
    requires b == BandOf(p, block)
    ensures b.Len() == p.se - p.ss + 1 > 0
  {
  }

  /** The outcome of a first scan's range check on coefficient i, or of another error. */
  ghost predicate RangeChecked(result: Outcome, b: Band, i: nat, gather: bool)
    requires i < b.Len()
  {
    && (result.Done? ==> NumBits(Abs(b.now[i])) <= MAX_COEF_BITS)
    && (result == Error(BadCoefficient) ==> IsNew(b, i) && NumBits(Abs(b.now[i])) > MAX_COEF_BITS)
    && (result == Error(BadCoefficient) || CannotSuspend(result, gather))
  }

  /** ... on the whole band. */
  ghost predicate BandChecked(result: Outcome, b: Band, gather: bool) {
    && (result.Done? ==> NewInRange(b, false))
    && (result == Error(BadCoefficient) ==> !NewInRange(b, false))
    && (result == Error(BadCoefficient) || CannotSuspend(result, gather))
  }

  lemma ZeroIsInRange(b: Band, i: nat, gather: bool)
    requires i < b.Len()
    ensures b.now[i] == 0 ==> RangeChecked(Done, b, i, gather)
  {
    ZeroHasNoBits();
  }

  lemma Checked(b: Band, i: nat, nbits: nat, gather: bool)
    requires i < b.Len() && IsNew(b, i) && nbits == NumBits(Abs(b.now[i]))
    ensures if nbits > MAX_COEF_BITS then RangeChecked(Error(BadCoefficient), b, i, gather)
            else forall result: Outcome {:trigger CannotSuspend(result, gather)} :: CannotSuspend(result, gather) ==>
                RangeChecked(result, b, i, gather)
  {
  }

  lemma NotChecked(b: Band, i: nat, gather: bool)
    requires i < b.Len()
    ensures forall result: Outcome {:trigger CannotSuspend(result, gather)} ::
              CannotSuspend(result, gather) && !result.Done? ==> RangeChecked(result, b, i, gather)
  {
  }

  lemma RangeToNext(result: Outcome, b: Band, i: nat, gather: bool)
    requires i < b.Len() && RangeTo(b, i) && RangeChecked(result, b, i, gather)
    ensures result.Done? ==> RangeTo(b, i + 1)
    ensures !result.Done? ==> BandChecked(result, b, gather)
  {
  }

  lemma RangeToEnd(b: Band, gather: bool)
    requires RangeTo(b, b.Len())
    ensures BandChecked(Done, b, gather)
  {
  }

  lemma LacksBecause(ts: Coder, tbl: nat, g: Trace, code: Coded)
    requires code.syms != [] && g.Missing(ts, tbl, code.syms)
    ensures g.Lacks(ts, tbl, code)
  {
  }

  /** The traces after the pending run is sent, and after the run-length codes. */
  lemma TraceAfterZrls(ts: Coder, tbl: nat, g: Trace, r: nat, bits: Bits, code: Coded)
    ensures var g1 := g.Plus([]);
            var zrls := Zrls(tbl, r, bits);
            var g2 := if r > 15 then g1.Plus(zrls) else g1;
            && g1.out == g.out && g2.out == g.out + zrls && g1.Continues(g) && g2.Continues(g)
            && (g1.Lacks(ts, tbl, code) ==> g.Lacks(ts, tbl, code))
            && (g2.Lacks(ts, tbl, code) ==> g.Lacks(ts, tbl, code))
  {
    assert g.out + [] == g.out;
    ZrlsEmpty(tbl, r, bits);
    hide Zrls, EobTokens;
    NoZrls(g.out, Zrls(tbl, r, bits));
  }

  lemma LacksToo(ts: Coder, tbl: nat, code: Coded, g0: Trace, g: Trace, g': Trace)
    requires g.Continues(g0) && g'.Continues(g)
    ensures g'.Continues(g0) && (g.Lacks(ts, tbl, code) ==> g0.Lacks(ts, tbl, code))
  {
  }

  lemma MissingBlock(ts: Coder, scan: AcScan, pos: AcPos, code: Coded)
    requires code.syms != [] && !ts.Covers(EobTokens(scan.tbl, pos.eobrun, pos.be) + code.syms)
    ensures !ts.Covers(BlockSends(scan, pos, code))
  {
    hide EobTokens, Forced, Pending;
    var forced := if Forced(pos, code) then EobTokens(scan.tbl, Pending(pos, code).0, Pending(pos, code).1) else [];
    NotCoveredByPart(ts, Released(scan, pos, code), forced);
  }

  /** What the pre-pass says about one coefficient. */
  lemma PreparedAt(p: Params, block: Coefs, absvalues: seq<nat>, eob: nat, i: nat)
    requires p.scan.refining && i < BandOf(p, block).Len() && |absvalues| == DCTSIZE2
               && Prepared(p, block, absvalues, eob)
    ensures var b, k := BandOf(p, block), p.ss + i;
            && k < DCTSIZE2 && k < |p.order| && p.order[k] < DCTSIZE2
            && absvalues[k] == Abs(b.now[i]) && (absvalues[k] == 0 <==> b.now[i] == 0)
            && (absvalues[k] == 1 <==> IsNew(b, i)) && (k <= eob <==> NewAhead(b, i))
            && (absvalues[k] != 0 ==> (block[p.order[k]] < 0) == (b.now[i] < 0))
  {
    NewIffOne(p, block, i);
    BandValue(p, block, i);
    hide BandOf, NewAhead;
  }

  /** What follows the run-length codes of coefficient i; they and it have their place in the block. */
  lemma AfterZrls(b: Band, tbl: nat, i: nat, temp: nat, r: nat, br: Bits, out: seq<Token>) returns (rest: seq<Token>)
    requires i < b.Len() && b.now[i] != 0 && (temp == 1 <==> IsNew(b, i)) && NewAhead(b, i)
    requires After(out, CodeBand(b, tbl, i, r, br)) == BlockCode(b, tbl)
    ensures var br', out' := if r > 15 then [] else br, out + Zrls(tbl, r, br);
            NextHas(b, tbl, i, temp, r % 16, br', out')
    ensures BlockCode(b, tbl).syms == out + (Zrls(tbl, r, br) + rest)
  {
    var br' := if r > 15 then [] else br;
    if temp == 1 {
      NewNext(b, tbl, i, r, br, out);
      rest := NewTokens(tbl, r % 16, b.now[i], br') + CodeBand(b, tbl, i + 1, 0, []).syms;
    } else {
      CorrectionNext(b, tbl, i, r, br, out);
      rest := CodeBand(b, tbl, i + 1, r % 16, br' + [CorrectionBit(b.now[i])]).syms;
    }
    hide CodeBand, Zrls, BlockCode, NewTokens, CorrectionBit, After, NewAhead;
  }

  /** The one bit sent for 1 or -1 is its sign. */
  lemma SignBit(v: int, temp: nat)
    requires temp == Abs(v)
    ensures temp == 1 ==> NumBits(Abs(v)) == 1 && MagnitudeBits(v) == BitsOf(if v < 0 then 0 else 1, 1)
  {
    if temp == 1 {
      assert NumBits(1) == 1;
      OneBit(if v < 0 then -2 else 1);
      OneBit(if v < 0 then 0 else 1);
    }
  }

  lemma NewIsSomething(tbl: nat, r: nat, v: int, bits: Bits, out: seq<Token>)
    ensures out + NewTokens(tbl, r, v, bits) != []
  {
  }

  lemma PlusPlus(g: Trace, a: seq<Token>, b: seq<Token>)
    ensures g.Plus(a).Plus(b) == g.Plus(a + b) && (a == [] ==> g.Plus(b) == g.Plus(a + b))
  {
    Assoc(g.out, a, b);
    if a == [] {
      assert a + b == b;
    }
  }

  lemma MissingLater(ts: Coder, tbl: nat, g: Trace, g': Trace, before: seq<Token>, part: seq<Token>, more: seq<Token>)
    requires g'.e0 == g.e0 && g'.c0 == g.c0 && g'.Missing(ts, tbl, part)
    ensures g.Missing(ts, tbl, before + (part + more))
  {
    NotCoveredInside(ts, EobTokens(tbl, g.e0, g.c0), before, part, more);
  }

  lemma SentThreeMore(tbl: nat, g: Trace, x: Token, y: Token, z: Token)
    ensures g.Plus([]).Sent(tbl) + [x] + [y] + [z] == g.Plus([x, y, z]).Sent(tbl)
  {
    hide EobTokens;
    assert g.out + [] == g.out;
    assert g.sent0 + EobTokens(tbl, g.e0, g.c0) + g.out + [x] + [y] + [z]
        == g.sent0 + EobTokens(tbl, g.e0, g.c0) + (g.out + [x, y, z]);
  }

  lemma SentTwoMore(tbl: nat, g: Trace, x: Token, y: Token)
    ensures g.Plus([]).Sent(tbl) + [x] + [y] == g.Plus([x, y]).Sent(tbl)
  {
    hide EobTokens;
    assert g.out + [] == g.out;
    assert g.sent0 + EobTokens(tbl, g.e0, g.c0) + g.out + [x] + [y]
        == g.sent0 + EobTokens(tbl, g.e0, g.c0) + (g.out + [x, y]);
  }
}
