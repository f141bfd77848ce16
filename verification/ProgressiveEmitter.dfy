/**
 The output side of jcphuff.c: every emitting routine either writes or only counts,
 according to gather_statistics, and suspension is an error.
 */
module ProgressiveEmitter {
  import opened BitString
  import opened ByteStream
  import opened HuffmanCode
  import opened Tokens
  import opened BitWriter
  import opened BlockEncoder
  import opened BlockStatistics

  /** The writer has sent exactly these tokens, markers included, since state s. */
  ghost predicate WroteAll(w: Writer, ts: Coder, s: Sink, tokens: seq<Token>): (r: bool)
    reads w`next, w`free, w`putBuffer, w`putBits, w`pending, w`answers, w`tried, w.dest, w.dest.buffer
    ensures r ==> w.Valid() && ts.Covers(tokens)
  {
    && w.Valid() && ts.Covers(tokens) && WellNumbered(Items(ts, tokens))
    && w.State() == PutAll(s, Items(ts, tokens))
  }

  lemma WroteOneMore(w: Writer, ts: Coder, s: Sink, tokens: seq<Token>, before: Sink, t: Token)
    requires w.Valid() && ts.Covers(tokens) && WellNumbered(Items(ts, tokens)) && before == PutAll(s, Items(ts, tokens))
    requires ts.Covers([t]) && (t.Mark? ==> t.num < 8)
    ensures [t][0] == t && (t.Symbol? ==> t.tbl < NUM_HUFF_TBLS)
    ensures w.State() == PutItem(before, ItemOf(ts, t)) ==> WroteAll(w, ts, s, tokens + [t])
  {
    assert [t][0] == t;
    ItemsConcat(ts, tokens, [t]);
    var items, more := Items(ts, tokens), Items(ts, [t]);
    assert more == [ItemOf(ts, t)];
    hide PutItem, Writer.State, Writer.Valid;
    assert (items + more)[..|items|] == items && (items + more)[|items|] == ItemOf(ts, t);
  }

  lemma PutNothing(s: Sink)
    requires |s.pending| < 8
    ensures Put(s, []) == s
  {
    assert s.pending + [] == s.pending && s.bytes + [] == s.bytes;
  }

  /** Suspension is an error here, and the only other one is a missing code; mere counting never fails. */
  predicate CannotSuspend(r: Outcome, gather: bool) {
    r.Done? || (!gather && (r == Error(MissingCode) || r == Error(CantSuspend)))
  }

  class Emitter {
    const gather: bool
    const w: Writer
    const ts: Coder
    const counts: array<nat>
    const isDC: bool
    const tbl: nat
    ghost const s0: Sink            // the sink and the counts when the pass began
    ghost const base: seq<nat>
    ghost var sent: seq<Token>      // everything sent, or counted, since

    ghost predicate Ok()
      reads `sent, counts, w`next, w`free, w`putBuffer, w`putBits, w`pending, w`answers, w`tried, w.dest, w.dest.buffer
    {
      && tbl < NUM_HUFF_TBLS && ShortCodes(ts) && counts.Length == COUNT_SIZE && w.Valid()
      && counts as object != w.dest.buffer
      && if gather then Counted(counts[..], base, isDC, tbl, sent) else WroteAll(w, ts, s0, sent)
    }

    constructor (gather: bool, w: Writer, ts: Coder, counts: array<nat>, isDC: bool, tbl: nat,
                 ghost s0: Sink, ghost base: seq<nat>, ghost sent: seq<Token>)
      requires tbl < NUM_HUFF_TBLS && ShortCodes(ts) && counts.Length == COUNT_SIZE && w.Valid()
      requires counts as object != w.dest.buffer
      requires if gather then Counted(counts[..], base, isDC, tbl, sent) else WroteAll(w, ts, s0, sent)
      ensures Ok() && this.gather == gather && this.w == w && this.ts == ts && this.counts == counts
      ensures this.isDC == isDC && this.tbl == tbl && this.s0 == s0 && this.base == base && this.sent == sent
    {
      this.gather, this.w, this.ts, this.counts, this.isDC, this.tbl := gather, w, ts, counts, isDC, tbl;
      this.s0, this.base, this.sent := s0, base, sent;
    }

    /** emit_symbol: emit, or just count, a Huffman symbol. */
    method EmitSymbol(sym: byte) returns (r: Outcome)
      requires Ok()
      modifies `sent, counts, w, w.dest, w.dest.buffer
      ensures gather ==> unchanged(w) && unchanged(w.dest) && unchanged(w.dest.buffer)
      ensures w.dest.buffer == old(w.dest.buffer) || fresh(w.dest.buffer)
      ensures r.Done? ==> Ok() && sent == old(sent) + [Symbol(isDC, tbl, sym)]
      ensures CannotSuspend(r, gather) && (r == Error(CantSuspend) ==> w.Refused())
      ensures r.Error? && r.why == MissingCode ==> !ts.Covers([Symbol(isDC, tbl, sym)])
    {
      hide *;
      CountingNeverFails();
      if gather {
        CountSymbol(sym);
        r := Done;
      } else {
        r := WriteSymbol(sym);
      }
    }

    lemma CountingNeverFails()
      ensures CannotSuspend(Done, gather)
    {
    }

    method WriteSymbol(sym: byte) returns (r: Outcome)
      requires Ok() && !gather
      modifies `sent, w, w.dest, w.dest.buffer
      ensures w.dest.buffer == old(w.dest.buffer) || fresh(w.dest.buffer)
      ensures r.Done? ==> Ok() && sent == old(sent) + [Symbol(isDC, tbl, sym)]
      ensures CannotSuspend(r, gather) && (r == Error(CantSuspend) ==> w.Refused())
      ensures r.Error? && r.why == MissingCode ==> !ts.Covers([Symbol(isDC, tbl, sym)])
    {
      ghost var t := Symbol(isDC, tbl, sym);
      hide Put, PutAll, BitsOf, WroteAll, ShortCodes, Writer.Kept, Writer.Refused, Writer.BufferOk, Holds;
      var d := ts.At(isDC, tbl);
      CodeIsShort(ts, isDC, tbl, sym);
      ghost var before := w.State();
      WroteMeaning(w, ts, s0, sent);
      r := w.EmitBits(d.ehufco[sym], d.ehufsi[sym]);
      if r.Suspended? {
        r := Error(CantSuspend);
      }
      if r.Done? {
        SymbolIsSendable(ts, isDC, tbl, sym);
        WroteOneMore(w, ts, s0, sent, before, t);
        sent := sent + [t];
      } else if d.ehufsi[sym] == 0 {
        NoCode(ts, isDC, tbl, sym);
      }
    }

    method CountSymbol(sym: byte)
      requires Ok() && gather
      modifies `sent, counts
      ensures Ok() && sent == old(sent) + [Symbol(isDC, tbl, sym)]
    {
      hide Counted, ShortCodes, Writer.Valid;
      Bump(counts, sym, base, isDC, tbl, sent);
      sent := sent + [Symbol(isDC, tbl, sym)];
    }

    /** Literal bits, unless only counting. */
    method EmitExtra(code: int, size: nat) returns (r: Outcome)
      requires Ok() && 1 <= size <= 16
      modifies `sent, w, w.dest, w.dest.buffer
      ensures gather ==> unchanged(w) && unchanged(w.dest) && unchanged(w.dest.buffer)
      ensures w.dest.buffer == old(w.dest.buffer) || fresh(w.dest.buffer)
      ensures r.Done? ==> Ok() && sent == old(sent) + [Extra(BitsOf(code, size))]
      ensures !r.Done? ==> !gather && r == Error(CantSuspend) && w.Refused()
    {
      ghost var before := w.State();
      r := EmitRaw(code, size);
      if r.Done? {
        NoteExtra(before, BitsOf(code, size));
      }
    }

    /** emit_bits, not yet accounted for as a token. */
    method EmitRaw(code: int, size: nat) returns (r: Outcome)
      requires w.Valid() && 1 <= size <= 16
      modifies w, w.dest, w.dest.buffer
      ensures w.dest.buffer == old(w.dest.buffer) || fresh(w.dest.buffer)
      ensures r.Done? ==>
                w.Valid() && w.State() == if gather then old(w.State()) else Put(old(w.State()), BitsOf(code, size))
      ensures gather ==> unchanged(w) && unchanged(w.dest) && unchanged(w.dest.buffer)
      ensures !r.Done? ==> !gather && r == Error(CantSuspend) && w.Refused()
    {
      hide Put, BitsOf, Writer.Kept, Writer.Refused;
      if gather {
        return Done;
      }
      r := w.EmitBits(code, size);
      if r.Suspended? {
        r := Error(CantSuspend);
      }
    }

    /** Account for bits written since the sink was `before`. */
    ghost method NoteExtra(before: Sink, b: Bits)
      requires tbl < NUM_HUFF_TBLS && ShortCodes(ts) && counts.Length == COUNT_SIZE && w.Valid()
      requires counts as object != w.dest.buffer
      requires if gather then Counted(counts[..], base, isDC, tbl, sent)
               else && ts.Covers(sent) && WellNumbered(Items(ts, sent)) && before == PutAll(s0, Items(ts, sent))
                    && w.State() == Put(before, b)
      modifies `sent
      ensures Ok() && sent == old(sent) + [Extra(b)]
    {
      hide Put, PutAll, ShortCodes, Counted, Writer.Kept, Writer.Refused;
      if gather {
        CountOthers(counts[..], base, isDC, tbl, sent, [Extra(b)]);
      } else {
        assert ts.Covers([Extra(b)]);
        WroteOneMore(w, ts, s0, sent, before, Extra(b));
      }
      sent := sent + [Extra(b)];
    }

    /** Nothing to emit. */
    ghost method NoteNothing()
      requires Ok()
      modifies `sent
      ensures Ok() && sent == old(sent) + [Extra([])]
    {
      PutNothing(w.State());
      NoteExtra(w.State(), []);
    }

    /** emit_buffered_bits: n bits of a buffer that holds one per element. */
    method EmitBuffered(buf: array<nat>, from: nat, n: nat) returns (r: Outcome)
      requires Ok() && from + n <= buf.Length && buf as object != w.dest.buffer
      modifies `sent, w, w.dest, w.dest.buffer
      ensures gather ==> unchanged(w) && unchanged(w.dest) && unchanged(w.dest.buffer)
      ensures w.dest.buffer == old(w.dest.buffer) || fresh(w.dest.buffer)
      ensures r.Done? ==> Ok() && sent == old(sent) + [Extra(BufferedBits(old(buf[..]), from, n))]
      ensures !r.Done? ==> !gather && r == Error(CantSuspend) && w.Refused()
    {
      hide Put, PutAll, ShortCodes, Counted, Writer.Kept, Writer.Refused, WroteAll, BitsOf;
      ghost var before, c := w.State(), BufferedBits(buf[..], from, n);
      StartBuffered(before, c);
      if !gather {
        WroteMeaning(w, ts, s0, sent);
        var i := 0;
        while i < n
          invariant i <= n && w.Valid() && w.State() == Put(before, c[..i]) && sent == old(sent)
          invariant w.dest.buffer == old(w.dest.buffer) || fresh(w.dest.buffer)
        {
          r := EmitRaw(buf[from + i], 1);
          if !r.Done? {
            return;
          }
          OneMoreBuffered(before, buf[..], from, n, i);
          i := i + 1;
        }
        assert c[..n] == c;
      }
      NoteExtra(before, c);
      r := Done;
    }

    /** Flush and write a restart marker, unless only counting. */
    method EmitRestart(num: nat) returns (r: Outcome)
      requires Ok() && num < 8
      modifies `sent, w, w.dest, w.dest.buffer
      ensures gather ==> unchanged(w) && unchanged(w.dest) && unchanged(w.dest.buffer)
      ensures w.dest.buffer == old(w.dest.buffer) || fresh(w.dest.buffer)
      ensures r.Done? ==> Ok() && sent == old(sent) + [Mark(num)]
      ensures !r.Done? ==> !gather && r == Error(CantSuspend) && w.Refused()
    {
      hide Put, PutAll, PutItem, ShortCodes, Counted, Writer.Kept, Writer.Refused, WroteAll;
      ghost var mark := [Mark(num)];
      if gather {
        CountOthers(counts[..], base, isDC, tbl, sent, mark);
        r := Done;
      } else {
        ghost var before := w.State();
        WroteMeaning(w, ts, s0, sent);
        r := w.EmitRestart(num);
        if !r.Done? {
          return Error(CantSuspend);
        }
        MarkIsCovered(ts, num);
        WroteOneMore(w, ts, s0, sent, before, Mark(num));
      }
      sent := sent + mark;
    }
  }

  /** Correction bits, one per element. */
  function BufferedBits(s: seq<nat>, from: nat, n: nat): (c: Bits)
    requires from + n <= |s|
    ensures |c| == n
  {
    seq(n, i requires 0 <= i < n => s[from + i] % 2 == 1)
  }

  lemma StartBuffered(s: Sink, c: Bits)
    ensures |s.pending| < 8 ==> Put(s, c[..0]) == s
  {
    assert c[..0] == [];
    if |s.pending| < 8 {
      PutNothing(s);
    }
  }

  lemma OneMoreBuffered(before: Sink, s: seq<nat>, from: nat, n: nat, i: nat)
    requires from + n <= |s| && i < n
    ensures var c := BufferedBits(s, from, n);
            Put(Put(before, c[..i]), BitsOf(s[from + i], 1)) == Put(before, c[..i + 1])
  {
    hide *;
    var c := BufferedBits(s, from, n);
    BufferedAt(s, from, n, i);
    OneBit(s[from + i]);
    PutPut(before, c[..i], [c[i]]);
    assert c[..i] + [c[i]] == c[..i + 1];
  }

  lemma BufferedAt(s: seq<nat>, from: nat, n: nat, i: nat)
    requires from + n <= |s| && i < n
    ensures BufferedBits(s, from, n)[i] == (s[from + i] % 2 == 1)
  {
  }

  lemma OneBit(v: int)
    ensures BitsOf(v, 1) == [v % 2 == 1]
  {
    assert BitsOf(v / 2, 0) == [];
  }

  lemma NoCode(ts: Coder, isDC: bool, tbl: nat, sym: byte)
    requires tbl < NUM_HUFF_TBLS && ts.At(isDC, tbl).ehufsi[sym] == 0
    ensures !ts.Covers([Symbol(isDC, tbl, sym)])
  {
    assert [Symbol(isDC, tbl, sym)][0] == Symbol(isDC, tbl, sym);
  }

  lemma MarkIsCovered(ts: Coder, num: nat)
    ensures ts.Covers([Mark(num)])
  {
  }

  lemma CodeIsShort(ts: Coder, isDC: bool, tbl: nat, sym: byte)
    requires ShortCodes(ts) && tbl < NUM_HUFF_TBLS
    ensures ts.At(isDC, tbl).ehufsi[sym] <= 16
  {
  }

  lemma WroteMeaning(w: Writer, ts: Coder, s: Sink, tokens: seq<Token>)
    requires WroteAll(w, ts, s, tokens)
    ensures WellNumbered(Items(ts, tokens)) && w.State() == PutAll(s, Items(ts, tokens))
  {
  }
}
