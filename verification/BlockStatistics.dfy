/**
 htest_one_block of jchuff.c: the statistics pass, proved to count the very
 symbols that encode_one_block sends.
 */
module BlockStatistics {
  import opened ByteStream
  import opened Tokens
  import opened SequentialCode
  import opened SequentialScan
  import opened BlockEncoder

  /** jpeg_gen_optimal_table wants 257 entries in every count table. */
  const COUNT_SIZE := 257

  /** Since it was `base`, the table has counted exactly the symbols of its slot among the tokens. */
  predicate Counted(counts: seq<nat>, base: seq<nat>, dc: bool, tbl: nat, tokens: seq<Token>) {
    && |counts| == |base| == COUNT_SIZE
    && counts[256] == base[256]
    && forall s: byte :: counts[s] == base[s] + Occurrences(tokens, dc, tbl, s)
  }

  lemma CountedNothing(base: seq<nat>, dc: bool, tbl: nat)
    requires |base| == COUNT_SIZE
    ensures Counted(base, base, dc, tbl, [])
  {
  }

  lemma CountOne(counts: seq<nat>, base: seq<nat>, dc: bool, tbl: nat, tokens: seq<Token>, sym: byte)
    requires Counted(counts, base, dc, tbl, tokens)
    ensures Counted(counts[sym := counts[sym] + 1], base, dc, tbl, tokens + [Symbol(dc, tbl, sym)])
  {
    var all := tokens + [Symbol(dc, tbl, sym)];
    assert all[..|all| - 1] == tokens;
  }

  /** The slot does not occur among the tokens. */
  predicate Absent(dc: bool, tbl: nat, tokens: seq<Token>) {
    forall s: byte :: Symbol(dc, tbl, s) !in tokens
  }

  /** Tokens in which the slot does not occur leave its table alone. */
  lemma CountOthers(counts: seq<nat>, base: seq<nat>, dc: bool, tbl: nat, tokens: seq<Token>, more: seq<Token>)
    requires Counted(counts, base, dc, tbl, tokens)
    requires Absent(dc, tbl, more)
    ensures Counted(counts, base, dc, tbl, tokens + more)
  {
    forall s: byte ensures Occurrences(tokens + more, dc, tbl, s) == Occurrences(tokens, dc, tbl, s) {
      OccurrencesConcat(tokens, more, dc, tbl, s);
      OccursIffCounted(more, dc, tbl, s);
    }
  }

  /** Counts may be added up. */
  lemma CountMore(now: seq<nat>, mid: seq<nat>, base: seq<nat>, dc: bool, tbl: nat, a: seq<Token>, b: seq<Token>)
    requires Counted(mid, base, dc, tbl, a) && Counted(now, mid, dc, tbl, b)
    ensures Counted(now, base, dc, tbl, a + b)
  {
    forall s: byte ensures now[s] == base[s] + Occurrences(a + b, dc, tbl, s) {
      OccurrencesConcat(a, b, dc, tbl, s);
    }
  }

  // ----- the slots whose symbols a block uses

  predicate OnlySlots(tokens: seq<Token>, dcTbl: nat, acTbl: nat) {
    forall i :: 0 <= i < |tokens| && tokens[i].Symbol? ==> tokens[i].tbl == if tokens[i].dc then dcTbl else acTbl
  }

  lemma {:induction false} ZrlSlots(dcTbl: nat, tbl: nat, r: nat)
    ensures OnlySlots(ZrlTokens(tbl, r), dcTbl, tbl) && NoDc(ZrlTokens(tbl, r))
  {
    if r > 15 {
      ZrlSlots(dcTbl, tbl, r - 16);
    }
  }

  /** No DC symbols. */
  predicate NoDc(tokens: seq<Token>) {
    forall i :: 0 <= i < |tokens| && tokens[i].Symbol? ==> !tokens[i].dc
  }

  lemma {:induction false} AcSlots(z: Coefs, dcTbl: nat, tbl: nat, k: nat, r: nat)
    requires 1 <= k <= DCTSIZE2
    ensures OnlySlots(AcTokens(z, tbl, k, r), dcTbl, tbl) && NoDc(AcTokens(z, tbl, k, r))
    decreases DCTSIZE2 - k
  {
    if k < DCTSIZE2 {
      if z[k] == 0 {
        AcSlots(z, dcTbl, tbl, k + 1, r + 1);
      } else {
        AcSlots(z, dcTbl, tbl, k + 1, 0);
        ZrlSlots(dcTbl, tbl, r);
      }
    }
  }

  lemma BlockSlots(z: Coefs, pred: int, dcTbl: nat, acTbl: nat)
    ensures OnlySlots(BlockTokens(z, pred, dcTbl, acTbl), dcTbl, acTbl)
  {
    AcSlots(z, dcTbl, acTbl, 1, 0);
  }

  // ----- counting a block

  method CountZrl(counts: array<nat>, ghost tbl: nat, run: nat, ghost base: seq<nat>, ghost seen: seq<Token>)
    returns (r: nat)
    requires Counted(counts[..], base, false, tbl, seen)
    modifies counts
    ensures r == run % 16 && Counted(counts[..], base, false, tbl, seen + ZrlTokens(tbl, run))
  {
    hide Counted;
    ghost var out: seq<Token> := [];
    r := run;
    assert seen + out == seen;
    while r > 15
      invariant Counted(counts[..], base, false, tbl, seen + out)
      invariant out + ZrlTokens(tbl, r) == ZrlTokens(tbl, run) && r % 16 == run % 16
      decreases r
    {
      ghost var t := Symbol(false, tbl, 0xF0);
      assert out + ZrlTokens(tbl, r) == out + [t] + ZrlTokens(tbl, r - 16);
      Bump(counts, 0xF0, base, false, tbl, seen + out);
      Assoc(seen, out, [t]);
      out := out + [t];
      r := r - 16;
    }
    assert out + [] == out;
  }

  /** counts[sym]++ */
  method Bump(counts: array<nat>, sym: byte, ghost base: seq<nat>, ghost dc: bool, ghost tbl: nat,
              ghost seen: seq<Token>)
    requires Counted(counts[..], base, dc, tbl, seen)
    modifies counts
    ensures Counted(counts[..], base, dc, tbl, seen + [Symbol(dc, tbl, sym)])
  {
    ghost var was := counts[..];
    CountOne(was, base, dc, tbl, seen, sym);
    hide Counted, Occurrences;
    assert counts.Length == COUNT_SIZE by { CountedSize(was, base, dc, tbl, seen); }
    counts[sym] := counts[sym] + 1;
    assert counts[..] == was[sym := was[sym] + 1];
  }

  lemma CountedSize(counts: seq<nat>, base: seq<nat>, dc: bool, tbl: nat, tokens: seq<Token>)
    requires Counted(counts, base, dc, tbl, tokens)
    ensures |counts| == COUNT_SIZE == |base|
  {
  }

  method CountCoef(counts: array<nat>, ghost tbl: nat, run: nat, v: int, ghost base: seq<nat>, ghost seen: seq<Token>)
    returns (ok: bool)
    requires Counted(counts[..], base, false, tbl, seen) && v != 0
    modifies counts
    ensures ok <==> NumBits(Abs(v)) <= MAX_COEF_BITS
    ensures ok ==> Counted(counts[..], base, false, tbl, seen + (ZrlTokens(tbl, run) + CoefTokens(tbl, run, v)))
  {
    hide Counted, ZrlTokens, MagnitudeBits;
    ghost var zrl, sym, extra := ZrlTokens(tbl, run), Symbol(false, tbl, AcSymbol(run, v)), Extra(MagnitudeBits(v));
    assert CoefTokens(tbl, run, v) == [sym, extra];
    var r := CountZrl(counts, tbl, run, base, seen);
    var temp := v;
    if temp < 0 {
      temp := -temp;
    }
    var nbits := CountBits(temp);
    if nbits > MAX_COEF_BITS {
      return false;
    }
    assert r * 16 + nbits == AcSymbol(run, v);
    Bump(counts, r * 16 + nbits, base, false, tbl, seen + zrl);
    CountOthers(counts[..], base, false, tbl, seen + zrl + [sym], [extra]);
    assert seen + zrl + [sym] + [extra] == seen + (zrl + [sym, extra]);
    return true;
  }

  method CountAc(counts: array<nat>, order: seq<nat>, block: Coefs, ghost tbl: nat, ghost base: seq<nat>,
                 ghost seen: seq<Token>)
    returns (ok: bool)
    requires Counted(counts[..], base, false, tbl, seen) && IsOrder(order)
    modifies counts
    ensures var z := Zigzag(order, block);
            && (ok <==> AcInRange(z))
            && (ok ==> Counted(counts[..], base, false, tbl, seen + AcTokens(z, tbl, 1, 0)))
  {
    hide Counted, ZrlTokens, CoefTokens, NumBits;
    ghost var z, out: seq<Token> := Zigzag(order, block), [];
    assert seen + out == seen;
    assert out + AcTokens(z, tbl, 1, 0) == AcTokens(z, tbl, 1, 0);
    var r := 0;
    for k := 1 to DCTSIZE2
      invariant Counted(counts[..], base, false, tbl, seen + out)
      invariant out + AcTokens(z, tbl, k, r) == AcTokens(z, tbl, 1, 0)
      invariant forall i :: 1 <= i < k ==> NumBits(Abs(z[i])) <= MAX_COEF_BITS
    {
      var temp := block[order[k]];
      if temp == 0 {
        r := r + 1;
        ZeroHasNoBits();
      } else {
        ghost var coef := ZrlTokens(tbl, r) + CoefTokens(tbl, r, temp);
        Assoc(out, coef, AcTokens(z, tbl, k + 1, 0));
        ok := CountCoef(counts, tbl, r, temp, base, seen + out);
        if !ok {
          assert z[k] == temp;
          return;
        }
        Assoc(seen, out, coef);
        out := out + coef;
        r := 0;
      }
    }
    if r > 0 {
      Bump(counts, 0, base, false, tbl, seen + out);
      Assoc(seen, out, [Symbol(false, tbl, 0)]);
    } else {
      assert out + [] == out;
    }
    return true;
  }

  method CountDc(counts: array<nat>, diff: int, ghost tbl: nat, ghost base: seq<nat>, ghost seen: seq<Token>)
    returns (ok: bool)
    requires Counted(counts[..], base, true, tbl, seen)
    modifies counts
    ensures ok <==> DcInRange(diff)
    ensures ok ==> Counted(counts[..], base, true, tbl, seen + DcTokens(diff, tbl))
  {
    hide Counted, MagnitudeBits;
    var temp := diff;
    if temp < 0 {
      temp := -temp;
    }
    var nbits := CountBits(temp);
    if nbits > MAX_COEF_BITS + 1 {
      return false;
    }
    ghost var sym, extra := Symbol(true, tbl, nbits), Extra(MagnitudeBits(diff));
    Bump(counts, nbits, base, true, tbl, seen);
    if diff != 0 {
      assert DcTokens(diff, tbl) == [sym] + [extra];
      CountOthers(counts[..], base, true, tbl, seen + [sym], [extra]);
      Assoc(seen, [sym], [extra]);
    }
    return true;
  }

  /** htest_one_block: false exactly when the block is out of range. */
  method HtestOneBlock(dcCounts: array<nat>, acCounts: array<nat>, order: seq<nat>, block: Coefs, pred: int,
                       ghost dcTbl: nat, ghost acTbl: nat)
    returns (ok: bool)
    requires dcCounts != acCounts && dcCounts.Length == acCounts.Length == COUNT_SIZE && IsOrder(order)
    modifies dcCounts, acCounts
    ensures ok <==> BlockInRange(Zigzag(order, block), pred)
    ensures var tokens := BlockTokens(Zigzag(order, block), pred, dcTbl, acTbl);
            ok ==>
              && Counted(dcCounts[..], old(dcCounts[..]), true, dcTbl, tokens)
              && Counted(acCounts[..], old(acCounts[..]), false, acTbl, tokens)
  {
    hide Counted, DcTokens, AcTokens, DcInRange, AcInRange, Zigzag, IsOrder, Absent;
    ghost var z := Zigzag(order, block);
    ghost var diff := z[0] - pred;
    ghost var dc, ac := DcTokens(diff, dcTbl), AcTokens(z, acTbl, 1, 0);
    ghost var dcBase, acBase := dcCounts[..], acCounts[..];
    CountedNothing(dcBase, true, dcTbl);
    CountedNothing(acBase, false, acTbl);
    assert [] + dc == dc;
    ok := CountDc(dcCounts, block[0] - pred, dcTbl, dcBase, []);
    if ok {
      AcHasNoDc(z, dcTbl, acTbl);
      DcHasNoAc(diff, dcTbl, acTbl);
      CountOthers(dcCounts[..], dcBase, true, dcTbl, dc, ac);
      CountOthers(acCounts[..], acBase, false, acTbl, [], dc);
      ok := CountAc(acCounts, order, block, acTbl, acBase, dc);
    }
  }

  lemma DcHasNoAc(diff: int, dcTbl: nat, acTbl: nat)
    ensures Absent(false, acTbl, DcTokens(diff, dcTbl))
  {
  }

  lemma AcHasNoDc(z: Coefs, dcTbl: nat, acTbl: nat)
    ensures Absent(true, dcTbl, AcTokens(z, acTbl, 1, 0))
  {
    AcSlots(z, dcTbl, acTbl, 1, 0);
    hide AcTokens;
  }
}
