/**
 What the Huffman entropy coders send, before it becomes bits: Huffman symbols,
 literal bits, and restart markers; with the magnitude categories of section
 F.1.2.1 of ITU-T T.81 shared by all coding modes.
 */
module Tokens {
  import opened BitString
  import opened ByteStream
  import opened HuffmanCode

  const DCTSIZE2 := 64
  const MAX_COEF_BITS := 10

  datatype Token =
    | Symbol(dc: bool, tbl: nat, sym: byte)   // a Huffman symbol of a DC or AC table
    | Extra(bits: Bits)                       // literal bits
    | Mark(num: nat)                          // a restart marker

  /** The table slots of a scan. */
  datatype Tables = Tables(dc: seq<DerivedTable>, ac: seq<DerivedTable>) {
    predicate WellFormed() {
      && |dc| == NUM_HUFF_TBLS && |ac| == NUM_HUFF_TBLS
      && (forall i :: 0 <= i < NUM_HUFF_TBLS ==> dc[i].WellFormed() && ac[i].WellFormed())
    }

    function At(isDC: bool, tbl: nat): DerivedTable
      requires WellFormed() && tbl < NUM_HUFF_TBLS
    {
      if isDC then dc[tbl] else ac[tbl]
    }

    /** Every symbol among the tokens has a code. */
    predicate Covers(tokens: seq<Token>)
      requires WellFormed()
    {
      forall i :: 0 <= i < |tokens| && tokens[i].Symbol? ==>
        tokens[i].tbl < NUM_HUFF_TBLS && At(tokens[i].dc, tokens[i].tbl).Codes(tokens[i].sym)
    }
  }

  const NO_TABLE := DerivedTable(seq(256, _ => 0), seq(256, _ => 0))

  /** The derived tables an encoder uses, one slot per table number. */
  type Coder = ts: Tables | ts.WellFormed()
    witness Tables(seq(NUM_HUFF_TBLS, _ => NO_TABLE), seq(NUM_HUFF_TBLS, _ => NO_TABLE))

  function ItemOf(ts: Coder, t: Token): Item
    requires t.Symbol? ==> t.tbl < NUM_HUFF_TBLS
  {
    match t
    case Symbol(dc, tbl, sym) => Data(ts.At(dc, tbl).CodeBits(sym))
    case Extra(b) => Data(b)
    case Mark(n) => Restart(n)
  }

  function Items(ts: Coder, tokens: seq<Token>): (items: seq<Item>)
    requires ts.Covers(tokens)
    ensures |items| == |tokens|
  {
    seq(|tokens|, i requires 0 <= i < |tokens| => ItemOf(ts, tokens[i]))
  }

  lemma ItemsConcat(ts: Coder, a: seq<Token>, b: seq<Token>)
    requires ts.Covers(a) && ts.Covers(b)
    ensures ts.Covers(a + b) && Items(ts, a + b) == Items(ts, a) + Items(ts, b)
  {
  }

  lemma CoversParts(ts: Coder, a: seq<Token>, b: seq<Token>)
    requires ts.Covers(a + b)
    ensures ts.Covers(a) && ts.Covers(b)
  {
    forall i | 0 <= i < |a| && a[i].Symbol?
      ensures a[i].tbl < NUM_HUFF_TBLS && ts.At(a[i].dc, a[i].tbl).Codes(a[i].sym)
    {
      assert (a + b)[i] == a[i];
    }
    forall i | 0 <= i < |b| && b[i].Symbol?
      ensures b[i].tbl < NUM_HUFF_TBLS && ts.At(b[i].dc, b[i].tbl).Codes(b[i].sym)
    {
      assert (a + b)[|a| + i] == b[i];
    }
  }

  predicate NoMarks(tokens: seq<Token>) {
    forall i :: 0 <= i < |tokens| ==> !tokens[i].Mark?
  }

  lemma NoMarksConcat(a: seq<Token>, b: seq<Token>)
    requires NoMarks(a) && NoMarks(b)
    ensures NoMarks(a + b)
  {
  }

  /** Tokens that can be sent as plain bits. */
  predicate Sendable(ts: Coder, tokens: seq<Token>) {
    ts.Covers(tokens) && NoMarks(tokens)
  }

  lemma SendableParts(ts: Coder, a: seq<Token>, b: seq<Token>)
    requires Sendable(ts, a + b)
    ensures Sendable(ts, a) && Sendable(ts, b)
  {
    CoversParts(ts, a, b);
    forall i | 0 <= i < |a| ensures !a[i].Mark? {
      assert (a + b)[i] == a[i];
    }
    forall i | 0 <= i < |b| ensures !b[i].Mark? {
      assert (a + b)[|a| + i] == b[i];
    }
  }

  /** The bits of tokens without markers. */
  function TokenBits(ts: Coder, tokens: seq<Token>): (b: Bits)
    requires Sendable(ts, tokens)
  {
    if tokens == [] then []
    else
      assert tokens == tokens[..1] + tokens[1..];
      SendableParts(ts, tokens[..1], tokens[1..]);
      ItemOf(ts, tokens[0]).bits + TokenBits(ts, tokens[1..])
  }

  lemma {:induction false} TokenBitsConcat(ts: Coder, a: seq<Token>, b: seq<Token>)
    requires Sendable(ts, a) && Sendable(ts, b)
    ensures Sendable(ts, a + b) && TokenBits(ts, a + b) == TokenBits(ts, a) + TokenBits(ts, b)
  {
    if a == [] {
      assert a + b == b;
    } else {
      assert (a + b)[1..] == a[1..] + b;
      assert a == a[..1] + a[1..];
      SendableParts(ts, a[..1], a[1..]);
      TokenBitsConcat(ts, a[1..], b);
    }
  }

  lemma FirstTokenBits(ts: Coder, t: Token, more: seq<Token>)
    requires Sendable(ts, [t] + more)
    ensures Sendable(ts, more) && !t.Mark? && (t.Symbol? ==> t.tbl < NUM_HUFF_TBLS)
    ensures TokenBits(ts, [t] + more) == ItemOf(ts, t).bits + TokenBits(ts, more)
  {
    var all := [t] + more;
    SendableParts(ts, [t], more);
    assert all[0] == t && all[1..] == more;
  }

  /** How often a symbol occurs among the tokens. */
  function Occurrences(tokens: seq<Token>, dc: bool, tbl: nat, sym: byte): (n: nat)
    ensures n <= |tokens|
  {
    if tokens == [] then 0
    else Occurrences(tokens[..|tokens| - 1], dc, tbl, sym)
         + if tokens[|tokens| - 1] == Symbol(dc, tbl, sym) then 1 else 0
  }

  lemma {:induction false} OccurrencesConcat(a: seq<Token>, b: seq<Token>, dc: bool, tbl: nat, sym: byte)
    ensures Occurrences(a + b, dc, tbl, sym) == Occurrences(a, dc, tbl, sym) + Occurrences(b, dc, tbl, sym)
  {
    if b == [] {
      assert a + b == a;
    } else {
      assert (a + b)[..|a + b| - 1] == a + b[..|b| - 1];
      OccurrencesConcat(a, b[..|b| - 1], dc, tbl, sym);
    }
  }

  lemma {:induction false} OccursIffCounted(tokens: seq<Token>, dc: bool, tbl: nat, sym: byte)
    ensures Occurrences(tokens, dc, tbl, sym) > 0 <==> Symbol(dc, tbl, sym) in tokens
  {
    if tokens != [] {
      OccursIffCounted(tokens[..|tokens| - 1], dc, tbl, sym);
      assert tokens == tokens[..|tokens| - 1] + [tokens[|tokens| - 1]];
    }
  }

  // ----- magnitude categories

  function Abs(v: int): nat {
    if v < 0 then -v else v
  }

  /** The number of bits of a magnitude: the category SSSS of Tables F.1 and F.2. */
  function NumBits(v: nat): (n: nat)
    ensures n == 0 <==> v == 0
  {
    if v == 0 then 0 else 1 + NumBits(v / 2)
  }

  lemma {:induction false} NumBitsBounds(v: nat)
    ensures v < Pow2(NumBits(v))
    ensures v > 0 ==> NumBits(v) > 0 && Pow2(NumBits(v) - 1) <= v
  {
    if v > 0 {
      NumBitsBounds(v / 2);
    }
  }

  /** The low-order bits sent for a value: its own, or those of v - 1 when negative. */
  function MagnitudeBits(v: int): (b: Bits)
    ensures |b| == NumBits(Abs(v))
  {
    BitsOf(if v < 0 then v - 1 else v, NumBits(Abs(v)))
  }

  /** The decoder's EXTEND procedure (Figure F.12) on the received bits. */
  function Extend(b: Bits): int {
    if b == [] then 0
    else if Val(b) < Pow2(|b| - 1) then Val(b) - Pow2(|b|) + 1
    else Val(b)
  }

  /** EXTEND recovers every value from the bits sent for it. */
  lemma ExtendInverts(v: int)
    ensures Extend(MagnitudeBits(v)) == v
  {
    hide BitsOf, Val, NumBits;
    var n := NumBits(Abs(v));
    NumBitsBounds(Abs(v));
    if v > 0 {
      ValBitsOf(v, n);
      DivModUnique(v, Pow2(n), 0, v);
    } else if v < 0 {
      ValBitsOf(v - 1, n);
      DivModUnique(v - 1, Pow2(n), -1, v - 1 + Pow2(n));
      assert Pow2(n) == 2 * Pow2(n - 1);
    }
  }
}
