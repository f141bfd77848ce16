/**
 Huffman tables as a JPEG file carries them (section C.2 of ITU-T T.81), the
 canonical code they stand for, and the decoder of section F.2.2.3.
 */
module HuffmanCode {
  import opened BitString
  import opened ByteStream

  /** bits[l] symbols have codes of length l; huffval lists them by increasing length. */
  datatype HuffTable = HuffTable(bits: seq<byte>, huffval: seq<byte>) {
    predicate WellFormed() {
      |bits| == 17 && |huffval| == 256
    }
  }

  /** The position in huffval of the first symbol of length l. */
  function CountBelow(bits: seq<nat>, l: nat): (n: nat)
    requires l <= |bits|
  {
    if l <= 1 then 0 else CountBelow(bits, l - 1) + bits[l - 1]
  }

  /** The smallest code of length l. */
  function FirstCode(bits: seq<nat>, l: nat): (c: nat)
    requires l <= |bits|
  {
    if l <= 1 then 0 else 2 * (FirstCode(bits, l - 1) + bits[l - 1])
  }

  /** The codes of length l fit into l bits without using the all-ones code. */
  predicate Fits(bits: seq<nat>, l: nat)
    requires l < |bits|
  {
    FirstCode(bits, l) + bits[l] < Pow2(l)
  }

  /** Enough room at every length, with the all-ones code left free. */
  predicate LegalCode(bits: seq<nat>) {
    && |bits| == 17
    && CountBelow(bits, 17) <= 256
    && forall l :: 1 <= l <= 16 ==> Fits(bits, l)
  }

  function EmptyTable(): (t: HuffTable)
    ensures t.WellFormed() && LegalCode(t.bits)
  {
    var bits := seq(17, _ => 0);
    NoSymbols(bits, 17);
    HuffTable(bits, seq(256, _ => 0))
  }

  lemma {:induction false} NoSymbols(bits: seq<nat>, l: nat)
    requires |bits| == 17 && l <= 17 && forall k :: 0 <= k < 17 ==> bits[k] == 0
    ensures CountBelow(bits, l) == 0 && FirstCode(bits, l) == 0
    ensures forall k :: 1 <= k < l ==> Fits(bits, k)
  {
    if l > 0 {
      NoSymbols(bits, l - 1);
    }
  }

  /** A table a decoder can work with. */
  type LegalTable = t: HuffTable | t.WellFormed() && LegalCode(t.bits) witness EmptyTable()

  /** Position p of huffval holds a symbol of length l. */
  predicate InClass(bits: seq<nat>, l: nat, p: nat)
    requires |bits| == 17
  {
    1 <= l <= 16 && CountBelow(bits, l) <= p < CountBelow(bits, l + 1)
  }

  function CodeAt(bits: seq<nat>, l: nat, p: nat): (c: nat)
    requires |bits| == 17 && InClass(bits, l, p)
  {
    FirstCode(bits, l) + (p - CountBelow(bits, l))
  }

  /** The 1-1 part of a table: no symbol is listed twice and none exceeds the limit. */
  predicate SymbolsFit(t: HuffTable, maxSymbol: nat)
    requires t.WellFormed() && CountBelow(t.bits, 17) <= 256
  {
    && (forall p :: 0 <= p < CountBelow(t.bits, 17) ==> t.huffval[p] <= maxSymbol)
    && (forall p, q :: 0 <= p < q < CountBelow(t.bits, 17) ==> t.huffval[p] != t.huffval[q])
  }

  lemma {:induction false} CountBelowMonotone(bits: seq<nat>, i: nat, l: nat)
    requires i <= l <= |bits|
    ensures CountBelow(bits, i) <= CountBelow(bits, l)
  {
    if i < l {
      CountBelowMonotone(bits, i, l - 1);
    }
  }

  lemma ClassBounds(bits: seq<nat>, l: nat, p: nat)
    requires |bits| == 17 && InClass(bits, l, p)
    ensures p < CountBelow(bits, 17)
  {
    CountBelowMonotone(bits, l + 1, 17);
  }

  /** Longer codes start above everything used at a shorter length. */
  lemma {:induction false} FirstCodeGrows(bits: seq<nat>, i: nat, l: nat)
    requires 1 <= i < l <= |bits|
    ensures FirstCode(bits, l) >= (FirstCode(bits, i) + bits[i]) * Pow2(l - i)
  {
    var used := FirstCode(bits, i) + bits[i];
    if i + 1 == l {
      assert Pow2(1) == 2;
    } else {
      FirstCodeGrows(bits, i, l - 1);
      assert Pow2(l - i) == 2 * Pow2(l - 1 - i);
      DoubleProduct(used, Pow2(l - 1 - i));
    }
  }

  lemma DoubleProduct(a: nat, b: nat)
    ensures a * (2 * b) == 2 * (a * b)
  {
  }

  // ----- the decoder of Figure F.16

  function DecodeFrom(t: LegalTable, input: Bits, l: nat): (r: Option<(byte, Bits)>)
    requires 1 <= l <= 17
    ensures r.Some? ==> |r.value.1| < |input|
    decreases 17 - l
  {
    if l > 16 || l > |input| then None
    else
      var code := Val(input[..l]);
      if FirstCode(t.bits, l) <= code < FirstCode(t.bits, l) + t.bits[l] then
        CountBelowMonotone(t.bits, l + 1, 17);
        Some((t.huffval[CountBelow(t.bits, l) + code - FirstCode(t.bits, l)], input[l..]))
      else DecodeFrom(t, input, l + 1)
  }

  function DecodeSymbol(t: LegalTable, input: Bits): (r: Option<(byte, Bits)>)
    ensures r.Some? ==> |r.value.1| < |input|
  {
    DecodeFrom(t, input, 1)
  }

  lemma CodeFits(bits: seq<nat>, l: nat, p: nat)
    requires LegalCode(bits) && InClass(bits, l, p)
    ensures CodeAt(bits, l, p) < Pow2(l) - 1
    ensures Val(BitsOf(CodeAt(bits, l, p), l)) == CodeAt(bits, l, p)
  {
    assert Fits(bits, l);
    var code, limit := CodeAt(bits, l, p), Pow2(l);
    ValBitsOf(code, l);
    assert code < limit - 1;
    DivModUnique(code, limit, 0, code);
  }

  /** No shorter prefix of a code is taken for a symbol. */
  lemma PrefixNotAccepted(bits: seq<nat>, l: nat, p: nat, i: nat)
    requires LegalCode(bits) && InClass(bits, l, p) && 1 <= i < l
    ensures Val(BitsOf(CodeAt(bits, l, p), l)[..i]) >= FirstCode(bits, i) + bits[i]
  {
    var code, d := CodeAt(bits, l, p), Pow2(l - i);
    CodeFits(bits, l, p);
    ValPrefix(BitsOf(code, l), i);
    FirstCodeGrows(bits, i, l);
    QuotientAtLeast(code, d, FirstCode(bits, i) + bits[i]);
  }

  lemma QuotientAtLeast(x: nat, d: nat, q: nat)
    requires d > 0 && x >= q * d
    ensures x / d >= q
  {
    if x / d < q {
      MulMonotone(x / d + 1, q, d);
    }
  }

  lemma {:induction false} DecodeFromFinds(t: LegalTable, l: nat, p: nat, i: nat, tail: Bits)
    requires InClass(t.bits, l, p) && 1 <= i <= l
    ensures p < 256
    ensures DecodeFrom(t, BitsOf(CodeAt(t.bits, l, p), l) + tail, i) == Some((t.huffval[p], tail))
    decreases l - i
  {
    ClassBounds(t.bits, l, p);
    hide LegalCode, CountBelow, FirstCode, Val, BitsOf, DecodeFrom;
    var code := BitsOf(CodeAt(t.bits, l, p), l);
    assert (code + tail)[..i] == code[..i];
    if i < l {
      PrefixNotAccepted(t.bits, l, p, i);
      SkipLength(t, code + tail, i);
      DecodeFromFinds(t, l, p, i + 1, tail);
    } else {
      CodeFits(t.bits, l, p);
      assert code[..i] == code && (code + tail)[i..] == tail;
      AcceptLength(t, code + tail, l, p);
    }
  }

  lemma SkipLength(t: LegalTable, input: Bits, l: nat)
    requires 1 <= l <= 16 && l <= |input| && Val(input[..l]) >= FirstCode(t.bits, l) + t.bits[l]
    ensures DecodeFrom(t, input, l) == DecodeFrom(t, input, l + 1)
  {
  }

  lemma AcceptLength(t: LegalTable, input: Bits, l: nat, p: nat)
    requires InClass(t.bits, l, p) && p < 256 && l <= |input| && Val(input[..l]) == CodeAt(t.bits, l, p)
    ensures DecodeFrom(t, input, l) == Some((t.huffval[p], input[l..]))
  {
  }

  // ----- the encoder's derived table

  /** Code and size indexed by symbol; size 0 marks a symbol without a code. */
  datatype DerivedTable = DerivedTable(ehufco: seq<nat>, ehufsi: seq<nat>) {
    predicate WellFormed() {
      |ehufco| == 256 && |ehufsi| == 256
    }

    predicate Codes(sym: byte)
      requires WellFormed()
    {
      ehufsi[sym] != 0
    }

    function CodeBits(sym: byte): Bits
      requires WellFormed()
    {
      BitsOf(ehufco[sym], ehufsi[sym])
    }
  }

  /** `sym` stands at position p of the table and carries that position's code. */
  predicate CodedAt(t: HuffTable, d: DerivedTable, sym: byte, p: nat)
    requires t.WellFormed() && d.WellFormed()
  {
    && p < 256
    && t.huffval[p] == sym
    && InClass(t.bits, d.ehufsi[sym], p)
    && d.ehufco[sym] == CodeAt(t.bits, d.ehufsi[sym], p)
  }

  ghost predicate Derives(t: HuffTable, d: DerivedTable) {
    && t.WellFormed() && d.WellFormed() && LegalCode(t.bits)
    && (forall p :: 0 <= p < CountBelow(t.bits, 17) ==> CodedAt(t, d, t.huffval[p], p))
    && (forall sym: byte :: d.Codes(sym) ==> exists p :: CodedAt(t, d, sym, p))
  }

  /** Decoding undoes encoding, whatever bits follow. */
  lemma DecodeInvertsCode(t: HuffTable, d: DerivedTable, sym: byte, tail: Bits)
    requires Derives(t, d) && d.Codes(sym)
    ensures DecodeSymbol(t, d.CodeBits(sym) + tail) == Some((sym, tail))
  {
    var p :| CodedAt(t, d, sym, p);
    DecodeFromFinds(t, d.ehufsi[sym], p, 1, tail);
  }

  /** No code is a prefix of another symbol's code. */
  lemma PrefixFree(t: HuffTable, d: DerivedTable, s1: byte, s2: byte)
    requires Derives(t, d) && d.Codes(s1) && d.Codes(s2) && s1 != s2
    ensures !(d.CodeBits(s1) <= d.CodeBits(s2))
  {
    var c1, c2 := d.CodeBits(s1), d.CodeBits(s2);
    DecodeInvertsCode(t, d, s2, []);
    assert c2 + [] == c2;
    if c1 <= c2 {
      var tail := c2[|c1|..];
      assert c1 + tail == c2;
      DecodeInvertsCode(t, d, s1, tail);
    }
  }

  /** Padding ones never look like a code: no code consists of ones only. */
  lemma NoCodeIsAllOnes(t: HuffTable, d: DerivedTable, sym: byte)
    requires Derives(t, d) && d.Codes(sym)
    ensures 1 <= |d.CodeBits(sym)| <= 16
    ensures d.CodeBits(sym) != Ones(|d.CodeBits(sym)|)
  {
    var p :| CodedAt(t, d, sym, p);
    var l := d.ehufsi[sym];
    CodeFits(t.bits, l, p);
    ValOnes(l);
  }

  // ----- the codes as Annex C generates them

  /** Between two lengths that are in use one after the other, codes are only shifted. */
  lemma {:induction false} ShiftedCode(bits: seq<nat>, l: nat, m: nat)
    requires 1 <= l <= m < |bits| && CountBelow(bits, l + 1) == CountBelow(bits, m)
    requires l < m
    ensures FirstCode(bits, m) == (FirstCode(bits, l) + bits[l]) * Pow2(m - l)
  {
    if m == l + 1 {
      assert Pow2(1) == 2;
    } else {
      CountBelowMonotone(bits, l + 1, m - 1);
      assert bits[m - 1] == 0;
      ShiftedCode(bits, l, m - 1);
      assert Pow2(m - l) == 2 * Pow2(m - 1 - l);
      DoubleProduct(FirstCode(bits, l) + bits[l], Pow2(m - 1 - l));
    }
  }

  /**
   Figure C.2: the first listed symbol has the code of all zeros. The next symbol's code is the
   next number, shifted to the left by as many bits as it is longer.
   */
  lemma CodesCountUp(t: HuffTable, d: DerivedTable, p: nat)
    requires Derives(t, d) && p < CountBelow(t.bits, 17)
    ensures p == 0 ==> Val(d.CodeBits(t.huffval[0])) == 0
    ensures p > 0 ==>
              var a, b := d.CodeBits(t.huffval[p - 1]), d.CodeBits(t.huffval[p]);
              |a| <= |b| && Val(b) == (Val(a) + 1) * Pow2(|b| - |a|)
  {
    hide FirstCode, Val, BitsOf, Pow2;
    var sym := t.huffval[p];
    assert CodedAt(t, d, sym, p);
    var m := d.ehufsi[sym];
    CodeFits(t.bits, m, p);
    if p == 0 {
      NothingShorter(t.bits, m);
    } else {
      var l := d.ehufsi[t.huffval[p - 1]];
      assert CodedAt(t, d, t.huffval[p - 1], p - 1);
      CodeFits(t.bits, l, p - 1);
      NextClass(t.bits, m, l, p);
      NextCode(t.bits, l, m, p);
    }
  }

  lemma NextCode(bits: seq<nat>, l: nat, m: nat, p: nat)
    requires |bits| == 17 && p > 0 && InClass(bits, l, p - 1) && InClass(bits, m, p)
    ensures l <= m && CodeAt(bits, m, p) == (CodeAt(bits, l, p - 1) + 1) * Pow2(m - l)
  {
    hide FirstCode, Pow2;
    NextClass(bits, m, l, p);
    NextClass(bits, l, m, p - 1);
    if l == m {
      NoShift();
    } else {
      CountBelowMonotone(bits, l + 1, m);
      ShiftedCode(bits, l, m);
    }
  }

  lemma NoShift()
    ensures Pow2(0) == 1
  {
  }

  // ----- jpeg_make_c_derived_tbl

  lemma {:induction false} NothingShorter(bits: seq<nat>, l: nat)
    requires l <= |bits| && CountBelow(bits, l) == 0
    ensures FirstCode(bits, l) == 0
    ensures forall i :: 1 <= i < l ==> FirstCode(bits, i) + bits[i] == 0
  {
    if l > 1 {
      NothingShorter(bits, l - 1);
    }
  }

  /** Lengths beyond the last used one never break legality. */
  lemma {:induction false} UnusedLengthsFit(bits: seq<nat>, from: nat, l: nat)
    requires |bits| == 17 && 1 <= from <= l <= 16
    requires CountBelow(bits, from) == CountBelow(bits, 17)
    requires FirstCode(bits, from) < Pow2(from)
    ensures Fits(bits, l)
  {
    CountBelowMonotone(bits, from, l);
    CountBelowMonotone(bits, l + 1, 17);
    if from < l {
      UnusedLengthsFit(bits, from, l - 1);
    }
  }

  lemma NextClass(bits: seq<nat>, l: nat, m: nat, p: nat)
    requires |bits| == 17 && InClass(bits, l, p) && m <= 17
    ensures CountBelow(bits, m) <= p ==> m <= l
    ensures CountBelow(bits, m) > p ==> m > l
  {
    if m > l {
      CountBelowMonotone(bits, l + 1, m);
    } else {
      CountBelowMonotone(bits, m, l);
    }
  }

  /** What Figure C.1 leaves in huffsize. */
  predicate SizesListed(bits: seq<nat>, huffsize: array<nat>, lastp: nat)
    requires |bits| == 17
    reads huffsize
  {
    && huffsize.Length == 257
    && lastp == CountBelow(bits, 17) <= 256
    && huffsize[lastp] == 0
    && forall q :: 0 <= q < lastp ==> InClass(bits, huffsize[q], q)
  }

  /** What Figure C.2 leaves in the first `p` places of huffcode. */
  predicate CodesListed(bits: seq<nat>, huffsize: array<nat>, huffcode: array<nat>, p: nat)
    requires |bits| == 17
    reads huffsize, huffcode
  {
    && huffsize.Length == huffcode.Length == 257 && p <= 257
    && forall q :: 0 <= q < p ==>
         InClass(bits, huffsize[q], q) && huffcode[q] == CodeAt(bits, huffsize[q], q)
  }

  /** Figure C.1: the code length at every position; None when the table overruns. */
  method ListSizes(bits: seq<byte>, huffsize: array<nat>) returns (lastp: nat, ok: bool)
    requires |bits| == 17 && huffsize.Length == 257
    modifies huffsize
    ensures ok <==> CountBelow(bits, 17) <= 256
    ensures ok ==> SizesListed(bits, huffsize, lastp)
  {
    var p := 0;
    for l := 1 to 17
      invariant p == CountBelow(bits, l) <= 256
      invariant forall q :: 0 <= q < p ==> InClass(bits, huffsize[q], q)
    {
      var i: nat := bits[l];
      if p + i > 256 {
        CountBelowMonotone(bits, l + 1, 17);
        return p, false;
      }
      while i > 0
        invariant i <= bits[l] && p == CountBelow(bits, l) + bits[l] - i <= 256
        invariant forall q :: 0 <= q < p ==> InClass(bits, huffsize[q], q)
      {
        huffsize[p] := l;
        p := p + 1;
        i := i - 1;
      }
    }
    huffsize[p] := 0;
    return p, true;
  }

  /** The inner loop of Figure C.2: consecutive codes for all symbols of length si. */
  method CodeOneLength(bits: seq<byte>, huffsize: array<nat>, lastp: nat, huffcode: array<nat>,
                       si: nat, start: nat, first: nat)
    returns (p: nat, code: nat)
    requires |bits| == 17 && huffsize != huffcode && SizesListed(bits, huffsize, lastp)
    requires 1 <= si <= 16 && start == CountBelow(bits, si) && first == FirstCode(bits, si)
    requires CodesListed(bits, huffsize, huffcode, start)
    modifies huffcode
    ensures p == CountBelow(bits, si + 1) <= lastp && code == first + bits[si]
    ensures CodesListed(bits, huffsize, huffcode, p)
  {
    p, code := start, first;
    CountBelowMonotone(bits, si + 1, 17);
    while huffsize[p] == si
      invariant start <= p <= CountBelow(bits, si + 1)
      invariant code == first + (p - start)
      invariant CodesListed(bits, huffsize, huffcode, p)
      decreases lastp - p
    {
      assert InClass(bits, si, p);
      huffcode[p] := code;
      p := p + 1;
      code := code + 1;
    }
    if p < CountBelow(bits, si + 1) {
      NextClass(bits, huffsize[p], si, p);
      NextClass(bits, huffsize[p], si + 1, p);
      assert false;
    }
  }

  /** Figure C.2: the codes themselves; false when they do not fit their lengths. */
  method GenerateCodes(bits: seq<byte>, huffsize: array<nat>, lastp: nat, huffcode: array<nat>)
    returns (ok: bool)
    requires |bits| == 17 && huffsize != huffcode && SizesListed(bits, huffsize, lastp)
    requires huffcode.Length == 257
    modifies huffcode
    ensures ok <==> LegalCode(bits)
    ensures ok ==> CodesListed(bits, huffsize, huffcode, lastp)
  {
    if huffsize[0] == 0 {
      EmptyTableFits(bits, huffsize, lastp);
      return true;
    }
    var code, si, p := 0, huffsize[0], 0;
    FirstLength(bits, huffsize, lastp);
    while huffsize[p] != 0
      invariant p <= lastp && 1 <= si <= 17
      invariant p == CountBelow(bits, si) && code == FirstCode(bits, si) < Pow2(si)
      invariant forall l :: 1 <= l < si ==> Fits(bits, l)
      invariant CodesListed(bits, huffsize, huffcode, p)
      decreases 17 - si
    {
      NextClass(bits, huffsize[p], si, p);
      p, code := CodeOneLength(bits, huffsize, lastp, huffcode, si, p, code);
      if code >= Pow2(si) {
        assert !Fits(bits, si);
        return false;
      }
      code := 2 * code;
      si := si + 1;
    }
    LaterLengthsFit(bits, si);
    return true;
  }

  lemma EmptyTableFits(bits: seq<nat>, huffsize: array<nat>, lastp: nat)
    requires |bits| == 17 && SizesListed(bits, huffsize, lastp) && huffsize[0] == 0
    ensures lastp == 0 && LegalCode(bits)
  {
    assert lastp > 0 ==> InClass(bits, huffsize[0], 0);
    NothingShorter(bits, 17);
    forall l | 1 <= l <= 16 ensures Fits(bits, l) {
    }
  }

  lemma FirstLength(bits: seq<nat>, huffsize: array<nat>, lastp: nat)
    requires |bits| == 17 && SizesListed(bits, huffsize, lastp) && huffsize[0] != 0
    ensures var si := huffsize[0];
            1 <= si <= 16 && CountBelow(bits, si) == 0 && FirstCode(bits, si) == 0
            && forall l :: 1 <= l < si ==> Fits(bits, l)
  {
    var si := huffsize[0];
    assert InClass(bits, si, 0);
    NothingShorter(bits, si);
    forall l | 1 <= l < si ensures Fits(bits, l) {
    }
  }

  lemma LaterLengthsFit(bits: seq<nat>, si: nat)
    requires |bits| == 17 && 1 <= si <= 17 && CountBelow(bits, si) == CountBelow(bits, 17) <= 256
    requires FirstCode(bits, si) < Pow2(si)
    requires forall l :: 1 <= l < si ==> Fits(bits, l)
    ensures LegalCode(bits)
  {
    forall l | 1 <= l <= 16 ensures Fits(bits, l) {
      if l >= si {
        UnusedLengthsFit(bits, si, l);
      }
    }
  }

  /** Figure C.3: code and size indexed by symbol; None on an out-of-range or repeated symbol. */
  method IndexBySymbol(t: HuffTable, maxSymbol: nat, lastp: nat, huffsize: array<nat>, huffcode: array<nat>)
    returns (r: Option<DerivedTable>)
    requires t.WellFormed() && LegalCode(t.bits) && lastp == CountBelow(t.bits, 17)
    requires CodesListed(t.bits, huffsize, huffcode, lastp)
    ensures r.Some? <==> SymbolsFit(t, maxSymbol)
    ensures r.Some? ==> Derives(t, r.value)
  {
    var co, si := new nat[256](_ => 0), new nat[256](_ => 0);
    for p := 0 to lastp
      invariant forall q :: 0 <= q < p ==>
        t.huffval[q] <= maxSymbol && si[t.huffval[q]] == huffsize[q] && co[t.huffval[q]] == huffcode[q]
      invariant forall q, q' :: 0 <= q < q' < p ==> t.huffval[q] != t.huffval[q']
      invariant forall s: byte :: si[s] != 0 ==> exists q :: 0 <= q < p && t.huffval[q] == s
    {
      var i := t.huffval[p];
      if i > maxSymbol || si[i] != 0 {
        return None;
      }
      co[i], si[i] := huffcode[p], huffsize[p];
    }
    var d := DerivedTable(co[..], si[..]);
    forall p | 0 <= p < lastp ensures CodedAt(t, d, t.huffval[p], p) {
    }
    forall s: byte | d.Codes(s) ensures exists p :: CodedAt(t, d, s, p) {
      var q :| 0 <= q < lastp && t.huffval[q] == s;
      assert CodedAt(t, d, s, q);
    }
    return Some(d);
  }

  const NUM_HUFF_TBLS := 4

  /**
   jpeg_make_c_derived_tbl: it accepts exactly the tables whose counts form a
   legal code and whose symbols are in range and distinct, and what it returns
   carries the canonical code of every listed symbol and of no other.
   */
  method MakeDerivedTable(tables: seq<Option<HuffTable>>, isDC: bool, tblno: int)
    returns (r: Option<DerivedTable>)
    requires |tables| == NUM_HUFF_TBLS
    requires forall i :: 0 <= i < NUM_HUFF_TBLS && tables[i].Some? ==> tables[i].value.WellFormed()
    ensures r.Some? <==> 0 <= tblno < NUM_HUFF_TBLS && tables[tblno].Some?
                         && LegalCode(tables[tblno].value.bits)
                         && SymbolsFit(tables[tblno].value, if isDC then 15 else 255)
    ensures r.Some? ==> Derives(tables[tblno].value, r.value)
  {
    if tblno < 0 || tblno >= NUM_HUFF_TBLS || tables[tblno].None? {
      return None;
    }
    var t := tables[tblno].value;
    var huffsize, huffcode := new nat[257], new nat[257];
    var lastp, sized := ListSizes(t.bits, huffsize);
    if !sized {
      return None;
    }
    var legal := GenerateCodes(t.bits, huffsize, lastp, huffcode);
    if !legal {
      return None;
    }
    r := IndexBySymbol(t, if isDC then 15 else 255, lastp, huffsize, huffcode);
  }
}
