/**
 The second half of jpeg_gen_optimal_table: counting the symbols of each length,
 the 16-bit limiter of Figure K.3, and the release of the pseudo-symbol's code.
 All of it is done on unsigned bytes; nothing wraps.
 */
module LengthLimiter {
  import opened BitString
  import opened ByteStream
  import opened HuffmanCode

  const MAX_CLEN := 32

  function Wrap8(x: int): (b: byte) {
    x % 256
  }

  /** Codes used up to length l, in units of 2^-l. */
  function Used(b: seq<nat>, l: nat): nat
    requires 1 <= l < |b|
  {
    FirstCode(b, l) + b[l]
  }

  function Total(b: seq<nat>): nat {
    CountBelow(b, |b|)
  }

  /** A code with longest length i that fills the code space exactly. */
  predicate Complete(b: seq<nat>, i: nat) {
    && |b| == MAX_CLEN + 1 && 1 <= i <= MAX_CLEN && b[0] == 0
    && (forall k :: i < k <= MAX_CLEN ==> b[k] == 0)
    && Used(b, i) == Pow2(i)
    && Total(b) <= 255
  }

  // ----- effects of one change

  lemma {:induction false} FirstCodeUpdate(b: seq<nat>, k: nat, v: nat, l: nat)
    requires 1 <= k < |b| && l <= |b|
    ensures l <= k ==> FirstCode(b[k := v], l) == FirstCode(b, l)
    ensures l > k ==> FirstCode(b[k := v], l) == FirstCode(b, l) + (v - b[k]) * Pow2(l - k)
  {
    if l > 1 {
      FirstCodeUpdate(b, k, v, l - 1);
      var b' := b[k := v];
      assert FirstCode(b, l) == 2 * (FirstCode(b, l - 1) + b[l - 1]);
      assert FirstCode(b', l) == 2 * (FirstCode(b', l - 1) + b'[l - 1]);
      hide *;
      if l > k + 1 {
        Twice(v - b[k], l - k);
      } else if l == k + 1 {
        PowersCancel(1);
      }
    }
  }

  lemma Twice(d: int, n: nat)
    requires n > 0
    ensures d * Pow2(n) == 2 * (d * Pow2(n - 1))
  {
    var p := Pow2(n - 1);
    assert Pow2(n) == 2 * p;
    assert d * (2 * p) == 2 * (d * p);
  }

  lemma {:induction false} CountUpdate(b: seq<nat>, k: nat, v: nat, l: nat)
    requires 1 <= k < |b| && l <= |b|
    ensures CountBelow(b[k := v], l) == CountBelow(b, l) + if k < l then v - b[k] else 0
  {
    if l > 1 {
      CountUpdate(b, k, v, l - 1);
    }
  }

  lemma {:induction false} EntryAtMostCount(b: seq<nat>, k: nat, l: nat)
    requires 1 <= k < l <= |b|
    ensures b[k] <= CountBelow(b, l)
  {
    if k < l - 1 {
      EntryAtMostCount(b, k, l - 1);
    }
  }

  // ----- the limiter

  /** The next shorter length that is in use. */
  function PrefixLength(b: seq<nat>, j: nat): (r: nat)
    requires j < |b| && exists k :: 1 <= k <= j && b[k] > 0
    ensures 1 <= r <= j && b[r] > 0 && forall k :: r < k <= j ==> b[k] == 0
  {
    if b[j] > 0 && j > 0 then j else PrefixLength(b, j - 1)
  }

  lemma {:induction false} NothingUpTo(b: seq<nat>, j: nat)
    requires j < |b| && forall k :: 1 <= k <= j ==> b[k] == 0
    ensures FirstCode(b, j) == 0 && CountBelow(b, j + 1) == 0
  {
    if j > 0 {
      NothingUpTo(b, j - 1);
    }
  }

  /** Above 16 bits there is always a shorter code to lengthen, at least two bits shorter. */
  lemma ShorterCodeExists(b: seq<nat>, i: nat)
    requires Complete(b, i) && 16 < i
    ensures exists k :: 1 <= k <= i - 2 && b[k] > 0
  {
    if forall k :: 1 <= k <= i - 2 ==> b[k] == 0 {
      NothingUpTo(b, i - 2);
      assert FirstCode(b, i - 1) == 2 * (FirstCode(b, i - 2) + b[i - 2]) == 0;
      assert Used(b, i) == 2 * b[i - 1] + b[i];
      EntryAtMostCount(b, i, |b|);
      EntryAtMostCount(b, i - 1, |b|);
      Pow2Monotone(16, i);
      Pow2Constants();
    }
  }

  /** Two codes of length i become one of length i-1; a shorter one of length j becomes two. */
  function Shortened(b: seq<nat>, i: nat): (r: seq<nat>)
    requires Complete(b, i) && 16 < i && b[i] > 0
  {
    ShorterCodeExists(b, i);
    PairsOnly(b, i);
    var j := PrefixLength(b, i - 2);
    var b1 := b[i := b[i] - 2];
    var b2 := b1[i - 1 := b1[i - 1] + 1];
    var b3 := b2[j + 1 := b2[j + 1] + 2];
    b3[j := b3[j] - 1]
  }

  lemma PairsOnly(b: seq<nat>, i: nat)
    requires Complete(b, i) && 1 < i && b[i] > 0
    ensures b[i] >= 2
  {
    assert Used(b, i) == 2 * Used(b, i - 1) + b[i];
    assert Pow2(i) == 2 * Pow2(i - 1);
  }

  lemma ShortenedKeeps(b: seq<nat>, i: nat)
    requires Complete(b, i) && 16 < i && b[i] > 0
    ensures Complete(Shortened(b, i), i) && Total(Shortened(b, i)) == Total(b)
    ensures Shortened(b, i)[i] == b[i] - 2
  {
    ShorterCodeExists(b, i);
    PairsOnly(b, i);
    Rebalanced(b, i, PrefixLength(b, i - 2));
    hide Pow2, Used, Total, PrefixLength;
  }

  /** Two codes less of length i and one of length j, one more of length i - 1 and two of length j + 1. */
  lemma Rebalanced(b: seq<nat>, i: nat, j: nat)
    requires 1 <= j <= i - 2 && i < |b| && b[i] >= 2 && b[j] >= 1
    ensures var b1 := b[i := b[i] - 2];
            var b2 := b1[i - 1 := b1[i - 1] + 1];
            var b3 := b2[j + 1 := b2[j + 1] + 2];
            var b4 := b3[j := b3[j] - 1];
            Used(b4, i) == Used(b, i) && Total(b4) == Total(b)
  {
    hide *;
    var b1 := b[i := b[i] - 2];
    var b2 := b1[i - 1 := b1[i - 1] + 1];
    var b3 := b2[j + 1 := b2[j + 1] + 2];
    var b4 := b3[j := b3[j] - 1];
    ChangeTotals(b, i, -2, b1, i);
    ChangeTotals(b1, i - 1, 1, b2, i);
    ChangeTotals(b2, j + 1, 2, b3, i);
    ChangeTotals(b3, j, -1, b4, i);
    PowersCancel(i - j);
  }

  lemma PowersCancel(n: nat)
    requires n > 0
    ensures Pow2(0) == 1 && Pow2(1) == 2 && Pow2(n) == 2 * Pow2(n - 1)
  {
  }

  /**
   Figure K.3: the two codes of length i become one of length i - 1, and of the longest codes that
   are at least two bits shorter one becomes two; no other length changes.
   */
  lemma ShortensTheNext(b: seq<nat>, i: nat, j: nat)
    requires Complete(b, i) && 16 < i && b[i] > 0
    requires 1 <= j <= i - 2 && b[j] > 0 && forall k :: j < k <= i - 2 ==> b[k] == 0
    ensures forall k :: 0 <= k < |b| ==>
              Shortened(b, i)[k] + (if k == i then 2 else 0) + (if k == j then 1 else 0)
                == b[k] + (if k == i - 1 then 1 else 0) + (if k == j + 1 then 2 else 0)
  {
    ShorterCodeExists(b, i);
    PairsOnly(b, i);
    assert PrefixLength(b, i - 2) == j;
  }

  lemma ChangeTotals(b: seq<nat>, k: nat, d: int, b': seq<nat>, i: nat)
    requires 1 <= k <= i < |b| && b[k] + d >= 0 && b' == b[k := b[k] + d]
    ensures Total(b') == Total(b) + d
    ensures Used(b', i) == Used(b, i) + d * Pow2(i - k)
  {
    CountUpdate(b, k, b[k] + d, |b|);
    FirstCodeUpdate(b, k, b[k] + d, i);
    PowersCancel(1);
    hide Pow2, CountBelow, FirstCode;
  }

  lemma DropEmptyLength(b: seq<nat>, i: nat)
    requires Complete(b, i) && i > 1 && b[i] == 0
    ensures Complete(b, i - 1)
  {
    assert Used(b, i) == 2 * Used(b, i - 1);
    assert Pow2(i) == 2 * Pow2(i - 1);
  }

  /** The adjustment of Figure K.3, from length i down to 16. */
  function Adjusted(b: seq<nat>, i: nat): (r: seq<nat>)
    requires Complete(b, i) && i >= 16
    ensures Complete(r, 16) && Total(r) == Total(b)
    decreases i, b[i]
  {
    if i == 16 then b
    else if b[i] > 0 then ShortenedKeeps(b, i); Adjusted(Shortened(b, i), i)
    else DropEmptyLength(b, i); Adjusted(b, i - 1)
  }

  /** The limiter loop on the bits array. */
  method LimitLengths(bits: array<byte>)
    requires Complete(bits[..], MAX_CLEN)
    modifies bits
    ensures bits[..] == Adjusted(old(bits[..]), MAX_CLEN)
  {
    ghost var goal := Adjusted(bits[..], MAX_CLEN);
    var i := MAX_CLEN;
    while i > 16
      invariant 16 <= i <= MAX_CLEN && Complete(bits[..], i)
      invariant Adjusted(bits[..], i) == goal
    {
      while bits[i] > 0
        invariant Complete(bits[..], i) && Adjusted(bits[..], i) == goal
        decreases bits[i]
      {
        ShortenOnce(bits, i);
      }
      DropEmptyLength(bits[..], i);
      i := i - 1;
    }
  }

  /** What the inner loop's body does, and that its bytes do not wrap around. */
  lemma ShortenPlan(b: seq<nat>, i: nat) returns (j: nat)
    requires Complete(b, i) && 16 < i && b[i] > 0
    ensures 1 <= j <= i - 2 && i < |b| && b[j] > 0 && (forall k :: j < k <= i - 2 ==> b[k] == 0) && b[i] >= 2
    ensures b[i - 1] + (if j == i - 2 then 3 else 1) < 256 && b[j + 1] + 2 < 256
    ensures Shortened(b, i) == var b1 := b[i := b[i] - 2];
                               var b2 := b1[i - 1 := b1[i - 1] + 1];
                               var b3 := b2[j + 1 := b2[j + 1] + 2];
                               b3[j := b3[j] - 1]
    ensures Complete(Shortened(b, i), i) && Shortened(b, i)[i] == b[i] - 2
  {
    ShorterCodeExists(b, i);
    PairsOnly(b, i);
    ShortenedKeeps(b, i);
    j := PrefixLength(b, i - 2);
    ghost var r := Shortened(b, i);
    EntryAtMostCount(r, i - 1, |r|);
    EntryAtMostCount(r, j + 1, |r|);
    hide Used, FirstCode, CountBelow, Pow2;
  }

  /** The body of the limiter's inner loop. */
  method ShortenOnce(bits: array<byte>, i: nat)
    requires Complete(bits[..], i) && 16 < i && bits[i] > 0
    modifies bits
    ensures Complete(old(bits[..]), i) && bits[..] == Shortened(old(bits[..]), i)
    ensures Complete(bits[..], i) && bits[i] < old(bits[i])
  {
    assert bits.Length == MAX_CLEN + 1;
    hide Complete, Shortened;
    ghost var p := ShortenPlan(bits[..], i);
    var j := i - 2;
    while bits[j] == 0
      invariant p <= j <= i - 2
      decreases j
    {
      j := j - 1;
    }
    MoveCodes(bits, i, j);
  }

  /** Remove two symbols; one goes in their prefix's length, and a pair below the prefix of length j. */
  method MoveCodes(bits: array<byte>, i: nat, j: nat)
    requires 1 <= j <= i - 2 && i < bits.Length && bits[i] >= 2 && bits[j] >= 1
    requires bits[i - 1] < (if j == i - 2 then 253 else 255) && bits[j + 1] < 254
    modifies bits
    ensures bits[..] == var b: seq<nat> := old(bits[..]);
                        var b1 := b[i := b[i] - 2];
                        var b2 := b1[i - 1 := b1[i - 1] + 1];
                        var b3 := b2[j + 1 := b2[j + 1] + 2];
                        b3[j := b3[j] - 1]
  {
    bits[i] := Wrap8(bits[i] - 2);
    bits[i - 1] := Wrap8(bits[i - 1] + 1);
    bits[j + 1] := Wrap8(bits[j + 1] + 2);
    bits[j] := Wrap8(bits[j] - 1);
  }
}
