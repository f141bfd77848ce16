/**
 Bit strings, most significant bit first, and the numbers they denote.
 Everything the entropy coders send is described by values of type `Bits`.
 */
module BitString {

  type Bits = seq<bool>

  function Pow2(n: nat): (p: nat)
    ensures p >= 1
  {
    if n == 0 then 1 else 2 * Pow2(n - 1)
  }

  /** The number a bit string denotes. */
  function Val(b: Bits): (v: nat)
    ensures v < Pow2(|b|)
  {
    if b == [] then 0
    else 2 * Val(b[..|b| - 1]) + (if b[|b| - 1] then 1 else 0)
  }

  /** The `n` low-order bits of `v`; negative numbers are in two's complement. */
  function BitsOf(v: int, n: nat): (b: Bits)
    ensures |b| == n
    decreases n
  {
    if n == 0 then [] else BitsOf(v / 2, n - 1) + [v % 2 == 1]
  }

  function Ones(n: nat): (b: Bits)
    ensures |b| == n
  {
    seq(n, _ => true)
  }

  // ----- powers of two

  lemma {:induction false} Pow2Add(m: nat, n: nat)
    ensures Pow2(m + n) == Pow2(m) * Pow2(n)
  {
    if m == 0 {
    } else {
      Pow2Add(m - 1, n);
      assert Pow2(m + n) == 2 * (Pow2(m - 1) * Pow2(n));
    }
  }

  lemma {:induction false} Pow2Monotone(m: nat, n: nat)
    requires m <= n
    ensures Pow2(m) <= Pow2(n)
  {
    if m < n {
      Pow2Monotone(m, n - 1);
    }
  }

  lemma Pow2Constants()
    ensures Pow2(1) == 2 && Pow2(4) == 16 && Pow2(8) == 256
    ensures Pow2(16) == 65536 && Pow2(24) == 0x100_0000 && Pow2(32) == 0x1_0000_0000
  {
    assert Pow2(4) == 16;
    assert Pow2(8) == 256 by { Pow2Add(4, 4); }
    assert Pow2(16) == 65536 by { Pow2Add(8, 8); }
    assert Pow2(24) == 0x100_0000 by { Pow2Add(16, 8); }
    assert Pow2(32) == 0x1_0000_0000 by { Pow2Add(16, 16); }
  }

  // ----- division facts used throughout

  lemma MulMonotone(a: int, b: int, d: int)
    requires a <= b && 0 <= d
    ensures a * d <= b * d
  {
    assert 0 <= (b - a) * d;
  }

  lemma DivModUnique(x: int, d: int, q: int, r: int)
    requires d > 0 && 0 <= r < d && x == q * d + r
    ensures x / d == q && x % d == r
  {
    var q' := x / d;
    assert q' * d + x % d == x;
    assert (q' + 1) * d == q' * d + d && (q + 1) * d == q * d + d;
    if q > q' {
      MulMonotone(q' + 1, q, d);
    } else if q < q' {
      MulMonotone(q + 1, q', d);
    }
  }

  /** Halving first, then taking the remainder, loses nothing. */
  lemma ModHalf(v: int, p: int)
    requires p > 0
    ensures v % (2 * p) == 2 * ((v / 2) % p) + v % 2
  {
    var h := v / 2;
    var q, r := h / p, h % p;
    assert h == q * p + r;
    assert v == 2 * h + v % 2;
    assert v == q * (2 * p) + (2 * r + v % 2);
    DivModUnique(v, 2 * p, q, 2 * r + v % 2);
  }

  // ----- bit strings and numbers

  lemma ScaleLast(va: nat, p: nat, vb: nat, last: nat)
    ensures 2 * (va * p + vb) + last == va * (2 * p) + (2 * vb + last)
  {
  }

  lemma {:induction false} ValConcat(a: Bits, b: Bits)
    ensures Val(a + b) == Val(a) * Pow2(|b|) + Val(b)
  {
    if b == [] {
      assert a + b == a;
    } else {
      var b', last := b[..|b| - 1], if b[|b| - 1] then 1 else 0;
      ValConcat(a, b');
      assert Val(a + b) == 2 * Val(a + b') + last by {
        assert (a + b)[..|a + b| - 1] == a + b';
      }
      ScaleLast(Val(a), Pow2(|b'|), Val(b'), last);
    }
  }

  lemma {:induction false} ValBitsOf(v: int, n: nat)
    ensures Val(BitsOf(v, n)) == v % Pow2(n)
    decreases n
  {
    if n > 0 {
      var b := BitsOf(v, n);
      assert b[..n - 1] == BitsOf(v / 2, n - 1);
      ValBitsOf(v / 2, n - 1);
      ModHalf(v, Pow2(n - 1));
    }
  }

  lemma {:induction false} BitsOfVal(b: Bits)
    ensures BitsOf(Val(b), |b|) == b
  {
    if b != [] {
      var b' := b[..|b| - 1];
      BitsOfVal(b');
      assert Val(b) / 2 == Val(b');
      assert b == b' + [b[|b| - 1]];
    }
  }

  /** A bit string is determined by its length and its number. */
  lemma ValInjective(a: Bits, b: Bits)
    requires |a| == |b| && Val(a) == Val(b)
    ensures a == b
  {
    BitsOfVal(a);
    BitsOfVal(b);
  }

  lemma {:induction false} ValOnes(n: nat)
    ensures Val(Ones(n)) == Pow2(n) - 1
  {
    if n > 0 {
      assert Ones(n)[..n - 1] == Ones(n - 1);
      ValOnes(n - 1);
    }
  }

  /** The leading `k` bits of an `n`-bit number are its quotient by 2^(n-k). */
  lemma ValPrefix(b: Bits, k: nat)
    requires k <= |b|
    ensures Val(b[..k]) == Val(b) / Pow2(|b| - k)
    ensures Val(b[k..]) == Val(b) % Pow2(|b| - k)
  {
    assert b == b[..k] + b[k..];
    ValConcat(b[..k], b[k..]);
    DivModUnique(Val(b), Pow2(|b| - k), Val(b[..k]), Val(b[k..]));
  }
}
