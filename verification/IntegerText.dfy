/**
 Integers as text: what format_int of vsnprintf.c makes of a 64-bit value, what strntoumax.c
 makes of text, and that the one undoes the other.
 */
module IntegerText {
  const TWO_63 := 0x8000_0000_0000_0000
  const TWO_64 := 0x1_0000_0000_0000_0000

  const NUL: char := '\0'

  datatype Flags = Flags(zero: bool, minus: bool, plus: bool, tick: bool, space: bool, hash: bool, signed: bool,
                         upper: bool)

  // ----- digits

  function Digit(d: nat, upper: bool): (c: char)
    requires d < 16
  {
    if upper then "0123456789ABCDEF"[d] else "0123456789abcdef"[d]
  }

  /** The digits a number needs; none for 0. */
  function NumDigits(v: nat, base: nat): nat
    requires base >= 2
  {
    if v == 0 then 0 else 1 + NumDigits(v / base, base)
  }

  /** The k low-order digits. */
  function Digits(v: nat, base: nat, k: nat, upper: bool): (s: string)
    requires 2 <= base <= 16
    ensures |s| == k
  {
    if k == 0 then "" else Digits(v / base, base, k - 1, upper) + [Digit(v % base, upper)]
  }

  /** A tick mark before every `skip` digits from the right, the first one after b digits. */
  function Ticked(s: string, skip: nat, b: nat): string
    requires skip > 0
    decreases |s|, if b == 0 then 1 else 0
  {
    if |s| <= b then s
    else if b == 0 then Ticked(s, skip, skip) + "_"
    else Ticked(s[..|s| - b], skip, skip) + "_" + s[|s| - b..]
  }

  function Repeat(c: char, n: int): (s: string)
    ensures |s| == if n > 0 then n else 0
  {
    if n <= 0 then "" else seq(n, _ => c)
  }

  // ----- the text of a value

  predicate Negative(val: nat, flags: Flags) {
    flags.signed && val >= TWO_63
  }

  function Magnitude(val: nat, flags: Flags): nat
    requires val < TWO_64
  {
    if Negative(val, flags) then TWO_64 - val else val
  }

  /** Digits after precision, the leading zero of octal, and zero's own digit are taken into account. */
  function DigitCount(mag: nat, flags: Flags, base: nat, prec: int): (n: nat)
    requires base >= 2
    ensures n >= NumDigits(mag, base) && n > 0
  {
    var nd := NumDigits(mag, base);
    var p := if flags.hash && base == 8 && prec < nd + 1 then nd + 1 else prec;
    if nd < p then p else if mag == 0 then 1 else nd
  }

  function Number(mag: nat, flags: Flags, base: nat, prec: int): string
    requires 2 <= base <= 16
  {
    var nd := DigitCount(mag, flags, base, prec);
    var skip := if flags.tick then (if base == 16 then 4 else 3) else nd;
    Ticked(Digits(mag, base, nd, flags.upper), skip, skip)
  }

  function SignText(val: nat, flags: Flags): string {
    if Negative(val, flags) then "-" else if flags.plus then "+" else if flags.space then " " else ""
  }

  function PrefixText(flags: Flags, base: nat): string {
    if flags.hash && base == 16 then (if flags.upper then "0X" else "0x") else ""
  }

  /** The whole field. */
  function Text(val: nat, flags: Flags, base: nat, width: int, prec: int): string
    requires val < TWO_64 && 2 <= base <= 16
  {
    var sign, prefix := SignText(val, flags), PrefixText(flags, base);
    var number := Number(Magnitude(val, flags), flags, base, prec);
    var pad := width - |sign| - |prefix| - |number|;
    (if !flags.minus && !flags.zero then Repeat(' ', pad) else "")
    + sign + prefix
    + (if !flags.minus && flags.zero then Repeat('0', pad) else "")
    + number
    + (if flags.minus then Repeat(' ', pad) else "")
  }

  // ----- reading

  predicate IsSpace(c: char) {
    c == ' ' || '\t' <= c <= '\r'
  }

  /** digitval */
  function DigitVal(c: char): (d: int)
    ensures -1 <= d < 36
  {
    if '0' <= c <= '9' then c as int - '0' as int
    else if 'A' <= c <= 'Z' then c as int - 'A' as int + 10
    else if 'a' <= c <= 'z' then c as int - 'a' as int + 10
    else -1
  }

  predicate IsDigit(c: char, base: nat) {
    0 <= DigitVal(c) < base
  }

  function SkipSpaces(s: string): (r: string)
    ensures |r| <= |s|
  {
    if s != "" && IsSpace(s[0]) then SkipSpaces(s[1..]) else s
  }

  /** The digits at the front, in 64-bit arithmetic. */
  function Accumulate(s: string, base: nat, v: nat): nat {
    if s != "" && IsDigit(s[0], base) then Accumulate(s[1..], base, (v * base + DigitVal(s[0])) % TWO_64) else v
  }

  function SkipSign(s: string): (r: string)
    ensures |r| <= |s|
  {
    if s != "" && (s[0] == '-' || s[0] == '+') then s[1..] else s
  }

  predicate HasHexPrefix(s: string) {
    |s| >= 2 && s[0] == '0' && (s[1] == 'x' || s[1] == 'X')
  }

  /** The base, when it is left to the text, and the text after its prefix. */
  function BaseOf(s: string, base: nat): nat {
    if base != 0 then base else if HasHexPrefix(s) then 16 else if s != "" && s[0] == '0' then 8 else 10
  }

  function SkipPrefix(s: string, base: nat): (r: string)
    ensures |r| <= |s|
  {
    if (base == 0 || base == 16) && HasHexPrefix(s) then s[2..]
    else if base == 0 && s != "" && s[0] == '0' then s[1..]
    else s
  }

  /** What strntoumax returns. */
  function Value(s: string, base: nat): nat {
    var t := SkipSpaces(s);
    var u := SkipSign(t);
    var v := Accumulate(SkipPrefix(u, base), BaseOf(u, base), 0);
    if t != "" && t[0] == '-' then (TWO_64 - v) % TWO_64 else v
  }

  function SkipDigits(s: string, base: nat): (r: string)
    ensures |r| <= |s|
  {
    if s != "" && IsDigit(s[0], base) then SkipDigits(s[1..], base) else s
  }

  /** What strntoumax leaves unread. */
  function Leftover(s: string, base: nat): (r: string) {
    var u := SkipSign(SkipSpaces(s));
    SkipDigits(SkipPrefix(u, base), BaseOf(u, base))
  }

  // ----- reading undoes writing

  lemma DigitRoundTrip(d: nat, upper: bool)
    requires d < 16
    ensures DigitVal(Digit(d, upper)) == d && !IsSpace(Digit(d, upper))
    ensures Digit(d, upper) !in {'-', '+', 'x', 'X', '_', NUL}
  {
    assert "0123456789ABCDEF"[d] == if d < 10 then (48 + d) as char else (55 + d) as char;
    assert "0123456789abcdef"[d] == if d < 10 then (48 + d) as char else (87 + d) as char;
  }

  /** Nothing that reading would take for something else. */
  predicate Plain(s: string, base: nat) {
    forall i :: 0 <= i < |s| ==> IsDigit(s[i], base) && !IsSpace(s[i]) && s[i] !in {'-', '+', 'x', 'X'}
  }

  lemma {:induction false} DigitsArePlain(v: nat, base: nat, k: nat, upper: bool)
    requires 2 <= base <= 16
    ensures Plain(Digits(v, base, k, upper), base)
  {
    if k > 0 {
      DigitsArePlain(v / base, base, k - 1, upper);
      DigitRoundTrip(v % base, upper);
    }
  }

  /** Text that ends the number. */
  predicate Stops(s: string) {
    s == "" || DigitVal(s[0]) < 0
  }

  function Step(v: nat, base: nat, c: char): nat {
    (v * base + if DigitVal(c) >= 0 then DigitVal(c) else 0) % TWO_64
  }

  /** The digits of s on top of v. */
  function Folded(s: string, base: nat, v: nat): nat {
    if s == "" then v else Folded(s[1..], base, Step(v, base, s[0]))
  }

  lemma {:induction false} AccumulatePlain(s: string, rest: string, base: nat, v: nat)
    requires Plain(s, base) && Stops(rest)
    ensures Accumulate(s + rest, base, v) == Folded(s, base, v)
    ensures SkipDigits(s + rest, base) == rest
    decreases |s|
  {
    if s == "" {
      assert s + rest == rest;
    } else {
      assert (s + rest)[0] == s[0] && (s + rest)[1..] == s[1..] + rest;
      AccumulatePlain(s[1..], rest, base, Step(v, base, s[0]));
    }
  }

  lemma {:induction false} FoldedOneMore(s: string, d: char, base: nat, v: nat)
    ensures Folded(s + [d], base, v) == Step(Folded(s, base, v), base, d)
    decreases |s|
  {
    if s == "" {
      assert s + [d] == [d] && [d][1..] == "";
    } else {
      assert (s + [d])[0] == s[0] && (s + [d])[1..] == s[1..] + [d];
      FoldedOneMore(s[1..], d, base, Step(v, base, s[0]));
    }
  }

  lemma {:induction false} FoldedZeros(n: int, s: string, base: nat)
    ensures Folded(Repeat('0', n) + s, base, 0) == Folded(s, base, 0)
    decreases n
  {
    if n <= 0 {
      assert Repeat('0', n) + s == s;
    } else {
      var t := Repeat('0', n) + s;
      assert t[0] == '0' && t[1..] == Repeat('0', n - 1) + s;
      assert Step(0, base, '0') == 0;
      FoldedZeros(n - 1, s, base);
    }
  }

  /** Enough digits stand for the number. */
  lemma {:induction false} FoldedDigits(v: nat, base: nat, k: nat, upper: bool)
    requires 2 <= base <= 16 && NumDigits(v, base) <= k
    ensures Folded(Digits(v, base, k, upper), base, 0) == v % TWO_64
  {
    hide *;
    if k == 0 {
      NoDigits(v, base, upper);
    } else {
      FewerDigits(v, base, k);
      FoldedDigits(v / base, base, k - 1, upper);
      OneMoreDigit(v, base, k, upper);
    }
  }

  lemma NoDigits(v: nat, base: nat, upper: bool)
    requires 2 <= base <= 16 && NumDigits(v, base) <= 0
    ensures Folded(Digits(v, base, 0, upper), base, 0) == v % TWO_64
  {
  }

  lemma FewerDigits(v: nat, base: nat, k: nat)
    requires base >= 2 && k > 0 && NumDigits(v, base) <= k
    ensures NumDigits(v / base, base) <= k - 1
  {
    if v == 0 {
      assert v / base == 0;
    }
  }

  lemma OneMoreDigit(v: nat, base: nat, k: nat, upper: bool)
    requires 2 <= base <= 16 && k > 0 && Folded(Digits(v / base, base, k - 1, upper), base, 0) == v / base % TWO_64
    ensures Folded(Digits(v, base, k, upper), base, 0) == v % TWO_64
  {
    hide Digits, Folded, Step, Digit, DigitVal, IsSpace;
    var q, d := v / base, v % base;
    DigitsUnfold(v, base, k, upper);
    FoldedOneMore(Digits(q, base, k - 1, upper), Digit(d, upper), base, 0);
    DigitRoundTrip(d, upper);
    StepOf(v / base % TWO_64, base, Digit(d, upper), d);
    StepMod(q, base, d);
    DivisionLaw(v, base);
  }

  lemma StepOf(v: nat, base: nat, c: char, d: nat)
    requires DigitVal(c) == d
    ensures Step(v, base, c) == (v * base + d) % TWO_64
  {
  }

  lemma DigitsUnfold(v: nat, base: nat, k: nat, upper: bool)
    requires 2 <= base <= 16 && k > 0
    ensures Digits(v, base, k, upper) == Digits(v / base, base, k - 1, upper) + [Digit(v % base, upper)]
  {
  }

  lemma DivisionLaw(v: nat, base: nat)
    requires base > 0
    ensures v == v / base * base + v % base
  {
  }

  lemma StepMod(q: nat, base: nat, d: nat)
    ensures (q % TWO_64 * base + d) % TWO_64 == (q * base + d) % TWO_64
  {
    var m := q / TWO_64;
    assert q * base + d == m * base * TWO_64 + (q % TWO_64 * base + d) by {
      assert q == m * TWO_64 + q % TWO_64;
      Product(m, base, q % TWO_64);
    }
    Multiples(m * base, q % TWO_64 * base + d);
  }

  lemma Product(m: nat, base: nat, r: nat)
    ensures (m * TWO_64 + r) * base == m * base * TWO_64 + r * base
  {
  }

  lemma Multiples(k: nat, x: nat)
    ensures (k * TWO_64 + x) % TWO_64 == x % TWO_64
  {
  }

  lemma {:induction false} SkipManySpaces(n: int, s: string)
    ensures SkipSpaces(Repeat(' ', n) + s) == SkipSpaces(s)
    decreases n
  {
    if n <= 0 {
      assert Repeat(' ', n) + s == s;
    } else {
      var t := Repeat(' ', n) + s;
      assert t[0] == ' ' && t[1..] == Repeat(' ', n - 1) + s;
      SkipManySpaces(n - 1, s);
    }
  }

  lemma UntickedNumber(mag: nat, flags: Flags, base: nat, prec: int)
    requires 2 <= base <= 16 && !flags.tick
    ensures Number(mag, flags, base, prec) == Digits(mag, base, DigitCount(mag, flags, base, prec), flags.upper)
  {
  }

  /** What follows the sign: prefix, zeros, number, and text that ends it. */
  lemma ReadUnsigned(prefix: string, zeros: string, number: string, tail: string, base: nat)
    requires base == 8 || base == 10 || base == 16
    requires prefix == "" || (base == 16 && (prefix == "0x" || prefix == "0X"))
    requires Plain(zeros + number, base) && number != "" && Stops(tail)
    ensures var s := prefix + (zeros + number + tail);
            && SkipPrefix(s, base) == zeros + number + tail
            && s != "" && !IsSpace(s[0]) && s[0] != '-' && s[0] != '+'
  {
    var digits := zeros + number;
    var s := prefix + (digits + tail);
    assert digits != "" && (digits + tail)[0] == digits[0];
    if prefix == "" {
      assert s == digits + tail;
      if |s| >= 2 {
        assert s[1] == if |digits| >= 2 then digits[1] else tail[0];
      }
    } else {
      assert s[0] == prefix[0] && s[1] == prefix[1] && s[2..] == digits + tail;
    }
  }

  lemma PlainConcat(a: string, b: string, base: nat)
    requires Plain(a, base) && Plain(b, base)
    ensures Plain(a + b, base)
  {
  }

  lemma ZerosArePlain(n: int, base: nat)
    requires base >= 2
    ensures Plain(Repeat('0', n), base)
  {
  }

  /** After the padding, the sign and the rest are told apart. */
  lemma ReadSigned(sign: string, u: string, base: nat)
    requires sign in {"", "-", "+", " "} && u != "" && !IsSpace(u[0]) && u[0] != '-' && u[0] != '+' && base != 0
    ensures Value(sign + u, base) ==
              var v := Accumulate(SkipPrefix(u, base), base, 0);
              if sign == "-" then (TWO_64 - v) % TWO_64 else v
    ensures Leftover(sign + u, base) == SkipDigits(SkipPrefix(u, base), base)
  {
    ReadAnySigned(sign, u, base);
    hide Accumulate, SkipPrefix, SkipDigits, Value, Leftover;
  }

  /** The same when the base may be left to the text. */
  lemma ReadAnySigned(sign: string, u: string, base: nat)
    requires sign in {"", "-", "+", " "} && u != "" && !IsSpace(u[0]) && u[0] != '-' && u[0] != '+'
    ensures Value(sign + u, base) ==
              var v := Accumulate(SkipPrefix(u, base), BaseOf(u, base), 0);
              if sign == "-" then (TWO_64 - v) % TWO_64 else v
    ensures Leftover(sign + u, base) == SkipDigits(SkipPrefix(u, base), BaseOf(u, base))
  {
    hide Accumulate, SkipPrefix, SkipDigits, BaseOf;
    assert SkipSpaces(u) == u;
    if sign == "" {
      assert sign + u == u;
    } else {
      assert (sign + u)[0] == sign[0] && (sign + u)[1..] == u;
    }
  }

  lemma {:induction false} PaddedValue(n: int, s: string, base: nat)
    ensures Value(Repeat(' ', n) + s, base) == Value(s, base)
    ensures Leftover(Repeat(' ', n) + s, base) == Leftover(s, base)
  {
    SkipManySpaces(n, s);
  }

  /**
   Round trip: whatever the flags but the tick, the width and the precision, reading the text of a
   64-bit value in the same base gives the value back, and stops where the digits do, whatever
   follows that is no digit.
   */
  lemma TextRoundTrip(val: nat, flags: Flags, base: nat, width: int, prec: int, rest: string)
    requires val < TWO_64 && (base == 8 || base == 10 || base == 16) && !flags.tick && Stops(rest)
    ensures Value(Text(val, flags, base, width, prec) + rest, base) == val
    ensures Leftover(Text(val, flags, base, width, prec) + rest, base)
         == Repeat(' ', RightPad(val, flags, base, width, prec)) + rest
  {
    hide *;
    var mag := Magnitude(val, flags);
    var number := Number(mag, flags, base, prec);
    var pad := width - |SignText(val, flags)| - |PrefixText(flags, base)| - |number|;
    var nd := DigitCount(mag, flags, base, prec);
    var early, zero, late := EarlyPad(flags, pad), ZeroPad(flags, pad), LatePad(flags, pad);
    UntickedNumber(mag, flags, base, prec);
    DigitsArePlain(mag, base, nd, flags.upper);
    ZerosArePlain(zero, base);
    PlainConcat(Repeat('0', zero), number, base);
    TailStops(late, rest);
    Pieces(val, flags, base);
    var u := PrefixText(flags, base) + (Repeat('0', zero) + number + (Repeat(' ', late) + rest));
    ReadUnsigned(PrefixText(flags, base), Repeat('0', zero), number, Repeat(' ', late) + rest, base);
    ReadSigned(SignText(val, flags), u, base);
    PaddedValue(early, SignText(val, flags) + u, base);
    AccumulatePlain(Repeat('0', zero) + number, Repeat(' ', late) + rest, base, 0);
    FoldedZeros(zero, number, base);
    FoldedDigits(mag, base, nd, flags.upper);
    TextParts(val, flags, base, width, prec, rest);
    SignedAgain(val, flags);
    RightPadIs(val, flags, base, width, prec);
  }

  /** The spaces behind a number that is set to the left. */
  function RightPad(val: nat, flags: Flags, base: nat, width: int, prec: int): int
    requires val < TWO_64 && 2 <= base <= 16
  {
    if flags.minus
    then width - |SignText(val, flags)| - |PrefixText(flags, base)| - |Number(Magnitude(val, flags), flags, base, prec)|
    else 0
  }

  lemma RightPadIs(val: nat, flags: Flags, base: nat, width: int, prec: int)
    requires val < TWO_64 && 2 <= base <= 16
    ensures var pad := width - |SignText(val, flags)| - |PrefixText(flags, base)|
                       - |Number(Magnitude(val, flags), flags, base, prec)|;
            RightPad(val, flags, base, width, prec) == LatePad(flags, pad)
  {
  }

  function EarlyPad(flags: Flags, pad: int): int {
    if !flags.minus && !flags.zero then pad else 0
  }

  function ZeroPad(flags: Flags, pad: int): int {
    if !flags.minus && flags.zero then pad else 0
  }

  function LatePad(flags: Flags, pad: int): int {
    if flags.minus then pad else 0
  }

  lemma Pieces(val: nat, flags: Flags, base: nat)
    requires base == 8 || base == 10 || base == 16
    ensures SignText(val, flags) in {"", "-", "+", " "} && (SignText(val, flags) == "-" <==> Negative(val, flags))
    ensures var prefix := PrefixText(flags, base); prefix == "" || (base == 16 && (prefix == "0x" || prefix == "0X"))
  {
  }

  lemma TextParts(val: nat, flags: Flags, base: nat, width: int, prec: int, rest: string)
    requires val < TWO_64 && 2 <= base <= 16
    ensures var number := Number(Magnitude(val, flags), flags, base, prec);
            var pad := width - |SignText(val, flags)| - |PrefixText(flags, base)| - |number|;
            Text(val, flags, base, width, prec) + rest ==
              Repeat(' ', EarlyPad(flags, pad))
              + (SignText(val, flags)
                 + (PrefixText(flags, base)
                    + (Repeat('0', ZeroPad(flags, pad)) + number + (Repeat(' ', LatePad(flags, pad)) + rest))))
  {
    hide Number, SignText, PrefixText;
  }

  lemma SignedAgain(val: nat, flags: Flags)
    requires val < TWO_64
    ensures var mag := Magnitude(val, flags);
            && mag % TWO_64 == mag && (if Negative(val, flags) then (TWO_64 - mag) % TWO_64 else mag) == val
  {
  }

  lemma TailStops(n: int, rest: string)
    requires Stops(rest)
    ensures Stops(Repeat(' ', n) + rest)
  {
    if n <= 0 {
      assert Repeat(' ', n) + rest == rest;
    }
  }

  // ----- what a numeral reads as

  /** The digits of base 36: each value has its numeral or its two letters, and nothing else has one. */
  lemma DigitsOfBase36(c: char, v: nat)
    requires v < 36
    ensures DigitVal(c) == v <==>
              c == "0123456789abcdefghijklmnopqrstuvwxyz"[v] || c == "0123456789ABCDEFGHIJKLMNOPQRSTUVWXYZ"[v]
  {
    assert "0123456789abcdefghijklmnopqrstuvwxyz"[v] == (if v < 10 then 48 + v else 87 + v) as char;
    assert "0123456789ABCDEFGHIJKLMNOPQRSTUVWXYZ"[v] == (if v < 10 then 48 + v else 55 + v) as char;
  }

  /** The number that digits stand for, however long they are. */
  function Numeral(d: string, base: nat): nat {
    if d == "" then 0
    else Numeral(d[..|d| - 1], base) * base + if DigitVal(d[|d| - 1]) >= 0 then DigitVal(d[|d| - 1]) else 0
  }

  lemma {:induction false} FoldedNumeral(d: string, base: nat)
    ensures Folded(d, base, 0) == Numeral(d, base) % TWO_64
  {
    if d != "" {
      var front, c := d[..|d| - 1], d[|d| - 1];
      FoldedNumeral(front, base);
      FoldedOneMore(front, c, base, 0);
      assert d == front + [c];
      StepMod(Numeral(front, base), base, if DigitVal(c) >= 0 then DigitVal(c) else 0);
      hide Folded;
    }
  }

  predicate AllOf(d: string, base: nat) {
    forall i :: 0 <= i < |d| ==> IsDigit(d[i], base)
  }

  /** Text whose beginning is no digit of the base. */
  predicate Ends(s: string, base: nat) {
    s == "" || !IsDigit(s[0], base)
  }

  lemma {:induction false} AccumulateDigits(d: string, rest: string, base: nat, v: nat)
    requires AllOf(d, base) && Ends(rest, base)
    ensures Accumulate(d + rest, base, v) == Folded(d, base, v)
    ensures SkipDigits(d + rest, base) == rest
    decreases |d|
  {
    if d == "" {
      assert d + rest == rest;
    } else {
      assert (d + rest)[0] == d[0] && (d + rest)[1..] == d[1..] + rest;
      AccumulateDigits(d[1..], rest, base, Step(v, base, d[0]));
    }
  }

  lemma {:induction false} SkipBlanks(w: string, t: string)
    requires forall i :: 0 <= i < |w| ==> w[i] as int in {9, 10, 11, 12, 13, 32}
    requires t != "" && t[0] as int !in {9, 10, 11, 12, 13, 32}
    ensures SkipSpaces(w + t) == t
    decreases |w|
  {
    if w == "" {
      assert w + t == t;
    } else {
      assert (w + t)[0] == w[0] && (w + t)[1..] == w[1..] + t;
      SkipBlanks(w[1..], t);
    }
  }

  /**
   White space, a sign, for base 16 perhaps 0x, and digits in any base: what is read is the number that
   they stand for, modulo 2^64, and what is left is the text behind the digits.
   */
  lemma ReadsNumerals(w: string, sign: string, prefix: string, d: string, rest: string, base: nat)
    requires forall i :: 0 <= i < |w| ==> w[i] as int in {9, 10, 11, 12, 13, 32}
    requires sign in {"", "+", "-"} && 2 <= base <= 36 && d != "" && AllOf(d, base) && Ends(rest, base)
    requires prefix == "" || (base == 16 && (prefix == "0x" || prefix == "0X"))
    requires base == 16 && prefix == "" ==> !HasHexPrefix(d + rest)
    ensures var n := Numeral(d, base) % TWO_64;
            Value(w + (sign + (prefix + (d + rest))), base) == if sign == "-" then (TWO_64 - n) % TWO_64 else n
    ensures Leftover(w + (sign + (prefix + (d + rest))), base) == rest
  {
    hide *;
    var u := prefix + (d + rest);
    BehindPrefix(prefix, d, rest, base);
    SignedStart(sign, u);
    SkipBlanks(w, sign + u);
    AccumulateDigits(d, rest, base, 0);
    FoldedNumeral(d, base);
    ReadBehindBlanks(w + (sign + u), sign, u, base);
  }

  lemma BehindPrefix(prefix: string, d: string, rest: string, base: nat)
    requires 2 <= base <= 36 && d != "" && AllOf(d, base)
    requires prefix == "" || (base == 16 && (prefix == "0x" || prefix == "0X"))
    requires base == 16 && prefix == "" ==> !HasHexPrefix(d + rest)
    ensures var u := prefix + (d + rest);
            && u != "" && u[0] as int !in {9, 10, 11, 12, 13, 32} && u[0] !in {'+', '-'}
            && SkipPrefix(u, base) == d + rest
  {
    var u := prefix + (d + rest);
    assert (d + rest)[0] == d[0];
    if prefix == "" {
      assert u == d + rest;
    } else {
      assert u[0] == '0' && u[1] == prefix[1] && u[2..] == d + rest;
    }
  }

  lemma SignedStart(sign: string, u: string)
    requires sign in {"", "+", "-"} && u != "" && u[0] as int !in {9, 10, 11, 12, 13, 32} && u[0] !in {'+', '-'}
    ensures (sign + u)[0] as int !in {9, 10, 11, 12, 13, 32}
  {
    assert (sign + u)[0] == if sign == "" then u[0] else sign[0];
  }

  lemma ReadBehindBlanks(t: string, sign: string, u: string, base: nat)
    requires sign in {"", "+", "-"} && u != "" && u[0] !in {'+', '-'} && SkipSpaces(t) == sign + u && base != 0
    ensures var v := Accumulate(SkipPrefix(u, base), base, 0);
            Value(t, base) == if sign == "-" then (TWO_64 - v) % TWO_64 else v
    ensures Leftover(t, base) == SkipDigits(SkipPrefix(u, base), base)
  {
    hide Accumulate, SkipPrefix, SkipDigits, SkipSpaces;
    if sign == "" {
      assert sign + u == u;
    } else {
      assert (sign + u)[0] == sign[0] && (sign + u)[1..] == u;
    }
  }
}
