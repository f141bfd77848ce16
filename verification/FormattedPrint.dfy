/**
 vsnprintf.c and strntoumax.c: formatting into a buffer of any size, and reading integers back.
 */
module FormattedPrint {
  import opened BitString
  import opened IntegerText

  // ----- strntoumax

  /** strntoumax on the first n characters; `end` is where the number ends. */
  method ReadInteger(text: string, base: nat, n: nat) returns (value: nat, end: nat)
    requires n <= |text|
    ensures value == Value(text[..n], base)
    ensures end <= n && text[end..n] == Leftover(text[..n], base)
  {
    hide SkipSpaces, SkipSign, SkipPrefix, BaseOf, Accumulate, SkipDigits;
    var at := ReadSpaces(text, n);
    ghost var t := text[at..n];
    var minus: bool;
    at, minus := ReadSign(text, at, n);
    var radix;
    radix, at := ReadPrefix(text, base, at, n);
    var v;
    v, end := ReadDigits(text, radix, at, n);
    value := if minus then (TWO_64 - v) % TWO_64 else v;
  }

  method ReadSpaces(text: string, n: nat) returns (at: nat)
    requires n <= |text|
    ensures at <= n && text[at..n] == SkipSpaces(text[..n])
  {
    at := 0;
    assert text[0..n] == text[..n];
    while at < n && IsSpace(text[at])
      invariant at <= n && SkipSpaces(text[at..n]) == SkipSpaces(text[..n])
    {
      assert text[at..n][1..] == text[at + 1..n];
      at := at + 1;
    }
  }

  method ReadSign(text: string, from: nat, n: nat) returns (at: nat, minus: bool)
    requires from <= n <= |text|
    ensures from <= at <= n && text[at..n] == SkipSign(text[from..n])
    ensures minus == (text[from..n] != "" && text[from..n][0] == '-')
  {
    at, minus := from, false;
    if at < n {
      var c := text[at];
      if c == '-' || c == '+' {
        minus := c == '-';
        at := at + 1;
      }
    }
  }

  method ReadDigits(text: string, radix: nat, from: nat, n: nat) returns (v: nat, at: nat)
    requires from <= n <= |text|
    ensures from <= at <= n && v == Accumulate(text[from..n], radix, 0)
    ensures text[at..n] == SkipDigits(text[from..n], radix)
  {
    v, at := 0, from;
    while at < n && 0 <= DigitVal(text[at]) < radix
      invariant from <= at <= n && Accumulate(text[at..n], radix, v) == Accumulate(text[from..n], radix, 0)
      invariant SkipDigits(text[at..n], radix) == SkipDigits(text[from..n], radix)
    {
      assert text[at..n][1..] == text[at + 1..n];
      v := (v * radix + DigitVal(text[at])) % TWO_64;
      at := at + 1;
    }
  }

  /** The base prefix, if any. */
  method ReadPrefix(text: string, base: nat, from: nat, n: nat) returns (radix: nat, at: nat)
    requires from <= n <= |text|
    ensures from <= at <= n
    ensures radix == BaseOf(text[from..n], base) && text[at..n] == SkipPrefix(text[from..n], base)
  {
    radix, at := base, from;
    if base == 0 {
      if n - at >= 2 && text[at] == '0' && (text[at + 1] == 'x' || text[at + 1] == 'X') {
        at := at + 2;
        radix := 16;
      } else if n - at >= 1 && text[at] == '0' {
        at := at + 1;
        radix := 8;
      } else {
        radix := 10;
      }
    } else if base == 16 {
      if n - at >= 2 && text[at] == '0' && (text[at + 1] == 'x' || text[at + 1] == 'X') {
        at := at + 2;
      }
    }
  }

  // ----- characters into a buffer

  function Min(a: nat, b: nat): nat {
    if a <= b then a else b
  }

  /** From `at` on the buffer holds what there is room for, n characters, of s; the rest of it is untouched. */
  ghost predicate Stored(before: seq<char>, after: seq<char>, at: nat, n: nat, s: string) {
    && |after| == |before| && at + n <= |before|
    && forall i :: 0 <= i < |after| ==> after[i] == if at <= i < at + Min(|s|, n) then s[i - at] else before[i]
  }

  /** EMIT; q is the place of character o as long as there is room for it. */
  method Emit(buf: array<char>, q: int, o: nat, n: nat, c: char, ghost before: seq<char>, ghost at: nat,
              ghost s: string)
    returns (q': int, o': nat)
    requires Stored(before, buf[..], at, n, s) && o == |s| && (o < n ==> q == at + o)
    modifies buf
    ensures Stored(before, buf[..], at, n, s + [c]) && o' == o + 1 && (o' < n ==> q' == at + o')
  {
    q', o' := q, o;
    if o < n {
      buf[q] := c;
      q' := q + 1;
    }
    o' := o + 1;
  }

  /** Padding: EMIT while `width` exceeds `nchars`. */
  method Pad(buf: array<char>, q: int, o: nat, n: nat, c: char, width: int, nchars: int, ghost before: seq<char>,
             ghost at: nat, ghost s: string)
    returns (q': int, o': nat)
    requires Stored(before, buf[..], at, n, s) && o == |s| && (o < n ==> q == at + o)
    modifies buf
    ensures Stored(before, buf[..], at, n, s + Repeat(c, width - nchars))
    ensures o' == |s + Repeat(c, width - nchars)| && (o' < n ==> q' == at + o')
  {
    hide Stored;
    q', o' := q, o;
    var w := width;
    ghost var done := 0;
    assert s + Repeat(c, 0) == s;
    while w > nchars
      invariant done >= 0 && w == width - done && (done > 0 ==> w >= nchars)
      invariant Stored(before, buf[..], at, n, s + Repeat(c, done))
      invariant o' == |s| + done && (o' < n ==> q' == at + o')
    {
      q', o' := Emit(buf, q', o', n, c, before, at, s + Repeat(c, done));
      assert s + Repeat(c, done) + [c] == s + Repeat(c, done + 1);
      done := done + 1;
      w := w - 1;
    }
    assert done == if width > nchars then width - nchars else 0;
    assert Repeat(c, done) == Repeat(c, width - nchars);
  }

  // ----- the digits, from right to left

  lemma TickFirst(s: string, skip: nat)
    requires skip > 0 && s != ""
    ensures Ticked(s, skip, 0) == Ticked(s, skip, skip) + "_"
  {
  }

  lemma {:induction false} TickedSnoc(s: string, d: char, skip: nat, b: nat)
    requires skip > 0 && b > 0
    ensures Ticked(s + [d], skip, b) == Ticked(s, skip, b - 1) + [d]
  {
    var t := s + [d];
    if |t| > b {
      assert t[..|t| - b] == s[..|s| - (b - 1)] && t[|t| - b..] == s[|s| - (b - 1)..] + [d];
      if b == 1 {
        assert s[..|s|] == s && s != "";
        TickFirst(s, skip);
        assert Ticked(t, skip, 1) == Ticked(s, skip, skip) + "_" + [d];
      }
    } else {
      assert |s| <= b - 1;
    }
  }

  lemma {:induction false} TickedEmpty(s: string, skip: nat, b: nat)
    requires skip > 0
    ensures Ticked(s, skip, b) == "" <==> s == ""
    decreases |s|, if b == 0 then 1 else 0
  {
  }

  /** Characters `from` and up of s + num are in the buffer, as far as there is room, and all of s. */
  ghost predicate PartlyStored(before: seq<char>, after: seq<char>, at: nat, n: nat, s: string, num: string, from: nat)
    requires from <= |num|
  {
    && |after| == |before| && at + n <= |before|
    && forall i :: 0 <= i < |after| ==>
         after[i] == if at <= i < at + Min(|s|, n) then s[i - at]
                     else if at + |s| + from <= i < at + Min(|s| + |num|, n) then num[i - at - |s|]
                     else before[i]
  }

  /** Generate the number, from right to left, where it fits. */
  method WriteDigits(buf: array<char>, q: int, o: nat, n: nat, val: nat, base: nat, upper: bool, ndigits: nat,
                     tickskip: nat, ghost before: seq<char>, ghost at: nat, ghost s: string, ghost num: string,
                     ghost count: nat)
    requires Stored(before, buf[..], at, n, s) && 2 <= base <= 16 && tickskip > 0 && ndigits == |num|
    requires num == Ticked(Digits(val, base, count, upper), tickskip, tickskip)
    requires o == |s| + ndigits && (|s| < n ==> q == at + o)
    modifies buf
    ensures Stored(before, buf[..], at, n, s + num)
  {
    hide *;
    var left: nat, v: nat, b4tick: nat := ndigits, val, tickskip;
    var qq, oo := q, o;
    ghost var k: nat := count;
    NothingYet(before, buf[..], at, n, s, num);
    assert num[..|num|] == num;
    while left > 0
      invariant left <= |num| && oo == |s| + left && (|s| < n ==> qq == at + oo) && b4tick <= tickskip
      invariant PartlyStored(before, buf[..], at, n, s, num, left)
      invariant num[..left] == Ticked(Digits(v, base, k, upper), tickskip, b4tick)
      decreases left
    {
      if b4tick == 0 {
        TickNext(num, left, v, base, k, upper, tickskip);
        qq, oo, left := PutLeft(buf, qq, oo, left, n, '_', before, at, s, num);
        b4tick := tickskip;
      }
      b4tick := b4tick - 1;
      DigitNext(num, left, v, base, k, upper, tickskip, b4tick);
      qq, oo, left := PutLeft(buf, qq, oo, left, n, Digit(v % base, upper), before, at, s, num);
      v := v / base;
      k := k - 1;
    }
    AllThere(before, buf[..], at, n, s, num);
  }

  /** One character, to the left of the ones before, if it fits. */
  method PutLeft(buf: array<char>, qq: int, oo: nat, left: nat, n: nat, c: char, ghost before: seq<char>, ghost at: nat,
                 ghost s: string, ghost num: string)
    returns (qq': int, oo': nat, left': nat)
    requires 0 < left <= |num| && num[left - 1] == c && PartlyStored(before, buf[..], at, n, s, num, left)
    requires oo == |s| + left && (|s| < n ==> qq == at + oo)
    modifies buf
    ensures left' == left - 1 && oo' == oo - 1 && qq' == qq - 1
    ensures PartlyStored(before, buf[..], at, n, s, num, left')
  {
    qq', oo', left' := qq - 1, oo - 1, left - 1;
    if oo' < n {
      buf[qq'] := c;
    }
  }

  lemma AllThere(before: seq<char>, after: seq<char>, at: nat, n: nat, s: string, num: string)
    requires PartlyStored(before, after, at, n, s, num, 0)
    ensures Stored(before, after, at, n, s + num)
  {
  }

  /** With no digit left before the next tick, the tick comes next. */
  lemma TickNext(num: string, left: nat, v: nat, base: nat, k: nat, upper: bool, skip: nat)
    requires 0 < left <= |num| && 2 <= base <= 16 && skip > 0
    requires num[..left] == Ticked(Digits(v, base, k, upper), skip, 0)
    ensures num[left - 1] == '_' && num[..left - 1] == Ticked(Digits(v, base, k, upper), skip, skip) && left > 1
  {
    hide Ticked, Digits;
    TickedEmpty(Digits(v, base, k, upper), skip, 0);
    TickedEmpty(Digits(v, base, k, upper), skip, skip);
    TickFirst(Digits(v, base, k, upper), skip);
    LastOf(num, left, Ticked(Digits(v, base, k, upper), skip, skip), '_');
  }

  lemma DigitNext(num: string, left: nat, v: nat, base: nat, k: nat, upper: bool, skip: nat, b: nat)
    requires 0 < left <= |num| && 2 <= base <= 16 && skip > 0
    requires num[..left] == Ticked(Digits(v, base, k, upper), skip, b + 1)
    ensures k > 0 && num[left - 1] == Digit(v % base, upper)
    ensures num[..left - 1] == Ticked(Digits(v / base, base, k - 1, upper), skip, b)
  {
    hide Ticked, Digits;
    TickedEmpty(Digits(v, base, k, upper), skip, b + 1);
    DigitsSnoc(v, base, k, upper);
    TickedSnoc(Digits(v / base, base, k - 1, upper), Digit(v % base, upper), skip, b + 1);
    LastOf(num, left, Ticked(Digits(v / base, base, k - 1, upper), skip, b), Digit(v % base, upper));
  }

  lemma LastOf(num: string, left: nat, s: string, c: char)
    requires left <= |num| && num[..left] == s + [c]
    ensures left > 0 && num[left - 1] == c && num[..left - 1] == s
  {
    assert num[..left][..left - 1] == num[..left - 1];
    assert num[..left][left - 1] == num[left - 1];
  }

  lemma NothingYet(before: seq<char>, after: seq<char>, at: nat, n: nat, s: string, num: string)
    requires Stored(before, after, at, n, s)
    ensures PartlyStored(before, after, at, n, s, num, |num|)
  {
  }

  lemma DigitsSnoc(v: nat, base: nat, k: nat, upper: bool)
    requires 2 <= base <= 16 && k > 0
    ensures Digits(v, base, k, upper) == Digits(v / base, base, k - 1, upper) + [Digit(v % base, upper)]
  {
  }

  // ----- format_int

  /** Count the digits. */
  method CountDigits(val: nat, base: nat) returns (ndigits: nat)
    requires base >= 2
    ensures ndigits == NumDigits(val, base)
  {
    hide *;
    ndigits := 0;
    var tmpval: nat := val;
    while tmpval != 0
      invariant ndigits + NumDigits(tmpval, base) == NumDigits(val, base)
      decreases tmpval
    {
      OneDigitLess(tmpval, base);
      tmpval := tmpval / base;
      ndigits := ndigits + 1;
    }
    ZeroHasNoDigits(base);
  }

  lemma OneDigitLess(v: nat, base: nat)
    requires base >= 2 && v > 0
    ensures v / base < v && NumDigits(v, base) == 1 + NumDigits(v / base, base)
  {
    hide NumDigits;
    DivisionLaw(v, base);
    TwiceAtMost(v / base, base);
    MoreDigits(v, base);
  }

  lemma TwiceAtMost(q: nat, base: nat)
    requires base >= 2
    ensures 2 * q <= q * base
  {
    assert q * base == 2 * q + q * (base - 2);
  }

  lemma MoreDigits(v: nat, base: nat)
    requires base >= 2 && v > 0
    ensures NumDigits(v, base) == 1 + NumDigits(v / base, base)
  {
  }

  lemma ZeroHasNoDigits(base: nat)
    requires base >= 2
    ensures NumDigits(0, base) == 0
  {
  }

  /** Tick marks are counted in. */
  lemma {:induction false} TickedLength(s: string, skip: nat)
    requires skip > 0 && s != ""
    ensures |Ticked(s, skip, skip)| == |s| + (|s| - 1) / skip
    decreases |s|
  {
    if |s| > skip {
      TickedLength(s[..|s| - skip], skip);
      OneLess(|s| - 1, skip);
    } else {
      assert (|s| - 1) / skip == 0;
    }
  }

  lemma OneLess(x: nat, d: nat)
    requires 0 < d <= x
    ensures x / d == (x - d) / d + 1
  {
    var q, r := (x - d) / d, (x - d) % d;
    DivisionLaw(x - d, d);
    DivModUnique(x, d, q + 1, r);
  }

  /** How many characters the number takes, and how far apart the tick marks are. */
  method Layout(val: nat, flags: Flags, base: nat, prec: int) returns (ndigits: nat, tickskip: nat)
    requires 2 <= base <= 16
    ensures tickskip > 0 && ndigits == |Number(val, flags, base, prec)|
    ensures Number(val, flags, base, prec)
         == Ticked(Digits(val, base, DigitCount(val, flags, base, prec), flags.upper), tickskip, tickskip)
  {
    ndigits := CountDigits(val, base);
    var p := prec;
    if flags.hash && base == 8 {
      if p < ndigits + 1 {
        p := ndigits + 1;
      }
    }
    if ndigits < p {
      ndigits := p;
    } else if val == 0 {
      ndigits := 1;
    }
    if flags.tick {
      tickskip := if base == 16 then 4 else 3;
    } else {
      tickskip := ndigits;
    }
    hide Ticked, Digits, NumDigits;
    TickedLength(Digits(val, base, ndigits, flags.upper), tickskip);
    ndigits := ndigits + (ndigits - 1) / tickskip;
  }

  /**
   format_int: the n characters from q on receive the beginning of the text of the value; the
   result is the length of the whole text.
   */
  method FormatInt(buf: array<char>, at: nat, n: nat, val: nat, flags: Flags, base: nat, width: int, prec: int)
    returns (o: nat)
    requires val < TWO_64 && 2 <= base <= 16 && at + n <= buf.Length
    modifies buf
    ensures o == |Text(val, flags, base, width, prec)|
    ensures Stored(old(buf[..]), buf[..], at, n, Text(val, flags, base, width, prec))
  {
    hide *;
    ghost var before := buf[..];
    MagnitudeIs(val, flags);
    var v, minus := val, false;
    if flags.signed && v >= TWO_63 {
      minus := true;
      v := TWO_64 - v;
    }
    var ndigits, tickskip := Layout(v, flags, base, prec);
    var nchars := ndigits;
    if minus || flags.plus || flags.space {
      nchars := nchars + 1;
    }
    if flags.hash && base == 16 {
      nchars := nchars + 2;
    }
    var q;
    ghost var s := "";
    StoredNothing(before, at, n);
    q, o := EmitEarly(buf, at, 0, n, flags, width, nchars, before, at, s);
    s := s + EarlyText(flags, width - nchars);
    q, o := EmitSign(buf, q, o, n, flags, minus, before, at, s, val);
    s := s + SignText(val, flags);
    q, o := EmitPrefix(buf, q, o, n, flags, base, before, at, s);
    s := s + PrefixText(flags, base);
    q, o := EmitZeros(buf, q, o, n, flags, width, ndigits, nchars, before, at, s);
    s := s + ZeroText(flags, width - nchars);
    ghost var num := Number(v, flags, base, prec);
    q := q + ndigits;
    o := o + ndigits;
    WriteDigits(buf, q, o, n, v, base, flags.upper, ndigits, tickskip, before, at, s, num,
                DigitCount(v, flags, base, prec));
    s := s + num;
    q, o := EmitLate(buf, q, o, n, flags, width, nchars, before, at, s);
    TextIs(val, flags, base, width, prec);
  }

  lemma MagnitudeIs(val: nat, flags: Flags)
    requires val < TWO_64
    ensures TWO_63 < TWO_64 && (Negative(val, flags) <==> flags.signed && val >= TWO_63)
    ensures Magnitude(val, flags) == if flags.signed && val >= TWO_63 then TWO_64 - val else val
    ensures |SignText(val, flags)|
         == if (flags.signed && val >= TWO_63) || flags.plus || flags.space then 1 else 0
    ensures forall base: nat :: |PrefixText(flags, base)| == if flags.hash && base == 16 then 2 else 0
  {
  }

  function EarlyText(flags: Flags, pad: int): string {
    if !flags.minus && !flags.zero then Repeat(' ', pad) else ""
  }

  function ZeroText(flags: Flags, pad: int): string {
    if !flags.minus && flags.zero then Repeat('0', pad) else ""
  }

  function LateText(flags: Flags, pad: int): string {
    if flags.minus then Repeat(' ', pad) else ""
  }

  lemma TextIs(val: nat, flags: Flags, base: nat, width: int, prec: int)
    requires val < TWO_64 && 2 <= base <= 16
    ensures var num := Number(Magnitude(val, flags), flags, base, prec);
            var pad := width - |SignText(val, flags)| - |PrefixText(flags, base)| - |num|;
            Text(val, flags, base, width, prec) ==
              "" + EarlyText(flags, pad) + SignText(val, flags) + PrefixText(flags, base) + ZeroText(flags, pad) + num
              + LateText(flags, pad)
  {
    hide Number, SignText, PrefixText, Repeat;
  }

  lemma StoredNothing(s: seq<char>, at: nat, n: nat)
    requires at + n <= |s|
    ensures Stored(s, s, at, n, "")
  {
  }

  /** Emit early space padding. */
  method EmitEarly(buf: array<char>, q: int, o: nat, n: nat, flags: Flags, width: int, nchars: nat,
                   ghost before: seq<char>, ghost at: nat, ghost s: string)
    returns (q': int, o': nat)
    requires Stored(before, buf[..], at, n, s) && o == |s| && (o < n ==> q == at + o)
    modifies buf
    ensures Stored(before, buf[..], at, n, s + EarlyText(flags, width - nchars))
    ensures o' == |s + EarlyText(flags, width - nchars)| && (o' < n ==> q' == at + o')
  {
    hide Stored;
    q', o' := q, o;
    assert s + "" == s;
    if !flags.minus && !flags.zero && width > nchars {
      q', o' := Pad(buf, q, o, n, ' ', width, nchars, before, at, s);
    }
  }

  /** Emit zero padding. */
  method EmitZeros(buf: array<char>, q: int, o: nat, n: nat, flags: Flags, width: int, ndigits: nat, nchars: nat,
                   ghost before: seq<char>, ghost at: nat, ghost s: string)
    returns (q': int, o': nat)
    requires Stored(before, buf[..], at, n, s) && o == |s| && (o < n ==> q == at + o) && ndigits <= nchars
    modifies buf
    ensures Stored(before, buf[..], at, n, s + ZeroText(flags, width - nchars))
    ensures o' == |s + ZeroText(flags, width - nchars)| && (o' < n ==> q' == at + o')
  {
    hide Stored;
    q', o' := q, o;
    assert s + "" == s;
    if !flags.minus && flags.zero && width > ndigits {
      q', o' := Pad(buf, q, o, n, '0', width, nchars, before, at, s);
    }
  }

  /** Emit late space padding. */
  method EmitLate(buf: array<char>, q: int, o: nat, n: nat, flags: Flags, width: int, nchars: nat,
                  ghost before: seq<char>, ghost at: nat, ghost s: string)
    returns (q': int, o': nat)
    requires Stored(before, buf[..], at, n, s) && o == |s| && (o < n ==> q == at + o)
    modifies buf
    ensures Stored(before, buf[..], at, n, s + LateText(flags, width - nchars))
    ensures o' == |s + LateText(flags, width - nchars)| && (o' < n ==> q' == at + o')
  {
    hide Stored;
    q', o' := q, o;
    assert s + "" == s;
    if flags.minus && width > nchars {
      q', o' := Pad(buf, q, o, n, ' ', width, nchars, before, at, s);
    }
  }

  /** Emit the sign. */
  method EmitSign(buf: array<char>, q: int, o: nat, n: nat, flags: Flags, minus: bool, ghost before: seq<char>,
                  ghost at: nat, ghost s: string, ghost val: nat)
    returns (q': int, o': nat)
    requires Stored(before, buf[..], at, n, s) && o == |s| && (o < n ==> q == at + o) && minus == Negative(val, flags)
    modifies buf
    ensures Stored(before, buf[..], at, n, s + SignText(val, flags))
    ensures o' == |s + SignText(val, flags)| && (o' < n ==> q' == at + o')
  {
    hide Stored;
    q', o' := q, o;
    assert s + "" == s;
    if minus {
      q', o' := Emit(buf, q, o, n, '-', before, at, s);
    } else if flags.plus {
      q', o' := Emit(buf, q, o, n, '+', before, at, s);
    } else if flags.space {
      q', o' := Emit(buf, q, o, n, ' ', before, at, s);
    }
  }

  /** 0x for hexadecimal. */
  method EmitPrefix(buf: array<char>, q: int, o: nat, n: nat, flags: Flags, base: nat, ghost before: seq<char>,
                    ghost at: nat, ghost s: string)
    returns (q': int, o': nat)
    requires Stored(before, buf[..], at, n, s) && o == |s| && (o < n ==> q == at + o)
    modifies buf
    ensures Stored(before, buf[..], at, n, s + PrefixText(flags, base))
    ensures o' == |s + PrefixText(flags, base)| && (o' < n ==> q' == at + o')
  {
    hide Stored;
    q', o' := q, o;
    assert s + "" == s;
    if flags.hash && base == 16 {
      q', o' := Emit(buf, q, o, n, '0', before, at, s);
      q', o' := Emit(buf, q', o', n, if flags.upper then 'X' else 'x', before, at, s + ['0']);
      assert s + ['0'] + ['X'] == s + "0X" && s + ['0'] + ['x'] == s + "0x";
    }
  }
}
