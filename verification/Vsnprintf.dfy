/**
 The state machine of vsnprintf.c: what a format and its arguments print, and that a buffer
 of any size receives the beginning of it.
 */
module Vsnprintf {
  import opened IntegerText
  import opened FormattedPrint

  /** The arguments, each of the kind its conversion asks for. */
  datatype Arg = Int(value: int) | Str(text: string) | NullStr

  datatype State = Normal | InFlags | InWidth | InPrec | InModifiers

  /** A conversion specification as far as it has been read. */
  datatype Spec = Spec(state: State, flags: Flags, rank: int, width: int, prec: int)

  const NO_FLAGS := Flags(false, false, false, false, false, false, false, false)
  const START := Spec(Normal, NO_FLAGS, 0, 0, -1)

  // ----- arguments

  /** An integer argument; what a missing one is, C leaves open. */
  function IntOf(args: seq<Arg>): int {
    if args != [] && args[0].Int? then args[0].value else 0
  }

  function TextOf(args: seq<Arg>): string {
    if args != [] && args[0].Str? then args[0].text else "(null)"
  }

  function Rest(args: seq<Arg>): (r: seq<Arg>)
    ensures args != [] ==> |r| == |args| - 1
  {
    if args == [] then [] else args[1..]
  }

  /** The bits of an integer type, by its rank. */
  function Width(rank: int): (bits: nat)
    ensures bits in {8, 16, 32, 64}
  {
    if rank <= -2 then 8 else if rank == -1 then 16 else if rank <= 1 then 32 else 64
  }

  function Modulus(bits: nat): (m: nat)
    requires bits in {8, 16, 32, 64}
    ensures 0 < m <= TWO_64
  {
    if bits == 8 then 0x100 else if bits == 16 then 0x1_0000 else if bits == 32 then 0x1_0000_0000 else TWO_64
  }

  /** An argument of the rank, as the 64-bit pattern that is printed. */
  function Cast(v: int, rank: int, signed: bool): (val: nat)
    ensures val < TWO_64
  {
    var m := Modulus(Width(rank));
    var low := v % m;
    if signed && low >= m / 2 then TWO_64 - m + low else low
  }

  // ----- what is printed

  function Truncated(s: string, prec: int): string {
    if 0 <= prec < |s| then s[..prec] else s
  }

  function StringField(s: string, flags: Flags, width: int, prec: int): string {
    var t := Truncated(s, prec);
    if flags.minus then t + Repeat(' ', width - |t|)
    else Repeat(if flags.zero then '0' else ' ', width - |t|) + t
  }

  function Clamped(rank: int): int {
    if rank < -2 then -2 else if rank > 2 then 2 else rank
  }

  predicate IsConversion(ch: char) {
    ch in {'P', 'p', 'd', 'i', 'o', 'u', 'X', 'x'}
  }

  /** Base, flags, precision and value of an integer conversion. */
  function Base(ch: char): (base: nat)
    ensures base in {8, 10, 16}
  {
    if ch == 'o' then 8 else if ch in {'d', 'i', 'u'} then 10 else 16
  }

  function IntFlags(ch: char, flags: Flags): Flags {
    if ch in {'P', 'p'} then flags.(hash := true, upper := flags.upper || ch == 'P')
    else if ch in {'d', 'i'} then flags.(signed := true)
    else flags.(upper := flags.upper || ch == 'X')
  }

  function IntField(ch: char, s: Spec, args: seq<Arg>): string
    requires IsConversion(ch)
  {
    if ch in {'P', 'p'} then Text(Cast(IntOf(args), 1, false), IntFlags(ch, s.flags), 16, s.width, 8)
    else Text(Cast(IntOf(args), Clamped(s.rank), ch in {'d', 'i'}), IntFlags(ch, s.flags), Base(ch), s.width, s.prec)
  }

  function CharOf(v: int): char {
    (v % 256) as char
  }

  /** The output of a conversion. */
  function Field(ch: char, s: Spec, args: seq<Arg>): string {
    if IsConversion(ch) then IntField(ch, s, args)
    else if ch == 'c' then StringField([CharOf(IntOf(args))], s.flags, s.width, s.prec)
    else if ch == 's' then StringField(TextOf(args), s.flags, s.width, s.prec)
    else if ch == 'n' then ""
    else [ch]
  }

  predicate TakesArgument(ch: char) {
    IsConversion(ch) || ch in {'c', 's', 'n'}
  }

  function IsDecimal(ch: char): bool {
    '0' <= ch <= '9'
  }

  function DecimalOf(ch: char): int {
    ch as int - '0' as int
  }

  // ----- one character of the format

  /** What it does: is it to be looked at again, what is printed, and what it leaves. */
  datatype Move = Move(again: bool, out: string, spec: Spec, args: seq<Arg>)

  function FlagMove(s: Spec, ch: char, args: seq<Arg>): Move {
    match ch
    case '-' => Move(false, "", s.(flags := s.flags.(minus := true)), args)
    case '+' => Move(false, "", s.(flags := s.flags.(plus := true)), args)
    case '\'' => Move(false, "", s.(flags := s.flags.(tick := true)), args)
    case ' ' => Move(false, "", s.(flags := s.flags.(space := true)), args)
    case '#' => Move(false, "", s.(flags := s.flags.(hash := true)), args)
    case '0' => Move(false, "", s.(flags := s.flags.(zero := true)), args)
    case _ => Move(true, "", s.(state := InWidth), args)
  }

  function WidthMove(s: Spec, ch: char, args: seq<Arg>): Move {
    if IsDecimal(ch) then Move(false, "", s.(width := s.width * 10 + DecimalOf(ch)), args)
    else if ch == '*' then
      var w := IntOf(args);
      Move(false, "", if w < 0 then s.(width := -w, flags := s.flags.(minus := true)) else s.(width := w), Rest(args))
    else if ch == '.' then Move(false, "", s.(prec := 0, state := InPrec), args)
    else Move(true, "", s.(state := InModifiers), args)
  }

  function PrecMove(s: Spec, ch: char, args: seq<Arg>): Move {
    if IsDecimal(ch) then Move(false, "", s.(prec := s.prec * 10 + DecimalOf(ch)), args)
    else if ch == '*' then Move(false, "", s.(prec := if IntOf(args) < 0 then -1 else IntOf(args)), Rest(args))
    else Move(true, "", s.(state := InModifiers), args)
  }

  function ModifierMove(s: Spec, ch: char, args: seq<Arg>): Move {
    match ch
    case 'h' => Move(false, "", s.(rank := s.rank - 1), args)
    case 'l' => Move(false, "", s.(rank := s.rank + 1), args)
    case 'j' => Move(false, "", s.(rank := 2), args)
    case 'z' => Move(false, "", s.(rank := 1), args)
    case 't' => Move(false, "", s.(rank := 1), args)
    case 'L' => Move(false, "", s.(rank := s.rank + 2), args)
    case 'q' => Move(false, "", s.(rank := s.rank + 2), args)
    case _ => Move(false, Field(ch, s, args), s.(state := Normal), if TakesArgument(ch) then Rest(args) else args)
  }

  function NextMove(s: Spec, ch: char, args: seq<Arg>): Move {
    match s.state
    case Normal => if ch == '%' then Move(false, "", START.(state := InFlags), args) else Move(false, [ch], s, args)
    case InFlags => FlagMove(s, ch, args)
    case InWidth => WidthMove(s, ch, args)
    case InPrec => PrecMove(s, ch, args)
    case InModifiers => ModifierMove(s, ch, args)
  }

  /** Looking at a character again leads on through the states. */
  function Ahead(state: State): nat {
    match state
    case InFlags => 2
    case InWidth => 1
    case InPrec => 1
    case InModifiers => 0
    case Normal => 0
  }

  // ----- a whole format

  /** Everything that the format prints from character p on. */
  function Render(format: string, p: nat, s: Spec, args: seq<Arg>): string
    decreases |format| - p, Ahead(s.state)
  {
    if p >= |format| || format[p] == NUL then ""
    else
      var m := NextMove(s, format[p], args);
      m.out + Render(format, if m.again then p else p + 1, m.spec, m.args)
  }

  /**
   A string conversion under a precision below -1, which takes a negative argument with digits behind
   it: the string is then read for a negative number of characters, and so beyond its end.
   */
  predicate ReadsBeyond(s: Spec, ch: char) {
    s.state.InModifiers? && (ch == 'c' || ch == 's') && s.prec < -1
  }

  /** No such conversion comes up from character p on. */
  predicate Defined(format: string, p: nat, s: Spec, args: seq<Arg>)
    decreases |format| - p, Ahead(s.state)
  {
    p < |format| && format[p] != NUL ==>
      && !ReadsBeyond(s, format[p])
      && var m := NextMove(s, format[p], args);
         Defined(format, if m.again then p else p + 1, m.spec, m.args)
  }

  // ----- the function

  /**
   %s and %c. The loop counts down to zero from the length; it misses zero if the length is negative,
   and then reads on behind the string. That is where this stops, with `ok` false.
   */
  method PrintString(buf: array<char>, q: int, o: nat, n: nat, sarg: string, flags: Flags, width: int, prec: int,
                     ghost before: seq<char>, ghost out: string)
    returns (ok: bool, q': int, o': nat)
    requires Stored(before, buf[..], 0, n, out) && o == |out| && (o < n ==> q == o)
    modifies buf
    ensures ok <==> prec >= -1
    ensures var all := out + StringField(sarg, flags, width, prec);
            ok ==> Stored(before, buf[..], 0, n, all) && o' == |all| && (o' < n ==> q' == o')
  {
    hide Stored;
    var slen: int := |sarg|;
    if prec != -1 && slen > prec {
      slen := prec;
    }
    q', o' := q, o;
    ghost var sofar := out;
    assert out + Repeat(' ', 0) == out && out + Repeat('0', 0) == out;
    if width > slen && !flags.minus {
      q', o' := Pad(buf, q', o', n, if flags.zero then '0' else ' ', width, slen, before, 0, sofar);
      sofar := sofar + Repeat(if flags.zero then '0' else ' ', width - slen);
    }
    ok, q', o' := CopyString(buf, q', o', n, sarg, slen, before, sofar);
    if !ok {
      return;
    }
    ghost var t := sarg[..slen];
    assert t == Truncated(sarg, prec);
    if width > slen && flags.minus {
      q', o' := Pad(buf, q', o', n, ' ', width, slen, before, 0, sofar + t);
    }
    FieldIs(out, sarg, flags, width, prec);
  }

  /** The loop over the characters of the string. */
  method CopyString(buf: array<char>, q: int, o: nat, n: nat, sarg: string, slen: int,
                    ghost before: seq<char>, ghost out: string)
    returns (ok: bool, q': int, o': nat)
    requires Stored(before, buf[..], 0, n, out) && o == |out| && (o < n ==> q == o)
    modifies buf
    ensures ok <==> 0 <= slen <= |sarg|
    ensures ok ==>
              && Stored(before, buf[..], 0, n, out + sarg[..slen]) && o' == |out + sarg[..slen]|
              && (o' < n ==> q' == o')
  {
    hide Stored;
    q', o' := q, o;
    var i, k := slen, 0;
    assert out + sarg[..0] == out;
    while i != 0
      invariant 0 <= k <= |sarg| && i == slen - k && (slen >= 0 ==> i >= 0)
      invariant Stored(before, buf[..], 0, n, out + sarg[..k])
      invariant o' == |out| + k && (o' < n ==> q' == o')
      decreases |sarg| - k
    {
      if k == |sarg| {
        return false, q', o';
      }
      q', o' := Emit(buf, q', o', n, sarg[k], before, 0, out + sarg[..k]);
      assert out + sarg[..k] + [sarg[k]] == out + sarg[..k + 1];
      i, k := i - 1, k + 1;
    }
    ok := true;
  }

  lemma FieldIs(out: string, s: string, flags: Flags, width: int, prec: int)
    ensures var t, field := Truncated(s, prec), out + StringField(s, flags, width, prec);
            && (!flags.minus ==> field == out + Repeat(if flags.zero then '0' else ' ', width - |t|) + t)
            && (flags.minus ==> field == out + t + Repeat(' ', width - |t|))
            && (width <= |t| ==> field == out + t)
  {
    hide Truncated;
    var t := Truncated(s, prec);
    if width <= |t| {
      assert Repeat(' ', width - |t|) == "" && Repeat('0', width - |t|) == "";
      assert "" + t == t && t + "" == t;
    }
  }

  /** Integer conversions. */
  method PrintInteger(buf: array<char>, q: int, o: nat, n: nat, ch: char, s: Spec, args: seq<Arg>,
                      ghost before: seq<char>, ghost out: string)
    returns (q': int, o': nat)
    requires Stored(before, buf[..], 0, n, out) && o == |out| && (o < n ==> q == o) && IsConversion(ch)
    modifies buf
    ensures var all := out + IntField(ch, s, args);
            Stored(before, buf[..], 0, n, all) && o' == |all| && (o' < n ==> q' == o')
  {
    hide Text, Stored, Cast;
    var rank := s.rank;
    if rank < -2 {
      rank := -2;
    } else if rank > 2 {
      rank := 2;
    }
    var base, flags, prec, val := 16, s.flags, s.prec, 0;
    if ch == 'P' || ch == 'p' {
      if ch == 'P' {
        flags := flags.(upper := true);
      }
      prec := 8;
      flags := flags.(hash := true);
      val := Cast(IntOf(args), 1, false);
    } else if ch == 'd' || ch == 'i' {
      base := 10;
      flags := flags.(signed := true);
      val := Cast(IntOf(args), rank, true);
    } else {
      if ch == 'o' {
        base := 8;
      } else if ch == 'u' {
        base := 10;
      } else if ch == 'X' {
        flags := flags.(upper := true);
      }
      val := Cast(IntOf(args), rank, false);
    }
    ghost var field := Text(val, flags, base, s.width, prec);
    assert field == IntField(ch, s, args);
    q', o' := PrintField(buf, q, o, n, val, flags, base, s.width, prec, before, out);
  }

  /** The call of format_int: it gets what room is left. */
  method PrintField(buf: array<char>, q: int, o: nat, n: nat, val: nat, flags: Flags, base: nat, width: int, prec: int,
                    ghost before: seq<char>, ghost out: string)
    returns (q': int, o': nat)
    requires Stored(before, buf[..], 0, n, out) && o == |out| && (o < n ==> q == o)
    requires val < TWO_64 && 2 <= base <= 16
    modifies buf
    ensures var all := out + Text(val, flags, base, width, prec);
            Stored(before, buf[..], 0, n, all) && o' == |all| && (o' < n ==> q' == o')
  {
    hide Text;
    ghost var mid := buf[..];
    var sz := FormatInt(buf, if o < n then q else 0, if o < n then n - o else 0, val, flags, base, width, prec);
    q' := q + sz;
    o' := o + sz;
    StoredOn(before, mid, buf[..], n, out, Text(val, flags, base, width, prec));
  }

  lemma StoredOn(before: seq<char>, mid: seq<char>, after: seq<char>, n: nat, out: string, field: string)
    requires Stored(before, mid, 0, n, out)
    requires if |out| < n then Stored(mid, after, |out|, n - |out|, field) else Stored(mid, after, 0, 0, field)
    ensures Stored(before, after, 0, n, out + field)
  {
  }

  /** A terminal character of a conversion. */
  method PrintConversion(buf: array<char>, q: int, o: nat, n: nat, ch: char, s: Spec, args: seq<Arg>,
                         ghost before: seq<char>, ghost out: string)
    returns (ok: bool, q': int, o': nat)
    requires Stored(before, buf[..], 0, n, out) && o == |out| && (o < n ==> q == o)
    modifies buf
    ensures ok <==> !((ch == 'c' || ch == 's') && s.prec < -1)
    ensures var all := out + Field(ch, s, args);
            ok ==> Stored(before, buf[..], 0, n, all) && o' == |all| && (o' < n ==> q' == o')
  {
    hide Stored, IntField, StringField;
    ok, q', o' := true, q, o;
    if IsConversion(ch) {
      q', o' := PrintInteger(buf, q, o, n, ch, s, args, before, out);
    } else if ch == 'c' {
      ok, q', o' := PrintString(buf, q, o, n, [CharOf(IntOf(args))], s.flags, s.width, s.prec, before, out);
    } else if ch == 's' {
      ok, q', o' := PrintString(buf, q, o, n, TextOf(args), s.flags, s.width, s.prec, before, out);
    } else if ch == 'n' {
      assert out + "" == out;
    } else {
      q', o' := Emit(buf, q, o, n, ch, before, 0, out);
    }
  }

  /** One character of the format. */
  method PrintOne(buf: array<char>, q: int, o: nat, n: nat, ch: char, s: Spec, args: seq<Arg>, ghost before: seq<char>,
                  ghost out: string)
    returns (ok: bool, q': int, o': nat, m: Move)
    requires Stored(before, buf[..], 0, n, out) && o == |out| && (o < n ==> q == o)
    modifies buf
    ensures m == NextMove(s, ch, args)
    ensures ok <==> !ReadsBeyond(s, ch)
    ensures ok ==> Stored(before, buf[..], 0, n, out + m.out) && o' == |out + m.out| && (o' < n ==> q' == o')
  {
    hide Stored, Field;
    ok, q', o' := true, q, o;
    assert out + "" == out;
    match s.state {
      case Normal =>
        if ch == '%' {
          m := Move(false, "", START.(state := InFlags), args);
        } else {
          q', o' := Emit(buf, q, o, n, ch, before, 0, out);
          m := Move(false, [ch], s, args);
        }
      case InFlags => m := FlagMove(s, ch, args);
      case InWidth => m := WidthMove(s, ch, args);
      case InPrec => m := PrecMove(s, ch, args);
      case InModifiers =>
        m := ModifierMove(s, ch, args);
        if m.spec.state == Normal {
          ok, q', o' := PrintConversion(buf, q, o, n, ch, s, args, before, out);
        }
    }
  }

  /** The buffer holds the beginning of the output, a NUL, and beyond what it was given nothing new. */
  ghost predicate Printed(before: seq<char>, after: seq<char>, n: nat, out: string) {
    && |after| == |before| && n <= |before|
    && (n > 0 ==>
          var len := Min(|out|, n - 1);
          after[..len] == out[..len] && after[len] == NUL && after[len + 1..] == before[len + 1..])
    && (n == 0 ==> after == before)
  }

  /**
   vsnprintf: whatever the size of the buffer, it returns the length of all that the format prints,
   and the buffer receives as much of it as fits with a NUL after it; unless, and this exactly if the
   format is not defined for the arguments, it reads on behind the end of a string.
   */
  method Print(buf: array<char>, n: nat, format: string, args: seq<Arg>) returns (ok: bool, len: nat)
    requires n <= buf.Length
    modifies buf
    ensures ok <==> Defined(format, 0, START, args)
    ensures ok ==> len == |Render(format, 0, START, args)|
    ensures ok ==> Printed(old(buf[..]), buf[..], n, Render(format, 0, START, args))
  {
    hide *;
    ghost var before, all := buf[..], Render(format, 0, START, args);
    var p, q: int, o: nat, s, left := 0, 0, 0, START, args;
    ghost var out := "";
    StoredNothing(before, 0, n);
    NothingBefore(all);
    while p < |format| && format[p] != NUL
      invariant 0 <= p <= |format| && (Defined(format, p, s, left) <==> Defined(format, 0, START, args))
      invariant Stored(before, buf[..], 0, n, out) && o == |out| && (o < n ==> q == o)
      invariant out + Render(format, p, s, left) == all
      decreases |format| - p, Ahead(s.state)
    {
      RenderStep(format, p, s, left, out);
      LeadsOn(s, format[p], left);
      var m;
      ok, q, o, m := PrintOne(buf, q, o, n, format[p], s, left, before, out);
      if !ok {
        return false, o;
      }
      out := out + m.out;
      s, left := m.spec, m.args;
      if !m.again {
        p := p + 1;
      }
    }
    RenderEnd(format, p, s, left, out);
    Terminate(buf, q, o, n, before, all);
    ok, len := true, o;
  }

  /** The least of such inputs: a precision of -1 as an argument, with a digit behind it, and a string. */
  lemma NegativePrecision()
    ensures !Defined("%.*5s", 0, START, [Int(-1), Str("x")])
  {
    var format, args := "%.*5s", [Int(-1), Str("x")];
    var flags := START.(state := InFlags);
    assert format[0] == '%' && format[1] == '.' && format[2] == '*' && format[3] == '5' && format[4] == 's';
    OneMove(format, 0, START, args);
    OneMove(format, 1, flags, args);
    OneMove(format, 1, flags.(state := InWidth), args);
    var prec := flags.(state := InPrec, prec := 0);
    OneMove(format, 2, prec, args);
    assert Rest(args) == [Str("x")];
    OneMove(format, 3, prec.(prec := -1), [Str("x")]);
    OneMove(format, 4, prec.(prec := -5), [Str("x")]);
    assert ReadsBeyond(prec.(state := InModifiers, prec := -5), 's');
  }

  lemma OneMove(format: string, p: nat, s: Spec, args: seq<Arg>)
    requires p < |format| && format[p] != NUL && !ReadsBeyond(s, format[p])
    ensures var m := NextMove(s, format[p], args);
            Defined(format, p, s, args) <==> Defined(format, if m.again then p else p + 1, m.spec, m.args)
  {
    hide NextMove;
  }

  /** Null-terminate the string, at the end of the buffer if need be. */
  method Terminate(buf: array<char>, q: int, o: nat, n: nat, ghost before: seq<char>, ghost out: string)
    requires Stored(before, buf[..], 0, n, out) && o == |out| && (o < n ==> q == o)
    modifies buf
    ensures Printed(before, buf[..], n, out)
  {
    ghost var mid := buf[..];
    if o < n {
      buf[q] := NUL;
    } else if n > 0 {
      buf[n - 1] := NUL;
    }
    EndsWithNul(before, mid, buf[..], n, out);
  }

  lemma NothingBefore(all: string)
    ensures "" + all == all
  {
  }

  lemma RenderStep(format: string, p: nat, s: Spec, args: seq<Arg>, out: string)
    requires p < |format| && format[p] != NUL
    ensures var m := NextMove(s, format[p], args);
            var p' := if m.again then p else p + 1;
            && (Defined(format, p, s, args) <==> !ReadsBeyond(s, format[p]) && Defined(format, p', m.spec, m.args))
            && out + Render(format, p, s, args) == out + m.out + Render(format, p', m.spec, m.args)
  {
    hide NextMove;
    var m := NextMove(s, format[p], args);
    Associative(out, m.out, Render(format, if m.again then p else p + 1, m.spec, m.args));
  }

  lemma RenderEnd(format: string, p: nat, s: Spec, args: seq<Arg>, out: string)
    requires p >= |format| || format[p] == NUL
    ensures out + Render(format, p, s, args) == out && Defined(format, p, s, args)
  {
    assert out + "" == out;
  }

  lemma Associative(a: string, b: string, c: string)
    ensures a + (b + c) == a + b + c
  {
  }

  lemma EndsWithNul(before: seq<char>, mid: seq<char>, after: seq<char>, n: nat, out: string)
    requires Stored(before, mid, 0, n, out)
    requires after == if |out| < n then mid[|out| := NUL] else if n > 0 then mid[n - 1 := NUL] else mid
    ensures Printed(before, after, n, out)
  {
  }

  lemma LeadsOn(s: Spec, ch: char, args: seq<Arg>)
    ensures NextMove(s, ch, args).again ==> Ahead(NextMove(s, ch, args).spec.state) < Ahead(s.state)
  {
    hide Field;
  }
}
