/**
 What formats mean: conversions are described by the text they are written as, flags, width,
 precision, length modifiers and a letter, and what Render makes of them is stated of the characters
 that come out.
 */
module FormatMeaning {
  import BitString
  import opened IntegerText
  import opened Vsnprintf

  /** What a format prints, from its beginning. */
  function Shown(format: string, args: seq<Arg>): string {
    Render(format, 0, START, args)
  }

  /** The same, in the middle of a specification. */
  function Going(rest: string, s: Spec, args: seq<Arg>): string {
    Render(rest, 0, s, args)
  }

  // ----- reading a format from its beginning

  lemma {:induction false} RenderBehind(a: string, b: string, p: nat, s: Spec, args: seq<Arg>)
    ensures Render(a + b, |a| + p, s, args) == Render(b, p, s, args)
    decreases |b| - p, Ahead(s.state)
  {
    if p < |b| && b[p] != NUL {
      assert (a + b)[|a| + p] == b[p];
      LeadsOn(s, b[p], args);
      var m := NextMove(s, b[p], args);
      hide NextMove;
      RenderBehind(a, b, if m.again then p else p + 1, m.spec, m.args);
    }
  }

  /** One character of the format. */
  lemma Step(c: char, rest: string, s: Spec, args: seq<Arg>)
    requires c != NUL
    ensures var m := NextMove(s, c, args);
            Going([c] + rest, s, args) == m.out + Going(if m.again then [c] + rest else rest, m.spec, m.args)
  {
    hide NextMove;
    var m := NextMove(s, c, args);
    assert ([c] + rest)[0] == c;
    if !m.again {
      RenderBehind([c], rest, 0, m.spec, m.args);
    }
  }

  /** Between conversions nothing is left of the last one. */
  lemma {:induction false} Afresh(rest: string, s: Spec, args: seq<Arg>)
    requires s.state.Normal?
    ensures Going(rest, s, args) == Shown(rest, args)
    decreases |rest|
  {
    if rest != "" && rest[0] != NUL {
      assert rest == [rest[0]] + rest[1..];
      Step(rest[0], rest[1..], s, args);
      Step(rest[0], rest[1..], START, args);
      if rest[0] != '%' {
        Afresh(rest[1..], s, args);
      }
    }
  }

  // ----- how a conversion is written

  predicate IsFlag(c: char) {
    c in {'-', '+', '\'', ' ', '#', '0'}
  }

  /** What can end a conversion: any character that is nothing else in one. */
  predicate IsLetter(c: char) {
    && c != NUL && !IsFlag(c) && !('0' <= c <= '9') && c != '*' && c != '.'
    && c !in {'h', 'l', 'j', 'z', 't', 'L', 'q'}
  }

  /** The letters that take an argument. */
  predicate TakesOne(c: char) {
    c in {'d', 'i', 'o', 'u', 'x', 'X', 'p', 'P', 'c', 's', 'n'}
  }

  predicate AllFlags(s: string) {
    forall i :: 0 <= i < |s| ==> IsFlag(s[i])
  }

  predicate AllDigits(s: string) {
    forall i :: 0 <= i < |s| ==> '0' <= s[i] <= '9'
  }

  /** A number in decimal. */
  function NumberOf(s: string): nat
    requires AllDigits(s)
  {
    if s == "" then 0 else NumberOf(s[..|s| - 1]) * 10 + (s[|s| - 1] as int - '0' as int)
  }

  /** The width and the precision may be given by arguments. */
  datatype Conversion = Conversion(flags: string, width: string, prec: string, mods: string, ch: char) {
    predicate WellFormed() {
      && AllFlags(flags)
      && (width == "*" || (AllDigits(width) && (width != "" ==> width[0] != '0')))
      && (prec == "" || prec == ".*" || (prec[0] == '.' && AllDigits(prec[1..])))
      && mods in {"", "hh", "h", "l", "ll", "j", "z", "t", "L", "q"}
      && IsLetter(ch)
    }

    function Written(): string {
      "%" + flags + width + prec + mods + [ch]
    }

    /** The arguments behind those for width and precision. */
    function Operands(args: seq<Arg>): seq<Arg> {
      var more := if width == "*" then Rest(args) else args;
      if prec == ".*" then Rest(more) else more
    }

    function WidthGiven(args: seq<Arg>): int
      requires WellFormed()
    {
      if width == "*" then IntOf(args) else NumberOf(width)
    }

    /** -1 if there is none. */
    function Precision(args: seq<Arg>): int
      requires WellFormed()
    {
      if prec == "" then -1
      else if prec == ".*" then
        var p := IntOf(if width == "*" then Rest(args) else args);
        if p < 0 then -1 else p
      else NumberOf(prec[1..])
    }

    /** To the left: asked for by a flag, or by a negative argument. */
    predicate Left(args: seq<Arg>)
      requires WellFormed()
    {
      '-' in flags || WidthGiven(args) < 0
    }

    function FieldWidth(args: seq<Arg>): nat
      requires WellFormed()
    {
      if WidthGiven(args) < 0 then -WidthGiven(args) else WidthGiven(args)
    }

    /** The bits of the argument's type; long is as wide as int here. */
    function TypeBits(): nat {
      if mods == "hh" then 8
      else if mods == "h" then 16
      else if mods in {"", "l", "z", "t"} then 32
      else 64
    }
  }

  // ----- reading it

  function WithFlags(flags: Flags, fs: string): Flags {
    flags.(zero := flags.zero || '0' in fs, minus := flags.minus || '-' in fs, plus := flags.plus || '+' in fs,
           tick := flags.tick || '\'' in fs, space := flags.space || ' ' in fs, hash := flags.hash || '#' in fs)
  }

  lemma {:induction false} ReadFlags(fs: string, rest: string, s: Spec, args: seq<Arg>)
    requires s.state.InFlags? && AllFlags(fs)
    ensures Going(fs + rest, s, args) == Going(rest, s.(flags := WithFlags(s.flags, fs)), args)
    decreases |fs|
  {
    hide Going;
    if fs == "" {
      assert fs + rest == rest;
    } else {
      var more := s.(flags := WithFlags(s.flags, [fs[0]]));
      assert fs + rest == [fs[0]] + (fs[1..] + rest) && fs == [fs[0]] + fs[1..];
      FlagByFlag(s.flags, fs);
      ReadOneFlag(fs[0], fs[1..] + rest, s, args);
      hide WithFlags;
      ReadFlags(fs[1..], rest, more, args);
    }
  }

  lemma FlagByFlag(flags: Flags, fs: string)
    requires fs != ""
    ensures WithFlags(WithFlags(flags, [fs[0]]), fs[1..]) == WithFlags(flags, fs)
  {
    assert fs == [fs[0]] + fs[1..];
  }

  lemma ReadOneFlag(c: char, rest: string, s: Spec, args: seq<Arg>)
    requires s.state.InFlags? && IsFlag(c)
    ensures Going([c] + rest, s, args) == Going(rest, s.(flags := WithFlags(s.flags, [c])), args)
  {
    hide Going;
    FlagMove(c, s, args);
    Step(c, rest, s, args);
    hide *;
    NoOutput(Going(rest, s.(flags := WithFlags(s.flags, [c])), args));
  }

  lemma FlagMove(c: char, s: Spec, args: seq<Arg>)
    requires s.state.InFlags? && IsFlag(c)
    ensures c != NUL
    ensures NextMove(s, c, args) == Move(false, "", s.(flags := WithFlags(s.flags, [c])), args)
  {
  }

  lemma NoOutput(t: string)
    ensures "" + t == t
  {
  }

  lemma LeaveFlags(c: char, rest: string, s: Spec, args: seq<Arg>)
    requires s.state.InFlags? && c != NUL && !IsFlag(c)
    ensures Going([c] + rest, s, args) == Going([c] + rest, s.(state := InWidth), args)
  {
    Step(c, rest, s, args);
    hide Going;
    NoOutput(Going([c] + rest, s.(state := InWidth), args));
  }

  /** v with further digits behind it. */
  function Onto(v: int, s: string): int
    requires AllDigits(s)
  {
    if s == "" then v else Onto(v, s[..|s| - 1]) * 10 + (s[|s| - 1] as int - '0' as int)
  }

  lemma {:induction false} OntoFirst(v: int, c: char, s: string)
    requires '0' <= c <= '9' && AllDigits(s)
    ensures AllDigits([c] + s) && Onto(v, [c] + s) == Onto(v * 10 + (c as int - '0' as int), s)
  {
    var t := [c] + s;
    if s != "" {
      OntoFirst(v, c, s[..|s| - 1]);
      assert t[..|t| - 1] == [c] + s[..|s| - 1];
    }
  }

  lemma {:induction false} OntoZero(s: string)
    requires AllDigits(s)
    ensures Onto(0, s) == NumberOf(s)
  {
    if s != "" {
      OntoZero(s[..|s| - 1]);
    }
  }

  lemma {:induction false} ReadWidth(ws: string, rest: string, s: Spec, args: seq<Arg>)
    requires s.state.InWidth? && AllDigits(ws)
    ensures Going(ws + rest, s, args) == Going(rest, s.(width := Onto(s.width, ws)), args)
    decreases |ws|
  {
    hide Going, Onto;
    if ws == "" {
      assert ws + rest == rest;
      OntoNothing(s.width);
    } else {
      var more := s.(width := s.width * 10 + (ws[0] as int - '0' as int));
      assert ws + rest == [ws[0]] + (ws[1..] + rest) && ws == [ws[0]] + ws[1..];
      Step(ws[0], ws[1..] + rest, s, args);
      NoOutput(Going(ws[1..] + rest, more, args));
      ReadWidth(ws[1..], rest, more, args);
      OntoFirst(s.width, ws[0], ws[1..]);
    }
  }

  lemma OntoNothing(v: int)
    ensures Onto(v, "") == v
  {
  }

  lemma {:induction false} ReadPrecision(ps: string, rest: string, s: Spec, args: seq<Arg>)
    requires s.state.InPrec? && AllDigits(ps)
    ensures Going(ps + rest, s, args) == Going(rest, s.(prec := Onto(s.prec, ps)), args)
    decreases |ps|
  {
    hide Going, Onto;
    if ps == "" {
      assert ps + rest == rest;
      OntoNothing(s.prec);
    } else {
      var more := s.(prec := s.prec * 10 + (ps[0] as int - '0' as int));
      assert ps + rest == [ps[0]] + (ps[1..] + rest) && ps == [ps[0]] + ps[1..];
      Step(ps[0], ps[1..] + rest, s, args);
      NoOutput(Going(ps[1..] + rest, more, args));
      ReadPrecision(ps[1..], rest, more, args);
      OntoFirst(s.prec, ps[0], ps[1..]);
    }
  }

  /** What may follow width and precision: a modifier or the letter. */
  predicate GoesOn(c: char) {
    c != NUL && !IsFlag(c) && !('0' <= c <= '9') && c != '*' && c != '.'
  }

  lemma LeaveWidth(c: char, rest: string, s: Spec, args: seq<Arg>)
    requires (s.state.InWidth? || s.state.InPrec?) && GoesOn(c)
    ensures Going([c] + rest, s, args) == Going([c] + rest, s.(state := InModifiers), args)
  {
    Step(c, rest, s, args);
    hide Going;
    NoOutput(Going([c] + rest, s.(state := InModifiers), args));
  }

  function RankOf(mods: string): int {
    if mods == "hh" then -2
    else if mods == "h" then -1
    else if mods == "" then 0
    else if mods in {"l", "z", "t"} then 1
    else 2
  }

  lemma ReadOneModifier(c: char, rest: string, s: Spec, args: seq<Arg>)
    requires s.state.InModifiers? && c in {'h', 'l', 'j', 'z', 't', 'L', 'q'}
    ensures Going([c] + rest, s, args)
         == Going(rest, s.(rank := if c == 'h' then s.rank - 1
                                   else if c == 'l' then s.rank + 1
                                   else if c == 'j' then 2
                                   else if c in {'z', 't'} then 1
                                   else s.rank + 2), args)
  {
    Step(c, rest, s, args);
    hide Going;
    NoOutput(Going(rest, NextMove(s, c, args).spec, args));
  }

  lemma ReadModifiers(mods: string, rest: string, s: Spec, args: seq<Arg>)
    requires s.state.InModifiers? && s.rank == 0 && mods in {"", "hh", "h", "l", "ll", "j", "z", "t", "L", "q"}
    ensures Going(mods + rest, s, args) == Going(rest, s.(rank := RankOf(mods)), args)
  {
    hide Going;
    if mods == "" {
      assert mods + rest == rest;
      assert s.(rank := 0) == s;
    } else if |mods| == 1 {
      ReadOneModifier(mods[0], rest, s, args);
      assert mods == [mods[0]];
    } else {
      assert mods == [mods[0]] + [mods[1]] && mods[0] == mods[1];
      assert mods + rest == [mods[0]] + ([mods[1]] + rest);
      ReadOneModifier(mods[0], [mods[1]] + rest, s, args);
      ReadOneModifier(mods[1], rest, s.(rank := if mods[0] == 'h' then -1 else 1), args);
    }
  }

  /** The letter: its output, and then the rest of the format with the next arguments. */
  lemma ReadLetter(ch: char, rest: string, s: Spec, args: seq<Arg>)
    requires s.state.InModifiers? && IsLetter(ch)
    ensures Going([ch] + rest, s, args)
         == Field(ch, s, args) + Shown(rest, if TakesOne(ch) then Rest(args) else args)
  {
    hide Field, NextMove, Render;
    LetterMove(ch, s, args);
    Step(ch, rest, s, args);
    Afresh(rest, s.(state := Normal), if TakesOne(ch) then Rest(args) else args);
  }

  lemma LetterMove(ch: char, s: Spec, args: seq<Arg>)
    requires s.state.InModifiers? && IsLetter(ch)
    ensures NextMove(s, ch, args)
         == Move(false, Field(ch, s, args), s.(state := Normal), if TakesOne(ch) then Rest(args) else args)
    ensures ch != NUL
  {
    hide Field, Rest;
  }

  // ----- a whole conversion

  /** The specification that a conversion comes to. */
  function SpecOf(c: Conversion, args: seq<Arg>): Spec
    requires c.WellFormed()
  {
    Spec(InModifiers, WithFlags(NO_FLAGS, c.flags).(minus := c.Left(args)), RankOf(c.mods), c.FieldWidth(args),
         c.Precision(args))
  }

  lemma WidthPart(c: Conversion, rest: string, s: Spec, args: seq<Arg>)
    requires c.WellFormed() && s.state.InWidth? && s.width == 0 && s.flags.minus == ('-' in c.flags)
    ensures Going(c.width + rest, s, args)
         == Going(rest, s.(width := c.FieldWidth(args), flags := s.flags.(minus := c.Left(args))),
                  if c.width == "*" then Rest(args) else args)
  {
    if c.width == "*" {
      assert c.width == ['*'];
      Step('*', rest, s, args);
      hide Going;
      NoOutput(Going(rest, s.(width := c.FieldWidth(args), flags := s.flags.(minus := c.Left(args))), Rest(args)));
    } else {
      ReadWidth(c.width, rest, s, args);
      OntoZero(c.width);
      assert s.flags.(minus := c.Left(args)) == s.flags;
    }
  }

  lemma PrecisionPart(c: Conversion, next: char, rest: string, s: Spec, args: seq<Arg>)
    requires c.WellFormed() && s.state.InWidth? && s.prec == -1 && GoesOn(next)
    ensures var p := if c.prec == ".*" then (if IntOf(args) < 0 then -1 else IntOf(args))
              else if c.prec == "" then -1 else NumberOf(c.prec[1..]);
            Going(c.prec + ([next] + rest), s, args)
              == Going([next] + rest, s.(prec := p, state := InModifiers), if c.prec == ".*" then Rest(args) else args)
  {
    if c.prec == "" {
      assert c.prec + ([next] + rest) == [next] + rest;
      LeaveWidth(next, rest, s, args);
      assert s.(prec := -1) == s;
    } else {
      var digits := c.prec[1..];
      assert c.prec + ([next] + rest) == ['.'] + (digits + ([next] + rest));
      var t := s.(prec := 0, state := InPrec);
      AfterPoint(digits + ([next] + rest), s, args);
      if c.prec == ".*" {
        StarPrecision([next] + rest, t, args);
        assert digits == ['*'];
        LeaveWidth(next, rest, t.(prec := if IntOf(args) < 0 then -1 else IntOf(args)), Rest(args));
      } else {
        ReadPrecision(digits, [next] + rest, t, args);
        OntoZero(digits);
        LeaveWidth(next, rest, t.(prec := NumberOf(digits)), args);
      }
    }
  }

  lemma AfterPoint(rest: string, s: Spec, args: seq<Arg>)
    requires s.state.InWidth?
    ensures Going(['.'] + rest, s, args) == Going(rest, s.(prec := 0, state := InPrec), args)
  {
    Step('.', rest, s, args);
    hide Going;
    NoOutput(Going(rest, s.(prec := 0, state := InPrec), args));
  }

  lemma StarPrecision(rest: string, s: Spec, args: seq<Arg>)
    requires s.state.InPrec?
    ensures Going(['*'] + rest, s, args)
         == Going(rest, s.(prec := if IntOf(args) < 0 then -1 else IntOf(args)), Rest(args))
  {
    Step('*', rest, s, args);
    hide Going;
    NoOutput(Going(rest, s.(prec := if IntOf(args) < 0 then -1 else IntOf(args)), Rest(args)));
  }

  lemma StartOfConversion(rest: string, args: seq<Arg>)
    ensures Shown(['%'] + rest, args) == Going(rest, START.(state := InFlags), args)
  {
    Step('%', rest, START, args);
    NoOutput(Going(rest, START.(state := InFlags), args));
  }

  /** What comes behind the flags is no flag. */
  lemma BehindFlags(c: Conversion)
    requires c.WellFormed()
    ensures var t := c.width + (c.prec + (c.mods + [c.ch]));
            t != "" && t[0] != NUL && !IsFlag(t[0])
    ensures var t := c.mods + [c.ch]; t != "" && GoesOn(t[0])
  {
    assert (c.mods + [c.ch])[0] == if c.mods == "" then c.ch else c.mods[0];
  }

  lemma Regrouped(c: Conversion, tail: string)
    ensures c.Written() + tail == ['%'] + (c.flags + (c.width + (c.prec + (c.mods + ([c.ch] + tail)))))
  {
  }

  /** A conversion prints its field, and the format goes on behind it with the arguments left. */
  lemma ConversionShows(c: Conversion, tail: string, args: seq<Arg>)
    requires c.WellFormed()
    ensures var left := c.Operands(args);
            Shown(c.Written() + tail, args)
              == Field(c.ch, SpecOf(c, args), left) + Shown(tail, if TakesOne(c.ch) then Rest(left) else left)
  {
    var letter := [c.ch] + tail;
    var t3 := c.mods + letter;
    var t2 := c.prec + t3;
    var t1 := c.width + t2;
    var a1 := if c.width == "*" then Rest(args) else args;
    var flags := WithFlags(NO_FLAGS, c.flags);
    var s1 := START.(state := InFlags, flags := flags);
    var s2 := s1.(state := InWidth);
    var s3 := s2.(width := c.FieldWidth(args), flags := flags.(minus := c.Left(args)));
    var s4 := s3.(prec := c.Precision(args), state := InModifiers);
    BehindFlags(c);
    Heads(c, tail);
    Regrouped(c, tail);
    hide Going, Shown, Field, Conversion.WellFormed, IsFlag, GoesOn, AllFlags, AllDigits;
    StartOfConversion(c.flags + t1, args);
    WellFormedParts(c);
    ReadFlags(c.flags, t1, START.(state := InFlags), args);
    LeaveFlags(t1[0], t1[1..], s1, args);
    WidthPart(c, t2, s2, args);
    PrecisionPart(c, t3[0], t3[1..], s3, a1);
    ReadModifiers(c.mods, letter, s4, c.Operands(args));
    ReadLetter(c.ch, tail, s4.(rank := RankOf(c.mods)), c.Operands(args));
  }

  lemma WellFormedParts(c: Conversion)
    requires c.WellFormed()
    ensures AllFlags(c.flags) && c.mods in {"", "hh", "h", "l", "ll", "j", "z", "t", "L", "q"}
    ensures IsLetter(c.ch)
  {
  }

  lemma Heads(c: Conversion, tail: string)
    requires c.WellFormed()
    ensures var t3 := c.mods + ([c.ch] + tail);
            var t1 := c.width + (c.prec + t3);
            && t3 != "" && t3 == [t3[0]] + t3[1..] && GoesOn(t3[0])
            && t1 != "" && t1 == [t1[0]] + t1[1..] && t1[0] != NUL && !IsFlag(t1[0])
  {
    BehindFlags(c);
    var u3, u1 := c.mods + [c.ch], c.width + (c.prec + (c.mods + [c.ch]));
    assert c.mods + ([c.ch] + tail) == u3 + tail;
    assert c.width + (c.prec + (u3 + tail)) == u1 + tail;
  }

  // ----- integers

  /** How many values an integer type of so many bits has. */
  function Values(bits: nat): (n: nat)
    ensures n > 0
  {
    if bits == 8 then 0x100 else if bits == 16 then 0x1_0000 else if bits == 32 then 0x1_0000_0000 else TWO_64
  }

  predicate IsSigned(ch: char) {
    ch == 'd' || ch == 'i'
  }

  predicate IsPointer(ch: char) {
    ch == 'p' || ch == 'P'
  }

  predicate IsInteger(ch: char) {
    IsSigned(ch) || IsPointer(ch) || ch in {'o', 'u', 'x', 'X'}
  }

  /** The base that C has for each letter. */
  function BaseFor(ch: char): nat {
    match ch
    case 'd' => 10
    case 'i' => 10
    case 'u' => 10
    case 'o' => 8
    case _ => 16
  }

  /** The argument is one of its type. */
  predicate InType(c: Conversion, v: int) {
    if IsSigned(c.ch) then -(Values(c.TypeBits()) / 2) <= v < Values(c.TypeBits()) / 2
    else 0 <= v < Values(if IsPointer(c.ch) then 32 else c.TypeBits())
  }

  lemma OneConversion(c: Conversion, args: seq<Arg>)
    requires c.WellFormed()
    ensures Shown(c.Written(), args) == Field(c.ch, SpecOf(c, args), c.Operands(args))
  {
    hide Field, SpecOf;
    ConversionShows(c, "", args);
    assert c.Written() + "" == c.Written();
    NothingMore(if TakesOne(c.ch) then Rest(c.Operands(args)) else c.Operands(args));
    assert Field(c.ch, SpecOf(c, args), c.Operands(args)) + "" == Field(c.ch, SpecOf(c, args), c.Operands(args));
  }

  lemma NothingMore(args: seq<Arg>)
    ensures Shown("", args) == ""
  {
  }

  lemma CastIs(c: Conversion, v: int)
    requires c.WellFormed() && IsInteger(c.ch) && !IsPointer(c.ch) && InType(c, v)
    ensures Cast(v, Clamped(RankOf(c.mods)), IsSigned(c.ch)) == if v < 0 then TWO_64 + v else v
  {
    var m := Values(c.TypeBits());
    ModulusIs(c);
    if v < 0 {
      BitString.DivModUnique(v, m, -1, v + m);
    }
    hide RankOf, Clamped, Width, Conversion.TypeBits;
  }

  lemma ModulusIs(c: Conversion)
    requires c.WellFormed()
    ensures Modulus(Width(Clamped(RankOf(c.mods)))) == Values(c.TypeBits())
  {
  }

  lemma PointerCast(v: int)
    requires 0 <= v < Values(32)
    ensures Cast(v, 1, false) == v
  {
  }

  /** The flags as format_int gets them. */
  function FlagsFor(c: Conversion, args: seq<Arg>): Flags
    requires c.WellFormed()
  {
    Flags('0' in c.flags, c.Left(args), '+' in c.flags, '\'' in c.flags, ' ' in c.flags,
          '#' in c.flags || IsPointer(c.ch), IsSigned(c.ch), c.ch == 'X' || c.ch == 'P')
  }

  function PrecisionFor(c: Conversion, args: seq<Arg>): int
    requires c.WellFormed()
  {
    if IsPointer(c.ch) then 8 else c.Precision(args)
  }

  /** The 64-bit pattern of an argument. */
  function Pattern(v: int): nat
    requires -TWO_63 <= v < TWO_64
  {
    if v < 0 then TWO_64 + v else v
  }

  lemma InTypeFits(c: Conversion, v: int)
    requires InType(c, v)
    ensures -TWO_63 <= v < TWO_64 && (v < 0 ==> IsSigned(c.ch)) && (IsSigned(c.ch) ==> v < TWO_63)
  {
  }

  /** A conversion of an integer is the text of the argument. */
  lemma IntegerShows(c: Conversion, args: seq<Arg>)
    requires c.WellFormed() && IsInteger(c.ch) && InType(c, IntOf(c.Operands(args)))
    ensures -TWO_63 <= IntOf(c.Operands(args)) < TWO_64
    ensures Shown(c.Written(), args)
         == Text(Pattern(IntOf(c.Operands(args))), FlagsFor(c, args), BaseFor(c.ch), c.FieldWidth(args),
                 PrecisionFor(c, args))
  {
    var v, s := IntOf(c.Operands(args)), SpecOf(c, args);
    OneConversion(c, args);
    InTypeFits(c, v);
    assert IntFlags(c.ch, s.flags) == FlagsFor(c, args);
    if IsPointer(c.ch) {
      PointerCast(v);
    } else {
      CastIs(c, v);
    }
    hide Text, Cast, Shown, SpecOf, Values, Conversion.WellFormed, Conversion.TypeBits, WithFlags;
    assert s.rank == RankOf(c.mods) && s.width == c.FieldWidth(args) && s.prec == c.Precision(args) by {
      SpecParts(c, args);
    }
  }

  lemma SpecParts(c: Conversion, args: seq<Arg>)
    requires c.WellFormed()
    ensures var s := SpecOf(c, args);
            s.rank == RankOf(c.mods) && s.width == c.FieldWidth(args) && s.prec == c.Precision(args)
  {
  }

  /**
   What %d, %i, %u, %o, %x, %X, %p and %P print reads back as the argument, in base 10, 8 or 16, under
   every length modifier and whatever the flags but the tick, the width and the precision, also before
   text that is no digit.
   */
  lemma PrintsItsArgument(c: Conversion, args: seq<Arg>, rest: string)
    requires c.WellFormed() && IsInteger(c.ch) && '\'' !in c.flags && InType(c, IntOf(c.Operands(args))) && Stops(rest)
    ensures var v := IntOf(c.Operands(args));
            Value(Shown(c.Written(), args) + rest, BaseFor(c.ch)) == if v < 0 then TWO_64 + v else v
  {
    IntegerShows(c, args);
    var v := IntOf(c.Operands(args));
    var val, flags, base := Pattern(v), FlagsFor(c, args), BaseFor(c.ch);
    assert !flags.tick;
    hide Text, Value, Shown, Leftover, InType, Conversion.WellFormed;
    TextRoundTrip(val, flags, base, c.FieldWidth(args), PrecisionFor(c, args), rest);
  }

  // ----- the parts of an integer field

  /** A digit of the base, in the case that the letter asks for. */
  predicate DigitFor(ch: char, d: char) {
    if BaseFor(ch) == 8 then '0' <= d <= '7'
    else if BaseFor(ch) == 10 then '0' <= d <= '9'
    else '0' <= d <= '9' || (if ch == 'X' || ch == 'P' then 'A' <= d <= 'F' else 'a' <= d <= 'f')
  }

  lemma DigitIs(ch: char, d: nat)
    requires IsInteger(ch) && d < BaseFor(ch)
    ensures DigitFor(ch, Digit(d, ch == 'X' || ch == 'P')) && (d > 0 ==> Digit(d, ch == 'X' || ch == 'P') != '0')
    ensures Digit(0, ch == 'X' || ch == 'P') == '0'
  {
    assert "0123456789ABCDEF"[d] == if d < 10 then (48 + d) as char else (55 + d) as char;
    assert "0123456789abcdef"[d] == if d < 10 then (48 + d) as char else (87 + d) as char;
  }

  lemma OneMoreDigitOf(ch: char, s: string, d: char)
    requires (forall i :: 0 <= i < |s| ==> DigitFor(ch, s[i])) && DigitFor(ch, d)
    ensures forall i :: 0 <= i < |s + [d]| ==> DigitFor(ch, (s + [d])[i])
  {
  }

  lemma {:induction false} DigitsAre(ch: char, v: nat, k: nat)
    requires IsInteger(ch)
    ensures var s := Digits(v, BaseFor(ch), k, ch == 'X' || ch == 'P');
            forall i :: 0 <= i < |s| ==> DigitFor(ch, s[i])
  {
    hide DigitFor, Digit;
    if k > 0 {
      var upper := ch == 'X' || ch == 'P';
      DigitsAre(ch, v / BaseFor(ch), k - 1);
      DigitIs(ch, v % BaseFor(ch));
      DigitsUnfold(v, BaseFor(ch), k, upper);
      OneMoreDigitOf(ch, Digits(v / BaseFor(ch), BaseFor(ch), k - 1, upper), Digit(v % BaseFor(ch), upper));
    }
  }

  /** Written with no more digits than it needs, a number does not begin with a zero; with one more it does. */
  lemma {:induction false} FirstDigit(ch: char, v: nat, k: nat)
    requires IsInteger(ch) && k > 0 && NumDigits(v, BaseFor(ch)) <= k
    ensures Digits(v, BaseFor(ch), k, ch == 'X' || ch == 'P')[0] == '0' <==> NumDigits(v, BaseFor(ch)) < k
    decreases k
  {
    var base, upper := BaseFor(ch), ch == 'X' || ch == 'P';
    hide Digit;
    FewerDigits(v, base, k);
    DigitsUnfold(v, base, k, upper);
    if k == 1 {
      OneDigit(ch, v);
    } else {
      FirstDigit(ch, v / base, k - 1);
      DigitsLeft(v, base, k);
    }
  }

  lemma OneDigit(ch: char, v: nat)
    requires IsInteger(ch) && NumDigits(v, BaseFor(ch)) <= 1
    ensures Digits(v, BaseFor(ch), 1, ch == 'X' || ch == 'P')[0] == '0' <==> NumDigits(v, BaseFor(ch)) < 1
  {
    var base := BaseFor(ch);
    DigitIs(ch, v % base);
    if v > 0 {
      assert NumDigits(v / base, base) == 0;
      assert v / base == 0;
    }
    hide Digit;
  }

  lemma DigitsLeft(v: nat, base: nat, k: nat)
    requires base >= 2 && k > 1
    ensures NumDigits(v / base, base) < k - 1 <==> NumDigits(v, base) < k
  {
    if v == 0 {
      assert v / base == 0;
    }
  }

  /** The digits behind the first one. */
  lemma SecondDigit(ch: char, v: nat, k: nat)
    requires IsInteger(ch) && k > 1 && NumDigits(v, BaseFor(ch)) == k - 1
    ensures Digits(v, BaseFor(ch), k, ch == 'X' || ch == 'P')[1] != '0'
  {
    DropFirst(ch, v, k);
    FirstDigit(ch, v, k - 1);
  }

  lemma {:induction false} DropFirst(ch: char, v: nat, k: nat)
    requires IsInteger(ch) && k > 0
    ensures Digits(v, BaseFor(ch), k, ch == 'X' || ch == 'P')[1..]
         == Digits(v, BaseFor(ch), k - 1, ch == 'X' || ch == 'P')
    decreases k
  {
    hide Digit;
    if k > 1 {
      DropFirst(ch, v / BaseFor(ch), k - 1);
    }
  }

  /** As many digits as the precision asks for, and no leading zeros beyond that, but one for octal with '#'. */
  predicate DigitsOk(c: Conversion, prec: int, digits: string) {
    && |digits| > 0 && |digits| >= prec && (forall i :: 0 <= i < |digits| ==> DigitFor(c.ch, digits[i]))
    && (if c.ch == 'o' && '#' in c.flags then
          digits[0] == '0' && (|digits| > 1 && |digits| > prec ==> digits[1] != '0')
        else
          |digits| > 1 && |digits| > prec ==> digits[0] != '0')
  }

  /** A number without its grouping marks. */
  function Ungrouped(s: string): string {
    if s == "" then "" else Ungrouped(s[..|s| - 1]) + if s[|s| - 1] == '_' then "" else [s[|s| - 1]]
  }

  /** Counted from the right. */
  function FromRight(s: string, j: nat): char
    requires j < |s|
  {
    s[|s| - 1 - j]
  }

  /** Marks stand between groups of k digits, from the right, and nowhere else. */
  predicate Grouped(s: string, k: nat) {
    forall j :: 0 <= j < |s| ==> (FromRight(s, j) == '_' <==> j % (k + 1) == k)
  }

  /** The digits themselves, or with the flag ' in groups: of four in base 16 and of three otherwise. */
  predicate NumberFrom(c: Conversion, digits: string, number: string) {
    if '\'' in c.flags then
      Ungrouped(number) == digits && Grouped(number, if BaseFor(c.ch) == 16 then 4 else 3)
    else number == digits
  }

  lemma {:induction false} UngroupedConcat(a: string, b: string)
    ensures Ungrouped(a + b) == Ungrouped(a) + Ungrouped(b)
  {
    if b == "" {
      assert a + b == a;
    } else {
      UngroupedConcat(a, b[..|b| - 1]);
      assert (a + b)[..|a + b| - 1] == a + b[..|b| - 1];
    }
  }

  lemma {:induction false} NothingToUngroup(s: string)
    requires '_' !in s
    ensures Ungrouped(s) == s
  {
    if s != "" {
      NothingToUngroup(s[..|s| - 1]);
      assert s == s[..|s| - 1] + [s[|s| - 1]];
    }
  }

  lemma {:induction false} TickedIsGrouped(s: string, k: nat)
    requires k > 0 && s != "" && '_' !in s
    ensures var t := Ticked(s, k, k);
            Ungrouped(t) == s && Grouped(t, k) && t != "" && t[0] != '_'
    decreases |s|
  {
    hide *;
    TickedUnfold(s, k);
    if |s| <= k {
      NothingToUngroup(s);
      FewerThanGroup(s, k);
    } else {
      var a, b := s[..|s| - k], s[|s| - k..];
      TickedIsGrouped(a, k);
      GroupsJoined(Ticked(a, k, k), a, b);
      OneMoreGroup(Ticked(a, k, k), b, k);
    }
  }

  lemma TickedUnfold(s: string, k: nat)
    requires k > 0
    ensures Ticked(s, k, k) == if |s| <= k then s else Ticked(s[..|s| - k], k, k) + "_" + s[|s| - k..]
  {
  }

  lemma GroupsJoined(t: string, a: string, b: string)
    requires Ungrouped(t) == a && '_' !in b && t != "" && t[0] != '_'
    ensures Ungrouped(t + "_" + b) == a + b && (t + "_" + b)[0] != '_'
  {
    hide *;
    UngroupedConcat(t + "_", b);
    UngroupedConcat(t, "_");
    OneMark();
    NothingToUngroup(b);
    assert a + "" == a;
  }

  lemma OneMark()
    ensures Ungrouped("_") == ""
  {
  }

  lemma FewerThanGroup(s: string, k: nat)
    requires |s| <= k && '_' !in s
    ensures Grouped(s, k)
  {
  }

  lemma OneMoreGroup(t: string, b: string, k: nat)
    requires k > 0 && |b| == k && '_' !in b && Grouped(t, k)
    ensures Grouped(t + "_" + b, k)
  {
    var u := t + "_" + b;
    forall j | 0 <= j < |u| ensures FromRight(u, j) == '_' <==> j % (k + 1) == k {
      if j < k {
        assert FromRight(u, j) == FromRight(b, j);
      } else if j > k {
        assert FromRight(u, j) == FromRight(t, j - k - 1);
        OneRound(j, k + 1);
      }
    }
  }

  lemma OneRound(j: nat, m: nat)
    requires 0 < m <= j
    ensures (j - m) % m == j % m
  {
    var q, r := (j - m) / m, (j - m) % m;
    DivisionLaw(j - m, m);
    OneMore(q, m);
    BitString.DivModUnique(j, m, q + 1, r);
  }

  lemma OneMore(q: int, m: int)
    ensures (q + 1) * m == q * m + m
  {
  }

  lemma NumberIsGrouped(c: Conversion, args: seq<Arg>, mag: nat, digits: string)
    requires c.WellFormed() && IsInteger(c.ch)
    requires var f := FlagsFor(c, args);
             digits == Digits(mag, BaseFor(c.ch), DigitCount(mag, f, BaseFor(c.ch), PrecisionFor(c, args)), f.upper)
    ensures NumberFrom(c, digits, Number(mag, FlagsFor(c, args), BaseFor(c.ch), PrecisionFor(c, args)))
  {
    var flags, base, prec := FlagsFor(c, args), BaseFor(c.ch), PrecisionFor(c, args);
    if '\'' in c.flags {
      DigitsAre(c.ch, mag, |digits|);
      NoMarkAmong(c.ch, digits);
      TickedIsGrouped(digits, if base == 16 then 4 else 3);
    } else {
      UntickedNumber(mag, flags, base, prec);
    }
  }

  lemma NoMarkAmong(ch: char, s: string)
    requires forall i :: 0 <= i < |s| ==> DigitFor(ch, s[i])
    ensures '_' !in s
  {
  }

  lemma NumberIsOk(c: Conversion, args: seq<Arg>, mag: nat) returns (digits: string)
    requires c.WellFormed() && IsInteger(c.ch)
    ensures DigitsOk(c, PrecisionFor(c, args), digits)
    ensures NumberFrom(c, digits, Number(mag, FlagsFor(c, args), BaseFor(c.ch), PrecisionFor(c, args)))
  {
    var flags, base, prec := FlagsFor(c, args), BaseFor(c.ch), PrecisionFor(c, args);
    var nd := DigitCount(mag, flags, base, prec);
    digits := Digits(mag, base, nd, flags.upper);
    NumberIsGrouped(c, args, mag, digits);
    DigitsAre(c.ch, mag, nd);
    FirstDigit(c.ch, mag, nd);
    if nd > 1 && nd > prec && c.ch == 'o' && '#' in c.flags {
      SecondDigit(c.ch, mag, nd);
    }
    hide Digits, NumDigits, DigitFor, Conversion.Precision, Conversion.Left, Number, NumberFrom;
  }

  /** The sign: of a negative number, or the one that a flag asks for. */
  function SignFor(c: Conversion, v: int): string {
    if IsSigned(c.ch) && v < 0 then "-" else if '+' in c.flags then "+" else if ' ' in c.flags then " " else ""
  }

  function PrefixFor(c: Conversion): string {
    if IsPointer(c.ch) || ('#' in c.flags && BaseFor(c.ch) == 16) then
      (if c.ch == 'X' || c.ch == 'P' then "0X" else "0x")
    else ""
  }

  /**
   The field of an integer: sign, prefix and digits, filled up to the width with spaces on the left,
   or with zeros before the digits if there is the flag 0, or with spaces on the right if it is set to the left.
   */
  lemma IntegerParts(c: Conversion, args: seq<Arg>)
    returns (early: nat, zeros: nat, late: nat, digits: string, number: string)
    requires c.WellFormed() && IsInteger(c.ch) && InType(c, IntOf(c.Operands(args)))
    ensures var sign, prefix := SignFor(c, IntOf(c.Operands(args))), PrefixFor(c);
            && Shown(c.Written(), args)
                == Repeat(' ', early) + sign + prefix + Repeat('0', zeros) + number + Repeat(' ', late)
            && (early > 0 ==> !c.Left(args) && '0' !in c.flags)
            && (zeros > 0 ==> !c.Left(args) && '0' in c.flags)
            && (late > 0 ==> c.Left(args))
            && (early + zeros + late > 0 ==> |Shown(c.Written(), args)| == c.FieldWidth(args))
            && |Shown(c.Written(), args)| >= c.FieldWidth(args)
    ensures DigitsOk(c, PrecisionFor(c, args), digits) && NumberFrom(c, digits, number)
  {
    var v := IntOf(c.Operands(args));
    IntegerShows(c, args);
    InTypeFits(c, v);
    var val, flags, base, prec := Pattern(v), FlagsFor(c, args), BaseFor(c.ch), PrecisionFor(c, args);
    number := Number(Magnitude(val, flags), flags, base, prec);
    digits := NumberIsOk(c, args, Magnitude(val, flags));
    SignAndPrefix(c, args, v);
    var pad := c.FieldWidth(args) - |SignText(val, flags)| - |PrefixText(flags, base)| - |number|;
    early := if !flags.minus && !flags.zero && pad > 0 then pad else 0;
    zeros := if !flags.minus && flags.zero && pad > 0 then pad else 0;
    late := if flags.minus && pad > 0 then pad else 0;
    TextInParts(val, flags, base, c.FieldWidth(args), prec, early, zeros, late);
    hide Text, Number, Shown, SignText, PrefixText, DigitsOk, NumberFrom, Conversion.WellFormed, SignFor, PrefixFor;
  }

  lemma SignAndPrefix(c: Conversion, args: seq<Arg>, v: int)
    requires c.WellFormed() && IsInteger(c.ch) && InType(c, v) && -TWO_63 <= v < TWO_64
    ensures SignText(Pattern(v), FlagsFor(c, args)) == SignFor(c, v)
    ensures PrefixText(FlagsFor(c, args), BaseFor(c.ch)) == PrefixFor(c)
  {
    InTypeFits(c, v);
    hide InType;
  }

  lemma TextInParts(val: nat, flags: Flags, base: nat, width: int, prec: int, early: nat, zeros: nat, late: nat)
    requires val < TWO_64 && 2 <= base <= 16
    requires var pad := width - |SignText(val, flags)| - |PrefixText(flags, base)|
                        - |Number(Magnitude(val, flags), flags, base, prec)|;
             && early == (if !flags.minus && !flags.zero && pad > 0 then pad else 0)
             && zeros == (if !flags.minus && flags.zero && pad > 0 then pad else 0)
             && late == (if flags.minus && pad > 0 then pad else 0)
    ensures Text(val, flags, base, width, prec)
         == Repeat(' ', early) + SignText(val, flags) + PrefixText(flags, base) + Repeat('0', zeros)
            + Number(Magnitude(val, flags), flags, base, prec) + Repeat(' ', late)
  {
    hide Number, SignText, PrefixText;
  }

  // ----- reading with the base left to the text

  /** Text whose beginning tells its base reads the same with base 0. */
  lemma ReadsAlike(u: string, base: nat)
    requires u != ""
    requires (base == 16 && HasHexPrefix(u)) || (base == 8 && u[0] == '0' && !HasHexPrefix(u))
             || (base == 10 && (u[0] == '0' ==> Stops(u[1..])))
    ensures Accumulate(SkipPrefix(u, 0), BaseOf(u, 0), 0) == Accumulate(SkipPrefix(u, base), base, 0)
    ensures SkipDigits(SkipPrefix(u, 0), BaseOf(u, 0)) == SkipDigits(SkipPrefix(u, base), base)
  {
  }

  /** The text behind the sign begins as its base asks for. */
  lemma TellsItsBase(c: Conversion, zeros: nat, digits: string, tail: string, prec: int)
    requires c.WellFormed() && IsInteger(c.ch) && DigitsOk(c, prec, digits) && Stops(tail)
    requires if BaseFor(c.ch) == 10 then prec <= 1 && zeros == 0 else '#' in c.flags || IsPointer(c.ch)
    ensures var u, base := PrefixFor(c) + (Repeat('0', zeros) + digits + tail), BaseFor(c.ch);
            && u != "" && !IsSpace(u[0]) && u[0] != '-' && u[0] != '+'
            && ((base == 16 && HasHexPrefix(u)) || (base == 8 && u[0] == '0' && !HasHexPrefix(u))
                || (base == 10 && (u[0] == '0' ==> Stops(u[1..]))))
  {
    var prefix, body := PrefixFor(c), Repeat('0', zeros) + digits;
    var u := prefix + (body + tail);
    if BaseFor(c.ch) == 16 {
      assert u[0] == prefix[0] && u[1] == prefix[1];
    } else {
      assert u == body + tail;
      if BaseFor(c.ch) == 10 {
        assert body == digits;
        if |digits| == 1 {
          assert u[1..] == tail;
        }
      } else if |u| > 1 {
        assert u[1] == if |body| > 1 then body[1] else tail[0];
      }
    }
  }

  /**
   With the base left to the text, the same: with the flag '#' in base 16 and 8, and in base 10 where
   nothing asks for leading zeros.
   */
  lemma ReadsWithoutBase(c: Conversion, args: seq<Arg>, rest: string)
    requires c.WellFormed() && IsInteger(c.ch) && '\'' !in c.flags && InType(c, IntOf(c.Operands(args))) && Stops(rest)
    requires if BaseFor(c.ch) == 10 then c.Precision(args) <= 1 && ('0' in c.flags ==> c.Left(args))
             else '#' in c.flags || IsPointer(c.ch)
    ensures var v := IntOf(c.Operands(args));
            Value(Shown(c.Written(), args) + rest, 0) == if v < 0 then TWO_64 + v else v
    ensures Leftover(Shown(c.Written(), args) + rest, 0) == Leftover(Shown(c.Written(), args) + rest, BaseFor(c.ch))
  {
    hide *;
    var shown, base := Shown(c.Written(), args), BaseFor(c.ch);
    var early, sign, u := BehindSign(c, args, rest);
    PaddedValue(early, sign + u, 0);
    PaddedValue(early, sign + u, base);
    ReadAnySigned(sign, u, 0);
    ReadSigned(sign, u, base);
    ReadsAlike(u, base);
    PrintsItsArgument(c, args, rest);
  }

  /** What is read after the spaces and the sign. */
  lemma BehindSign(c: Conversion, args: seq<Arg>, rest: string) returns (early: nat, sign: string, u: string)
    requires c.WellFormed() && IsInteger(c.ch) && '\'' !in c.flags && InType(c, IntOf(c.Operands(args))) && Stops(rest)
    requires if BaseFor(c.ch) == 10 then c.Precision(args) <= 1 && ('0' in c.flags ==> c.Left(args))
             else '#' in c.flags || IsPointer(c.ch)
    ensures Shown(c.Written(), args) + rest == Repeat(' ', early) + (sign + u)
    ensures sign in {"", "-", "+", " "} && BaseFor(c.ch) != 0
    ensures var base := BaseFor(c.ch);
            && u != "" && !IsSpace(u[0]) && u[0] != '-' && u[0] != '+'
            && ((base == 16 && HasHexPrefix(u)) || (base == 8 && u[0] == '0' && !HasHexPrefix(u))
                || (base == 10 && (u[0] == '0' ==> Stops(u[1..]))))
  {
    hide *;
    var zeros, late, digits, number;
    early, zeros, late, digits, number := IntegerParts(c, args);
    sign := SignFor(c, IntOf(c.Operands(args)));
    Untouched(c, digits, number);
    SignIs(c, IntOf(c.Operands(args)));
    TailStops(late, rest);
    PrecisionIs(c, args);
    TellsItsBase(c, zeros, digits, Repeat(' ', late) + rest, PrecisionFor(c, args));
    u := PrefixFor(c) + (Repeat('0', zeros) + digits + (Repeat(' ', late) + rest));
    Regroup(Repeat(' ', early), sign, PrefixFor(c), Repeat('0', zeros), digits, Repeat(' ', late), rest);
  }

  lemma Untouched(c: Conversion, digits: string, number: string)
    requires '\'' !in c.flags && NumberFrom(c, digits, number)
    ensures number == digits
  {
  }

  lemma SignIs(c: Conversion, v: int)
    ensures SignFor(c, v) in {"", "-", "+", " "} && BaseFor(c.ch) != 0
  {
  }

  lemma PrecisionIs(c: Conversion, args: seq<Arg>)
    requires c.WellFormed()
    ensures PrecisionFor(c, args) == if IsPointer(c.ch) then 8 else c.Precision(args)
    ensures BaseFor(c.ch) == 10 ==> !IsPointer(c.ch)
  {
  }

  lemma Regroup(a: string, b: string, c: string, d: string, e: string, f: string, g: string)
    ensures a + b + c + d + e + f + g == a + (b + (c + (d + e + (f + g))))
  {
  }

  // ----- strings, characters and text

  /** The string that %s or %c prints, before it is cut. */
  function Operand(c: Conversion, args: seq<Arg>): string {
    var left := c.Operands(args);
    if c.ch == 'c' then [(IntOf(left) % 256) as char]
    else if left != [] && left[0].Str? then left[0].text
    else "(null)"
  }

  /** %s and %c: cut to the precision, if there is one, and filled up to the width on the side that the flags say. */
  lemma StringShows(c: Conversion, args: seq<Arg>)
    requires c.WellFormed() && (c.ch == 's' || c.ch == 'c')
    ensures var t, p := Operand(c, args), c.Precision(args);
            var cut := if 0 <= p < |t| then t[..p] else t;
            var pad := c.FieldWidth(args) - |cut|;
            Shown(c.Written(), args)
              == if c.Left(args) then cut + Repeat(' ', pad)
                 else Repeat(if '0' in c.flags then '0' else ' ', pad) + cut
  {
    OneConversion(c, args);
    SpecParts(c, args);
    SpecFlags(c, args);
    hide SpecOf, Shown, Conversion.WellFormed, Conversion.Precision, Conversion.FieldWidth, Conversion.Left;
  }

  lemma SpecFlags(c: Conversion, args: seq<Arg>)
    requires c.WellFormed()
    ensures SpecOf(c, args).flags.minus == c.Left(args) && SpecOf(c, args).flags.zero == ('0' in c.flags)
  {
  }

  /** %n prints nothing; any other character that means no conversion, % among them, prints itself. */
  lemma OthersShow(c: Conversion, args: seq<Arg>)
    requires c.WellFormed() && (c.ch == 'n' || !TakesOne(c.ch))
    ensures Shown(c.Written(), args) == if c.ch == 'n' then "" else [c.ch]
  {
    OneConversion(c, args);
    hide SpecOf, Shown;
  }

  /** Text without conversions prints itself, and takes no argument. */
  lemma {:induction false} TextShows(text: string, tail: string, args: seq<Arg>)
    requires '%' !in text && NUL !in text
    ensures Shown(text + tail, args) == text + Shown(tail, args)
    decreases |text|
  {
    if text == "" {
      assert text + tail == tail;
      NoOutput(Shown(tail, args));
    } else {
      assert text + tail == [text[0]] + (text[1..] + tail);
      Step(text[0], text[1..] + tail, START, args);
      TextShows(text[1..], tail, args);
      assert text == [text[0]] + text[1..];
      hide Render;
    }
  }
}
