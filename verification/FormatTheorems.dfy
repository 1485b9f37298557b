/**
 What the formatter's directives mean: formats compose, unknown escapes are printed as they
 stand, rendered directives are parsed into their parts and print their argument, strtol reads
 numbers back, and exactly where the fields are those of section 7.21.6.1 of
 ISO/IEC 9899:2018.
 */
module FormatTheorems {
  import opened FormatSpec
  import opened NumberParsing
  import opened Words

  // ---- formats compose ----

  lemma DigitsEndShift(f: string, i: nat, g: string, j: nat)
    requires Terminated(f) && Terminated(g) && i < |f| && j < |g| && f[i..] == g[j..]
    ensures DigitsEnd(f, i) - i == DigitsEnd(g, j) - j
  {
  }

  lemma TakeFlagShift(f: string, i: nat, g: string, j: nat, fl: Flags, k: nat, args: Args)
    requires Terminated(f) && Terminated(g) && i < |f| && j < |g| && f[i..] == g[j..] && IsFlag(f[i])
    ensures f[i] == g[j] && TakeFlag(f, i, fl, k, args) == TakeFlag(g, j, fl, k, args)
  {
    hide Decimal, TakeNumber;
    assert f[i] == f[i..][0] == g[j];
    if IsDigit(f[i]) {
      DigitsEndShift(f, i, g, j);
      var n := DigitsEnd(f, i) - i;
      assert f[i..i + n] == f[i..][..n] == g[j..j + n];
    }
  }

  lemma ShiftBy(f: string, i: nat, g: string, j: nat, n: nat)
    requires i < |f| && j < |g| && f[i..] == g[j..] && i + n <= |f|
    ensures j + n <= |g| && f[i + n..] == g[j + n..] && (i + n < |f| ==> f[i + n] == g[j + n])
  {
  }

  lemma {:induction false} EscapeShift(f: string, i: nat, g: string, j: nat, fl: Flags, k: nat, args: Args)
    requires Terminated(f) && Terminated(g) && i < |f| && j < |g| && f[i..] == g[j..]
    ensures var a := ParseEscape(f, i, fl, k, args);
            var b := ParseEscape(g, j, fl, k, args);
            a.fl == b.fl && a.next == b.next && a.at - i == b.at - j
    decreases |f| - i
  {
    hide TakeFlag, IsFlag;
    assert f[i] == f[i..][0] == g[j];
    if !IsFlag(f[i]) {
    } else {
      TakeFlagShift(f, i, g, j, fl, k, args);
      var t := TakeFlag(f, i, fl, k, args);
      ShiftBy(f, i, g, j, t.len);
      EscapeShift(f, i + t.len, g, j + t.len, t.fl, t.next, args);
    }
  }

  lemma {:induction false} EscapeFormatShift(f: string, i: nat, g: string, j: nat, k: nat, args: Args)
    requires Terminated(f) && Terminated(g) && i < |f| && j < |g| && f[i..] == g[j..]
    requires f[i] == g[j] == '%' && i + 1 < |f| && j + 1 < |g|
    requires var a := ParseEscape(f, i + 1, START_FLAGS, k, args);
             var b := ParseEscape(g, j + 1, START_FLAGS, k, args);
             a.fl == b.fl && a.next == b.next && a.at - i == b.at - j
    ensures Format(f, i, k, args) == Format(g, j, k, args)
    decreases |f| - i, 0
  {
    hide ParseEscape, Convert, Format, Terminated;
    FormatEscape(f, i, k, args);
    FormatEscape(g, j, k, args);
    var e := ParseEscape(f, i + 1, START_FLAGS, k, args);
    ShiftBy(f, i, g, j, e.at - i);
    if Convert(f[e.at], e.fl, e.next, args).Some? {
      var c := Convert(f[e.at], e.fl, e.next, args).value;
      KnownIsNotNul(f[e.at], e.fl, e.next, args);
      ShiftBy(f, i, g, j, e.at + 1 - i);
      FormatShift(f, e.at + 1, g, e.at + 1 - i + j, c.next, args);
    } else {
      ShiftBy(f, i, g, j, 1);
      FormatShift(f, i + 1, g, j + 1, e.next, args);
    }
  }

  // Only the rest of the format matters.
  lemma {:induction false} FormatShift(f: string, i: nat, g: string, j: nat, k: nat, args: Args)
    requires Terminated(f) && Terminated(g) && i < |f| && j < |g| && f[i..] == g[j..]
    ensures Format(f, i, k, args) == Format(g, j, k, args)
    decreases |f| - i, 1
  {
    hide ParseEscape, Convert;
    ShiftBy(f, i, g, j, 0);
    ShiftBy(f, i, g, j, 1);
    if f[i] == '\0' {
    } else if f[i] != '%' {
      FormatShift(f, i + 1, g, j + 1, k, args);
    } else {
      EscapeShift(f, i + 1, g, j + 1, START_FLAGS, k, args);
      EscapeFormatShift(f, i, g, j, k, args);
    }
  }

  // ---- unknown escapes ----

  lemma NulEndsFormat(f: string, i: nat, k: nat, args: Args)
    requires Terminated(f) && i < |f| && f[i] == '\0'
    ensures Format(f, i, k, args) == "" && i == |f| - 1
  {
  }

  // An escape whose conversion is unknown, or that the NUL cuts off, is printed from its
  // '%' on just as it stands in the format, and formatting goes on behind it.
  lemma UnknownEscapeVerbatim(f: string, i: nat, k: nat, args: Args)
    requires Terminated(f) && i < |f| && f[i] == '%'
    requires var e := ParseEscape(f, i + 1, START_FLAGS, k, args);
             Convert(f[e.at], e.fl, e.next, args).None?
    ensures var e := ParseEscape(f, i + 1, START_FLAGS, k, args);
            Format(f, i, k, args) ==
              if f[e.at] == '\0' then f[i..e.at]
              else f[i..e.at + 1] + Format(f, e.at + 1, e.next, args)
  {
    hide ParseEscape, Format;
    var e := ParseEscape(f, i + 1, START_FLAGS, k, args);
    FormatEscape(f, i, k, args);
    assert f[e.at] != '%';
    forall x | i + 1 <= x <= e.at
      ensures f[x] != '%'
    {
      assert x < e.at ==> IsFlag(f[x]);
    }
    if f[e.at] == '\0' {
      NulEndsFormat(f, e.at, e.next, args);
      LiteralText(f, i + 1, e.at, e.next, args);
      assert f[i..e.at] == "%" + f[i + 1..e.at];
    } else {
      LiteralText(f, i + 1, e.at + 1, e.next, args);
      assert f[i..e.at + 1] == "%" + f[i + 1..e.at + 1];
    }
  }

  lemma NeitherFlagNorConversion(c: char, k: nat, args: Args)
    requires c !in "-*.#l0123456789cesduopx%"
    ensures !IsFlag(c) && Convert(c, START_FLAGS, k, args).None?
  {
    assert IsDigit(c) ==> c in "0123456789";
  }

  // Every character that is neither a flag nor a conversion makes such an escape.
  lemma UnknownCharacter(c: char, rest: string, k: nat, args: Args)
    requires Terminated(rest) && c != '\0' && c !in "-*.#l0123456789cesduopx%"
    ensures Terminated(['%', c] + rest)
    ensures Format(['%', c] + rest, 0, k, args) == ['%', c] + Format(rest, 0, k, args)
  {
    hide Format;
    var f := ['%', c] + rest;
    NeitherFlagNorConversion(c, k, args);
    assert ParseEscape(f, 1, START_FLAGS, k, args) == Escape(START_FLAGS, 1, k);
    UnknownEscapeVerbatim(f, 0, k, args);
    assert f[0..2] == ['%', c] && f[2..] == rest == rest[0..];
    FormatShift(f, 2, rest, 0, k, args);
  }

  // ---- rendered directives ----

  // A width or a precision: none, a number, or a star that takes it from the arguments.
  datatype Field = Absent | Fixed(n: nat) | Star

  // The parts of a directive in section 7.21.6.1: the # flag, one of the flags 0 and - or a
  // blank for neither, a width, a precision, some l's, and the conversion.
  datatype Directive =
    Directive(alt: bool, pad: char, width: Field, precision: Field, longs: nat, conv: char)

  predicate Proper(d: Directive) {
    d.pad in {' ', '0', '-'} && d.width != Fixed(0) && !IsFlag(d.conv) && d.conv != '\0'
  }

  function RenderField(w: Field): string {
    match w
    case Absent => ""
    case Fixed(n) => if n == 0 then "" else Digits(n, 10)
    case Star => "*"
  }

  // A lone point is a precision of 0.
  function RenderPrecision(p: Field): string {
    if p == Absent then "" else ['.'] + RenderField(p)
  }

  function RenderEnd(d: Directive): string {
    Repeat('l', d.longs) + [d.conv]
  }

  function RenderFields(d: Directive): string {
    RenderField(d.width) + (RenderPrecision(d.precision) + RenderEnd(d))
  }

  function RenderFlags(d: Directive): string {
    (if d.alt then ['#'] else []) + (if d.pad == ' ' then [] else [d.pad])
  }

  function Render(d: Directive): string {
    ['%'] + (RenderFlags(d) + RenderFields(d))
  }

  // The argument behind a field's.
  function Next(w: Field, k: nat): nat {
    if w == Star then k + 1 else k
  }

  function NextOf(d: Directive, k: nat): nat {
    Next(d.precision, Next(d.width, k))
  }

  function WidthOf(d: Directive, k: nat, args: Args): int {
    match d.width
    case Absent => -1
    case Fixed(n) => n
    case Star => Int32(args.word(k))
  }

  // What vprintfmt makes of a directive: a lone point sets no precision, and any point ends a
  // width that is still to come.
  function FlagsOf(d: Directive, k: nat, args: Args): Flags {
    var width := WidthOf(d, k, args);
    var precision :=
      match d.precision
      case Absent => -1
      case Fixed(n) => if n == 0 then -1 else n
      case Star => Int32(args.word(Next(d.width, k)));
    Flags(d.pad, if d.precision != Absent && width < 0 then 0 else width, precision, d.longs, d.alt)
  }

  lemma {:induction false} DecimalIsValue(s: string)
    requires AllDigits(s, 10)
    ensures forall i :: 0 <= i < |s| ==> IsDigit(s[i])
    ensures Decimal(s) == Value(s, 10)
  {
    if s == "" {
    } else {
      var t := s[..|s| - 1];
      DecimalIsValue(t);
      assert DigitIn(s[|s| - 1], 10);
      forall i | 0 <= i < |s|
        ensures IsDigit(s[i])
      {
        assert DigitIn(s[i], 10);
      }
    }
  }

  // A width field denotes the number whose digits it holds.
  lemma EscapeNumber(f: string, i: nat, n: nat, fl: Flags, k: nat, args: Args)
    requires Terminated(f) && n > 0 && i + |Digits(n, 10)| < |f|
    requires f[i..i + |Digits(n, 10)|] == Digits(n, 10) && !IsDigit(f[i + |Digits(n, 10)|])
    ensures ParseEscape(f, i, fl, k, args) ==
            ParseEscape(f, i + |Digits(n, 10)|, TakeNumber(fl, n), k, args)
  {
    hide Digits, Value, Decimal, DigitsEnd;
    var j := i + |Digits(n, 10)|;
    var s := f[i..j];
    DigitsAreDigits(n, 10);
    DigitsValue(n, 10);
    LeadingDigit(n, 10);
    DecimalIsValue(s);
    forall x | i <= x < j
      ensures IsDigit(f[x])
    {
      assert f[x] == s[x - i];
    }
    assert f[i] == s[0];
    DigitsEndIs(f, i, j);
    assert TakeFlag(f, i, fl, k, args) == Taken(j - i, TakeNumber(fl, n), k);
  }

  lemma TakeLong(f: string, i: nat, fl: Flags, k: nat, args: Args)
    requires Terminated(f) && i < |f| && f[i] == 'l'
    ensures IsFlag(f[i]) && TakeFlag(f, i, fl, k, args) == Taken(1, fl.(lflag := fl.lflag + 1), k)
  {
  }

  lemma {:induction false} EscapeLongs(f: string, i: nat, n: nat, fl: Flags, k: nat, args: Args)
    requires Terminated(f) && i + n < |f| && f[i..i + n] == Repeat('l', n) && !IsFlag(f[i + n])
    ensures ParseEscape(f, i, fl, k, args) == Escape(fl.(lflag := fl.lflag + n), i + n, k)
    decreases n
  {
    hide TakeFlag, IsFlag;
    if n == 0 {
    } else {
      RepeatLength('l', n);
      assert f[i] == f[i..i + n][0] == 'l';
      assert f[i + 1..i + n] == f[i..i + n][1..] == Repeat('l', n - 1);
      TakeLong(f, i, fl, k, args);
      EscapeLongs(f, i + 1, n - 1, fl.(lflag := fl.lflag + 1), k, args);
    }
  }

  lemma EscapeFlag(f: string, i: nat, c: char, rest: string, fl: Flags, k: nat, args: Args)
    requires Terminated(f) && i < |f| && f[i..] == [c] + rest && c in "#0-."
    ensures i + 1 < |f| && f[i + 1..] == rest
    ensures var next := if c == '#' then fl.(alt := true)
                        else if c == '.' then if fl.width < 0 then fl.(width := 0) else fl
                        else fl.(padc := c);
            ParseEscape(f, i, fl, k, args) == ParseEscape(f, i + 1, next, k, args)
  {
  }

  lemma EscapeStar(f: string, i: nat, rest: string, fl: Flags, k: nat, args: Args)
    requires Terminated(f) && i < |f| && f[i..] == ['*'] + rest
    ensures i + 1 < |f| && f[i + 1..] == rest
    ensures ParseEscape(f, i, fl, k, args) ==
            ParseEscape(f, i + 1, TakeNumber(fl, Int32(args.word(k))), k + 1, args)
  {
  }

  // What a width or precision does to the flags.
  function FieldTaken(w: Field, fl: Flags, k: nat, args: Args): Flags {
    match w
    case Absent => fl
    case Fixed(n) => if n == 0 then fl else TakeNumber(fl, n)
    case Star => TakeNumber(fl, Int32(args.word(k)))
  }

  lemma SkipPart(f: string, i: nat, part: string, rest: string)
    requires i <= |f| && f[i..] == part + rest
    ensures i + |part| <= |f| && f[i..i + |part|] == part && f[i + |part|..] == rest
    ensures rest != "" ==> i + |part| < |f| && f[i + |part|] == rest[0]
  {
  }

  lemma EscapeField(f: string, i: nat, w: Field, rest: string, fl: Flags, k: nat, args: Args)
    requires Terminated(f) && i < |f| && f[i..] == RenderField(w) + rest
    requires rest != "" && !IsDigit(rest[0])
    ensures var j := i + |RenderField(w)|;
            j < |f| && f[j..] == rest &&
            ParseEscape(f, i, fl, k, args) == ParseEscape(f, j, FieldTaken(w, fl, k, args), Next(w, k), args)
  {
    hide Digits, TakeNumber, ParseEscape, Int32;
    var part := RenderField(w);
    match w
    case Absent =>
      assert part + rest == rest;
    case Star => EscapeStar(f, i, rest, fl, k, args);
    case Fixed(n) =>
      if n == 0 {
        assert part + rest == rest;
      } else {
        SkipPart(f, i, part, rest);
        EscapeNumber(f, i, n, fl, k, args);
      }
  }

  lemma EscapeEnd(f: string, i: nat, d: Directive, rest: string, fl: Flags, k: nat, args: Args)
    requires Terminated(f) && i < |f| && f[i..] == RenderEnd(d) + rest && !IsFlag(d.conv)
    ensures var j := i + d.longs;
            |RenderEnd(d)| == d.longs + 1 && j < |f| && f[j] == d.conv &&
            ParseEscape(f, i, fl, k, args) == Escape(fl.(lflag := fl.lflag + d.longs), j, k)
  {
    hide ParseEscape, Repeat, IsFlag;
    RepeatLength('l', d.longs);
    assert RenderEnd(d) + rest == Repeat('l', d.longs) + ([d.conv] + rest);
    SkipPart(f, i, Repeat('l', d.longs), [d.conv] + rest);
    EscapeLongs(f, i, d.longs, fl, k, args);
  }

  // No digit follows a width or a precision.
  lemma EndStarts(d: Directive)
    requires !IsFlag(d.conv)
    ensures RenderEnd(d) != "" && !IsDigit(RenderEnd(d)[0])
  {
  }

  lemma AbsentField(fl: Flags, k: nat, args: Args)
    ensures FieldTaken(Absent, fl, k, args) == fl
  {
  }

  lemma EscapePrecision(f: string, i: nat, d: Directive, rest: string, fl: Flags, k: nat, args: Args)
    requires Terminated(f) && i < |f| && f[i..] == RenderPrecision(d.precision) + (RenderEnd(d) + rest)
    requires !IsFlag(d.conv)
    ensures var j := i + |RenderPrecision(d.precision)|;
            var at := if d.precision != Absent && fl.width < 0 then fl.(width := 0) else fl;
            j < |f| && f[j..] == RenderEnd(d) + rest &&
            ParseEscape(f, i, fl, k, args) ==
              ParseEscape(f, j, FieldTaken(d.precision, at, k, args), Next(d.precision, k), args)
  {
    hide RenderField, RenderEnd, ParseEscape, FieldTaken, IsFlag, IsDigit;
    EndStarts(d);
    var tail := RenderEnd(d) + rest;
    if d.precision == Absent {
      AbsentField(fl, k, args);
      assert RenderPrecision(d.precision) + tail == tail;
    } else {
      var field := RenderField(d.precision);
      assert RenderPrecision(d.precision) + tail == ['.'] + (field + tail);
      EscapeFlag(f, i, '.', field + tail, fl, k, args);
      EscapeField(f, i + 1, d.precision, tail, if fl.width < 0 then fl.(width := 0) else fl, k, args);
    }
  }

  lemma EscapeFlags(f: string, d: Directive, rest: string, k: nat, args: Args)
    requires Terminated(f) && 1 < |f| && f[1..] == RenderFlags(d) + rest && rest != ""
    requires d.pad in {' ', '0', '-'}
    ensures var j := 1 + |RenderFlags(d)|;
            j < |f| && f[j..] == rest &&
            ParseEscape(f, 1, START_FLAGS, k, args) ==
              ParseEscape(f, j, START_FLAGS.(alt := d.alt, padc := d.pad), k, args)
  {
  }

  lemma FieldsStart(d: Directive, rest: string)
    requires !IsFlag(d.conv)
    ensures var tail := RenderPrecision(d.precision) + (RenderEnd(d) + rest);
            tail != "" && !IsDigit(tail[0])
  {
  }

  // The flags before the fields, behind the width, and behind a point.
  function FlagsAfter(d: Directive, k: nat, args: Args): (r: (Flags, Flags, Flags)) {
    var fl := START_FLAGS.(alt := d.alt, padc := d.pad);
    var at := FieldTaken(d.width, fl, k, args);
    (fl, at, if d.precision != Absent && at.width < 0 then at.(width := 0) else at)
  }

  lemma FlagsMade(d: Directive, k: nat, args: Args)
    requires Proper(d)
    ensures var fl := FieldTaken(d.precision, FlagsAfter(d, k, args).2, Next(d.width, k), args);
            fl.(lflag := fl.lflag + d.longs) == FlagsOf(d, k, args)
  {
  }

  // Behind the width, with flags fl: a precision, some l's and the conversion.
  lemma EscapeTail(f: string, i: nat, d: Directive, rest: string, fl: Flags, k: nat, args: Args)
    requires Terminated(f) && i < |f| && f[i..] == RenderPrecision(d.precision) + (RenderEnd(d) + rest)
    requires !IsFlag(d.conv)
    ensures var j := i + |RenderPrecision(d.precision)| + |RenderEnd(d)| - 1;
            var at := if d.precision != Absent && fl.width < 0 then fl.(width := 0) else fl;
            var end := FieldTaken(d.precision, at, k, args);
            j < |f| && f[j] == d.conv &&
            ParseEscape(f, i, fl, k, args) == Escape(end.(lflag := end.lflag + d.longs), j, Next(d.precision, k))
  {
    hide RenderPrecision, RenderEnd, ParseEscape, IsFlag, FieldTaken, Terminated;
    EscapePrecision(f, i, d, rest, fl, k, args);
    var at := if d.precision != Absent && fl.width < 0 then fl.(width := 0) else fl;
    EscapeEnd(f, i + |RenderPrecision(d.precision)|, d, rest,
              FieldTaken(d.precision, at, k, args), Next(d.precision, k), args);
  }

  lemma EscapeFields(f: string, i: nat, d: Directive, rest: string, k: nat, args: Args)
    requires Proper(d) && Terminated(f) && i < |f| && f[i..] == RenderFields(d) + rest
    ensures var j := i + |RenderFields(d)| - 1;
            j < |f| && f[j] == d.conv &&
            ParseEscape(f, i, START_FLAGS.(alt := d.alt, padc := d.pad), k, args) ==
              Escape(FlagsOf(d, k, args), j, NextOf(d, k))
  {
    hide RenderField, RenderPrecision, RenderEnd, ParseEscape, IsFlag, IsDigit, FieldTaken, FlagsOf, Terminated;
    var tail := RenderPrecision(d.precision) + (RenderEnd(d) + rest);
    assert RenderFields(d) + rest == RenderField(d.width) + tail;
    FieldsStart(d, rest);
    EscapeField(f, i, d.width, tail, FlagsAfter(d, k, args).0, k, args);
    EscapeTail(f, i + |RenderField(d.width)|, d, rest, FlagsAfter(d, k, args).1, Next(d.width, k), args);
    FlagsMade(d, k, args);
  }

  lemma FieldsNotEmpty(d: Directive)
    ensures RenderFields(d) != ""
  {
  }

  // Parsing a rendered directive gives back its parts, with the arguments its stars take.
  lemma RenderedEscape(d: Directive, f: string, rest: string, k: nat, args: Args)
    requires Proper(d) && Terminated(f) && f == Render(d) + rest
    ensures |Render(d)| <= |f| && f[|Render(d)| - 1] == d.conv
    ensures ParseEscape(f, 1, START_FLAGS, k, args) == Escape(FlagsOf(d, k, args), |Render(d)| - 1, NextOf(d, k))
  {
    hide RenderFlags, RenderFields, ParseEscape, FlagsOf, Terminated;
    FieldsNotEmpty(d);
    assert f == ['%'] + (RenderFlags(d) + (RenderFields(d) + rest));
    EscapeFlags(f, d, RenderFields(d) + rest, k, args);
    EscapeFields(f, 1 + |RenderFlags(d)|, d, rest, k, args);
  }

  lemma FieldNotNul(w: Field)
    ensures '\0' !in RenderField(w)
  {
    if w.Fixed? && w.n > 0 {
      var s := Digits(w.n, 10);
      DigitsAreDigits(w.n, 10);
      forall i | 0 <= i < |s|
        ensures s[i] != '\0'
      {
        assert DigitIn(s[i], 10);
      }
    }
  }

  lemma {:induction false} RepeatNotNul(c: char, n: int)
    requires c != '\0'
    ensures '\0' !in Repeat(c, n)
  {
    if n <= 0 {
    } else {
      RepeatNotNul(c, n - 1);
    }
  }

  lemma RenderTerminated(d: Directive, rest: string)
    requires Proper(d) && Terminated(rest)
    ensures Terminated(Render(d) + rest) && Render(d)[0] == '%' && |Render(d)| > 1
  {
    hide RenderField, IsFlag;
    FieldNotNul(d.width);
    FieldNotNul(d.precision);
    RepeatNotNul('l', d.longs);
  }

  // A format that starts with a directive prints its conversion, and then the rest.
  lemma DirectivePrints(d: Directive, rest: string, k: nat, args: Args)
    requires Proper(d) && Terminated(rest)
    requires Convert(d.conv, FlagsOf(d, k, args), NextOf(d, k), args).Some?
    ensures Terminated(Render(d) + rest)
    ensures var c := Convert(d.conv, FlagsOf(d, k, args), NextOf(d, k), args).value;
            Format(Render(d) + rest, 0, k, args) == c.out + Format(rest, 0, c.next, args)
  {
    hide ParseEscape, Format, Convert, Render, FlagsOf;
    var f := Render(d) + rest;
    RenderTerminated(d, rest);
    RenderedEscape(d, f, rest, k, args);
    FormatEscape(f, 0, k, args);
    assert f[|Render(d)|..] == rest == rest[0..];
    var c := Convert(d.conv, FlagsOf(d, k, args), NextOf(d, k), args).value;
    FormatShift(f, |Render(d)|, rest, 0, c.next, args);
  }

  // ---- numbers ----

  // The number a directive prints and its sign.
  function Magnitude(d: Directive, w: U64): nat {
    if d.conv == 'd' then Abs(GetInt(w, d.longs)) else if d.conv == 'p' then w else GetUint(w, d.longs)
  }

  predicate Negative(d: Directive, w: U64) {
    d.conv == 'd' && GetInt(w, d.longs) < 0
  }

  function BaseOf(d: Directive): nat {
    if d.conv in "xp" then 16 else 10
  }

  function Length(d: Directive, w: U64): nat {
    |Digits(Magnitude(d, w), BaseOf(d))|
  }

  // What the arguments mean: the number of 32 bits, or of 64 behind an l, that the word's low bits
  // stand for, as an unsigned and as a signed one.
  lemma ArgumentValues(w: U64, lflag: nat)
    ensures var size := if lflag > 0 then WORD_LIMIT else 0x1_0000_0000;
            0 <= GetUint(w, lflag) < size && (w - GetUint(w, lflag)) % size == 0 &&
            -size <= 2 * GetInt(w, lflag) < size && (w - GetInt(w, lflag)) % size == 0
  {
  }

  // What a number directive prints of the word w in a field of the given width.
  function NumberText(d: Directive, width: int, w: U64): string {
    (if Negative(d, w) then "-" else if d.conv == 'p' then "0x" else "") +
    Number(Magnitude(d, w), BaseOf(d), width, d.pad)
  }

  lemma NumberPrints(d: Directive, rest: string, k: nat, args: Args)
    requires Proper(d) && d.conv in "duxp" && Terminated(rest)
    ensures Terminated(Render(d) + rest)
    ensures Format(Render(d) + rest, 0, k, args) ==
            NumberText(d, FlagsOf(d, k, args).width, args.word(NextOf(d, k))) +
            Format(rest, 0, NextOf(d, k) + 1, args)
  {
    hide Render, Format, Number, Int32, Terminated;
    DirectivePrints(d, rest, k, args);
  }

  // When strtol can read back what a directive prints: nothing may stand between a sign or
  // prefix and the digits, and a '-' of the padding may only meet a zero.
  predicate Readable(d: Directive, width: int, w: U64) {
    width <= Length(d, w) || d.pad == '0' ||
    (!Negative(d, w) && d.conv != 'p' && (d.pad == ' ' || (width == Length(d, w) + 1 && Magnitude(d, w) == 0)))
  }

  lemma NumberTextParse(d: Directive, width: int, w: U64)
    requires d.pad in {' ', '0', '-'} && d.conv in "duxp"
    ensures var t := NumberText(d, width, w);
            var n: int := if Negative(d, w) then 0 - Magnitude(d, w) else Magnitude(d, w);
            (Parse(t + "\0", BaseOf(d)) == Parsed(n, |t|, false) <==>
             Readable(d, width, w) && Magnitude(d, w) < LONG_LIMIT) &&
            (Readable(d, width, w) ==>
             Parse(t + "\0", BaseOf(d)) == Parsed(Wrap64(n), |t|, Magnitude(d, w) >= LONG_LIMIT))
  {
    hide Parse, Number, Digits, Wrap64, Int32, Int64;
    var t := NumberText(d, width, w);
    if d.conv == 'd' {
      assert Negative(d, w) || t == Number(Magnitude(d, w), 10, width, d.pad);
      SignedRoundTrip(GetInt(w, d.longs), width, d.pad);
    } else if d.conv == 'p' {
      PointerRoundTrip(w, width, d.pad);
    } else {
      assert t == Number(Magnitude(d, w), BaseOf(d), width, d.pad);
      UnsignedRoundTrip(Magnitude(d, w), BaseOf(d), width, d.pad);
    }
  }

  // Printing a number with a directive and reading the text with strtol in the directive's base
  // gives the number back and ends at the NUL without overflow, exactly when the text is
  // readable and the magnitude below 2^63.
  lemma PrintThenParse(d: Directive, args: Args)
    requires Proper(d) && d.conv in "duxp"
    ensures Terminated(Render(d) + "\0")
    ensures var w, width := args.word(NextOf(d, 0)), FlagsOf(d, 0, args).width;
            var t := Format(Render(d) + "\0", 0, 0, args);
            var n: int := if Negative(d, w) then 0 - Magnitude(d, w) else Magnitude(d, w);
            (Parse(t + "\0", BaseOf(d)) == Parsed(n, |t|, false) <==>
             Readable(d, width, w) && Magnitude(d, w) < LONG_LIMIT) &&
            (Readable(d, width, w) ==>
             Parse(t + "\0", BaseOf(d)) == Parsed(Wrap64(n), |t|, Magnitude(d, w) >= LONG_LIMIT))
  {
    hide Format, Render, Parse, Number, Digits, FlagsOf, Wrap64;
    var w, width := args.word(NextOf(d, 0)), FlagsOf(d, 0, args).width;
    NumberPrints(d, "\0", 0, args);
    NulEndsFormat("\0", 0, NextOf(d, 0) + 1, args);
    var t := NumberText(d, width, w);
    assert t + "" == t;
    NumberTextParse(d, width, w);
  }

  // The upper half of the 64-bit words overflows on the way back: unsigned numbers and pointers
  // come back less by 2^64, and -2^63 comes back by wrapping only.
  lemma UpperHalfOverflows(d: Directive, args: Args)
    requires Proper(d) && d.conv in "duxp"
    requires var w := args.word(NextOf(d, 0));
             Magnitude(d, w) >= LONG_LIMIT && Readable(d, FlagsOf(d, 0, args).width, w)
    ensures Terminated(Render(d) + "\0")
    ensures var t := Format(Render(d) + "\0", 0, 0, args);
            Parse(t + "\0", BaseOf(d)) ==
              Parsed(if d.conv == 'd' then -LONG_LIMIT else args.word(NextOf(d, 0)) - WORD_LIMIT, |t|, true)
  {
    hide Format, Render, Parse, Number, Digits, FlagsOf;
    PrintThenParse(d, args);
  }

  // ---- strings ----

  // A %s field holds the first n characters of the string, as many as there are up to a precision
  // that is not negative, with '?' for what the # flag masks; to the left with the - flag and to
  // the right without it, in at least the given width.
  lemma TextField(p: string, fl: Flags)
    ensures var n := if 0 <= fl.precision < |p| then fl.precision else |p|;
            var t := Text(p, fl);
            |t| == (if fl.width > n then fl.width else n) &&
            var at := if fl.padc == '-' || fl.width <= 0 then 0 else |t| - n;
            (forall i :: 0 <= i < |t| && !(at <= i < at + n) ==> t[i] == if at == 0 then ' ' else fl.padc) &&
            forall i :: 0 <= i < n ==> t[at + i] == if fl.alt && (p[i] < ' ' || p[i] > '~') then '?' else p[i]
  {
    hide Masked;
    var shown := Shown(p, fl.precision);
    var s := Masked(shown, fl.alt);
    var c := if fl.padc == '-' || fl.width <= 0 then ' ' else fl.padc;
    var pads := fl.width - |s|;
    RepeatLength(c, pads);
    forall i | 0 <= i < pads
      ensures Repeat(c, pads)[i] == c
    {
      RepeatAt(c, pads, i);
    }
    forall i | 0 <= i < |s|
      ensures s[i] == if fl.alt && (p[i] < ' ' || p[i] > '~') then '?' else p[i]
    {
      MaskedAt(shown, fl.alt, i);
    }
  }

  // %s prints the string its argument points to, or "(null)", in the field that TextField
  // describes, and takes one argument.
  lemma StringPrints(d: Directive, rest: string, k: nat, args: Args)
    requires Proper(d) && d.conv == 's' && Terminated(rest)
    ensures Terminated(Render(d) + rest)
    ensures var w := args.word(NextOf(d, k));
            Format(Render(d) + rest, 0, k, args) ==
              Text(if w == 0 then "(null)" else args.str(w), FlagsOf(d, k, args)) +
              Format(rest, 0, NextOf(d, k) + 1, args)
  {
    hide Render, Format, FlagsOf, Terminated;
    DirectivePrints(d, rest, k, args);
  }

  // %c prints the low byte of its argument and takes it; %o and %% take no argument.
  lemma CharacterPrints(d: Directive, rest: string, k: nat, args: Args)
    requires Proper(d) && d.conv in {'c', 'o', '%'} && Terminated(rest)
    ensures Terminated(Render(d) + rest)
    ensures Format(Render(d) + rest, 0, k, args) ==
            if d.conv == 'c' then [(args.word(NextOf(d, k)) % 256) as char] + Format(rest, 0, NextOf(d, k) + 1, args)
            else (if d.conv == 'o' then "XXX" else "%") + Format(rest, 0, NextOf(d, k), args)
  {
    hide Render, Format, FlagsOf, Terminated;
    DirectivePrints(d, rest, k, args);
  }

  // %e takes its argument as an int and prints, for either sign, the text of the error it names,
  // or its number where there is none; flags and widths change nothing.
  lemma ErrorPrints(d: Directive, rest: string, k: nat, args: Args)
    requires Proper(d) && d.conv == 'e' && Terminated(rest)
    ensures Terminated(Render(d) + rest)
    ensures var n := Abs(Int32(args.word(NextOf(d, k))));
            Format(Render(d) + rest, 0, k, args) ==
              (if n == E_UNSPECIFIED then "unspecified error"
               else if n == E_BAD_ENV then "bad environment"
               else if n == E_INVAL then "invalid parameter"
               else if n == E_NO_MEM then "out of memory"
               else if n == E_NO_FREE_ENV then "out of environments"
               else if n == E_FAULT then "segmentation fault"
               else if n == E_IPC_NOT_RECV then "env is not recving"
               else if n == E_EOF then "unexpected end of file"
               else "error " + (if n < 0x8000_0000 then "" else "-") + Digits(n, 10)) +
              Format(rest, 0, NextOf(d, k) + 1, args)
  {
    hide Render, Format, FlagsOf, Digits, Terminated;
    DirectivePrints(d, rest, k, args);
    RepeatNone(' ', -1 - |Digits(Abs(Int32(args.word(NextOf(d, k)))), 10)|);
  }

  // ---- against the standard ----

  // The precision the standard sees: a negative one counts as none.
  function PrecisionOf(d: Directive, k: nat, args: Args): Option<nat> {
    match d.precision
    case Absent => None
    case Fixed(n) => Some(n)
    case Star =>
      var p := Int32(args.word(Next(d.width, k)));
      if p < 0 then None else Some(p)
  }

  // A precision asks for a number of digits; a zero with precision 0 has none.
  function StandardDigits(n: nat, base: nat, precision: Option<nat>): string
    requires 2 <= base <= 16
  {
    match precision
    case None => Digits(n, base)
    case Some(p) => if p == 0 && n == 0 then "" else Repeat('0', p - |Digits(n, base)|) + Digits(n, base)
  }

  // A field: to the left, or filled with zeros behind the sign, or to the right. The sign
  // counts in the width.
  function StandardField(sign: string, digits: string, width: nat, left: bool, zero: bool): string {
    var pads := width - |sign| - |digits|;
    if left then sign + digits + Repeat(' ', pads)
    else if zero then sign + (Repeat('0', pads) + digits)
    else Repeat(' ', pads) + (sign + digits)
  }

  // The width the standard sees; a negative one stands for the - flag and its magnitude.
  function StandardWidth(d: Directive, k: nat, args: Args): int {
    if d.width == Absent then 0 else WidthOf(d, k, args)
  }

  function StandardSign(d: Directive, w: U64): string {
    if Negative(d, w) then "-" else if d.alt && Magnitude(d, w) > 0 then "0x" else ""
  }

  // For d, u and x. What %p prints is left to the implementation, and # is undefined for d and u.
  function StandardText(d: Directive, k: nat, args: Args): string {
    var w, width := args.word(NextOf(d, k)), StandardWidth(d, k, args);
    var precision := PrecisionOf(d, k, args);
    StandardField(StandardSign(d, w), StandardDigits(Magnitude(d, w), BaseOf(d), precision),
                  Abs(width), d.pad == '-' || width < 0, d.pad == '0' && precision == None)
  }

  // The number of digits the standard asks for, beside the number of digits there are.
  function StandardLength(d: Directive, k: nat, args: Args): nat {
    var w := args.word(NextOf(d, k));
    match PrecisionOf(d, k, args)
    case None => Length(d, w)
    case Some(p) => if p == 0 && Magnitude(d, w) == 0 then 0 else if p > Length(d, w) then p else Length(d, w)
  }

  // Where the formatter does what the standard says.
  predicate MeetsStandard(d: Directive, k: nat, args: Args) {
    var w, width := args.word(NextOf(d, k)), StandardWidth(d, k, args);
    var len, wanted := Length(d, w), StandardLength(d, k, args);
    var sign := if Negative(d, w) then 1 else 0;
    (!d.alt || Magnitude(d, w) == 0) &&
    if d.pad == '-' || width < 0 then wanted == len && width <= len && Abs(width) <= sign + len
    else if d.pad == ' ' then wanted == len && (sign == 0 || width <= len)
    else if PrecisionOf(d, k, args) == None then sign == 0 || width <= len
    else wanted == if width > len then width else len
  }

  // ---- where they agree ----

  // Digits: not empty, and neither padding nor a sign.
  predicate DigitsOnly(s: string) {
    s != "" && forall i :: 0 <= i < |s| ==> s[i] !in {' ', '-', 'x'}
  }

  lemma PrintedDigits(n: nat, base: nat)
    requires 2 <= base <= 16
    ensures DigitsOnly(Digits(n, base))
  {
    hide Digits;
    DigitsAreDigits(n, base);
    forall i | 0 <= i < |Digits(n, base)|
      ensures Digits(n, base)[i] !in {' ', '-', 'x'}
    {
      assert DigitIn(Digits(n, base)[i], base);
    }
  }

  lemma FirstOf(c: char, n: int, s: string)
    requires s != ""
    ensures (Repeat(c, n) + s)[0] == if n > 0 then c else s[0]
  {
  }

  lemma Cancel(a: string, x: string, y: string)
    ensures a + x == a + y <==> x == y
  {
    assert (a + x)[|a|..] == x && (a + y)[|a|..] == y;
  }

  // Padding in front of digits against zeros in front of the same digits.
  lemma PaddedAgainstZeros(c: char, a: int, z: int, s: string)
    requires DigitsOnly(s) && c in {' ', '0', '-'}
    ensures Repeat(c, a) + s == Repeat('0', z) + s <==>
            if c == '0' then (if a > 0 then a else 0) == (if z > 0 then z else 0) else a <= 0 && z <= 0
  {
    RepeatLength(c, a);
    RepeatLength('0', z);
    FirstOf(c, a, s);
    FirstOf('0', z, s);
    if a <= 0 && z <= 0 {
      RepeatNone(c, a);
      RepeatNone('0', z);
    } else if c == '0' && a > 0 && z > 0 {
      assert a == z ==> Repeat(c, a) == Repeat('0', z);
    }
  }

  // The digits s as the standard has them: none, or zeros in front.
  predicate WithZeros(wanted: string, z: int, s: string) {
    wanted == "" || wanted == Repeat('0', z) + s
  }

  // A text without blanks on either side of the digits.
  lemma UnpaddedAgree(sign: string, s: string, wanted: string, z: int, c: char, a: int)
    requires DigitsOnly(s) && WithZeros(wanted, z, s) && c in {' ', '0', '-'}
    ensures sign + (Repeat(c, a) + s) == sign + wanted <==>
            wanted != "" &&
            if c == '0' then (if a > 0 then a else 0) == (if z > 0 then z else 0) else a <= 0 && z <= 0
  {
    Cancel(sign, Repeat(c, a) + s, wanted);
    PaddedAgainstZeros(c, a, z, s);
  }

  lemma LeftAgrees(sign: string, s: string, wanted: string, z: int, c: char, a: int, b: int)
    requires DigitsOnly(s) && WithZeros(wanted, z, s) && c in {' ', '0', '-'} && (a <= 0 || c == '-')
    ensures sign + (Repeat(c, a) + s) == sign + wanted + Repeat(' ', b) <==>
            wanted != "" && a <= 0 && z <= 0 && b <= 0
  {
    UnpaddedAgree(sign, s, wanted, z, c, a);
    RepeatLength(' ', b);
    if b > 0 {
      RepeatAt(' ', b, b - 1);
      var l, r := sign + (Repeat(c, a) + s), sign + wanted + Repeat(' ', b);
      assert l[|l| - 1] == s[|s| - 1] && r[|r| - 1] == ' ';
    } else {
      RepeatNone(' ', b);
      assert sign + wanted + Repeat(' ', b) == sign + wanted;
    }
  }

  // Padding c in front of the digits, against b blanks in front of the sign.
  lemma RightAgreesUnlessBlank(sign: string, s: string, wanted: string, z: int, c: char, a: int, b: int)
    requires DigitsOnly(s) && WithZeros(wanted, z, s) && c in {' ', '0'}
    requires sign == "-" || (sign == "" && c == '0')
    ensures sign + (Repeat(c, a) + s) == Repeat(' ', b) + (sign + wanted) <==>
            wanted != "" && b <= 0 &&
            if c == '0' then (if a > 0 then a else 0) == (if z > 0 then z else 0) else a <= 0 && z <= 0
  {
    UnpaddedAgree(sign, s, wanted, z, c, a);
    if b > 0 {
      FirstOf(c, a, s);
      var l := sign + (Repeat(c, a) + s);
      assert l[0] != ' ';
      assert (Repeat(' ', b) + (sign + wanted))[0] == ' ';
    } else {
      RepeatNone(' ', b);
      assert Repeat(' ', b) + (sign + wanted) == sign + wanted;
    }
  }

  // Blanks on both sides of the comparison, and no sign.
  lemma BlanksAgree(s: string, wanted: string, z: int, a: int, b: int)
    requires DigitsOnly(s) && WithZeros(wanted, z, s)
    requires wanted != "" ==> b == a - (if z > 0 then z else 0) || (a <= 0 && b <= 0)
    ensures Repeat(' ', a) + s == Repeat(' ', b) + wanted <==> wanted != "" && z <= 0
  {
    var l, r := Repeat(' ', a) + s, Repeat(' ', b) + wanted;
    RepeatLength(' ', a);
    RepeatLength(' ', b);
    if wanted == "" {
      assert l[|l| - 1] == s[|s| - 1];
      if b > 0 {
        RepeatAt(' ', b, b - 1);
        assert r[|r| - 1] == ' ';
      }
    } else if z <= 0 {
      RepeatNone('0', z);
      assert wanted == s;
      if a <= 0 && b <= 0 {
        RepeatNone(' ', a);
        RepeatNone(' ', b);
      }
    } else {
      RepeatLength('0', z);
      var i := if b > 0 then b else 0;
      FirstOf('0', z, s);
      assert |r| == i + |wanted| && r[i] == '0';
      if i < a {
        RepeatAt(' ', a, i);
        assert l[i] == ' ';
      }
    }
  }

  lemma NumberHasNoX(n: nat, base: nat, width: int, padc: char)
    requires 2 <= base <= 16 && padc != 'x'
    ensures 'x' !in Number(n, base, width, padc)
  {
    PrintedDigits(n, base);
    var pads := width - |Digits(n, base)|;
    RepeatLength(padc, pads);
    forall i | 0 <= i < |Repeat(padc, pads)|
      ensures Repeat(padc, pads)[i] != 'x'
    {
      RepeatAt(padc, pads, i);
    }
  }

  // The formatter prints no prefix for %#x.
  lemma PrefixMissing(d: Directive, k: nat, args: Args)
    requires Proper(d) && d.conv == 'x' && d.alt && Magnitude(d, args.word(NextOf(d, k))) > 0
    ensures NumberText(d, FlagsOf(d, k, args).width, args.word(NextOf(d, k))) != StandardText(d, k, args)
  {
    hide Number, StandardDigits, FlagsOf, PrecisionOf, Repeat;
    var w := args.word(NextOf(d, k));
    NumberHasNoX(Magnitude(d, w), 16, FlagsOf(d, k, args).width, d.pad);
    assert StandardSign(d, w)[1] == 'x';
    assert 'x' in StandardSign(d, w);
    assert 'x' in StandardText(d, k, args);
  }

  lemma WantedDigits(d: Directive, k: nat, args: Args) returns (z: int)
    ensures var w := args.word(NextOf(d, k));
            var wanted := StandardDigits(Magnitude(d, w), BaseOf(d), PrecisionOf(d, k, args));
            WithZeros(wanted, z, Digits(Magnitude(d, w), BaseOf(d))) &&
            |wanted| == StandardLength(d, k, args) &&
            (wanted != "" ==> |wanted| == Length(d, w) + if z > 0 then z else 0) &&
            (PrecisionOf(d, k, args) == None ==> z == 0 && wanted == Digits(Magnitude(d, w), BaseOf(d)))
  {
    hide Digits, PrecisionOf, Magnitude;
    var w := args.word(NextOf(d, k));
    var p := PrecisionOf(d, k, args);
    z := if p == None then 0 else p.value - Length(d, w);
    RepeatLength('0', z);
    if p == None {
      assert Repeat('0', z) + Digits(Magnitude(d, w), BaseOf(d)) == Digits(Magnitude(d, w), BaseOf(d));
    }
  }

  // For every d, u and x directive, the formatter prints the field of the standard exactly where
  // MeetsStandard says so.
  lemma StandardExactlyWhen(d: Directive, k: nat, args: Args)
    requires Proper(d) && d.conv in "dux" && (d.alt ==> d.conv == 'x')
    ensures NumberText(d, FlagsOf(d, k, args).width, args.word(NextOf(d, k))) == StandardText(d, k, args) <==>
            MeetsStandard(d, k, args)
  {
    hide Digits, StandardDigits, StandardLength, Repeat, PrecisionOf, Int32, Magnitude, GetInt;
    var w := args.word(NextOf(d, k));
    if d.alt && Magnitude(d, w) > 0 {
      PrefixMissing(d, k, args);
    } else {
      var s := Digits(Magnitude(d, w), BaseOf(d));
      PrintedDigits(Magnitude(d, w), BaseOf(d));
      var z := WantedDigits(d, k, args);
      var p := PrecisionOf(d, k, args);
      var wanted := StandardDigits(Magnitude(d, w), BaseOf(d), p);
      var sign, width := StandardSign(d, w), StandardWidth(d, k, args);
      var a, b := FlagsOf(d, k, args).width - |s|, Abs(width) - |sign| - |wanted|;
      if d.pad == '-' || width < 0 {
        LeftAgrees(sign, s, wanted, z, d.pad, a, b);
      } else if d.pad == '0' && p == None {
        UnpaddedAgree(sign, s, Repeat('0', b) + wanted, b, '0', a);
      } else if sign == "-" || d.pad == '0' {
        RightAgreesUnlessBlank(sign, s, wanted, z, d.pad, a, b);
      } else {
        assert sign + wanted == wanted && sign + (Repeat(d.pad, a) + s) == Repeat(d.pad, a) + s;
        BlanksAgree(s, wanted, z, a, b);
      }
    }
  }
}
