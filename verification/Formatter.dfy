/**
 vprintfmt, printnum and vsnprintf of lib/printfmt.c and vprintf of lib/printf.c.
 The formatter hands its callback exactly the characters that FormatSpec.Format lists, for
 every NUL-terminated format, and reads no character behind the NUL.
 */
module Formatter {
  import opened FormatSpec
  import opened Output
  import opened Words

  // printnum's recursion: the leading digits take a width smaller by one.
  lemma NumberGrows(num: nat, base: nat, width: int, padc: char)
    requires 2 <= base <= 16 && num >= base
    ensures Number(num, base, width, padc) == Number(num / base, base, width - 1, padc) + [DigitChar(num % base)]
  {
  }

  lemma NumberLeads(num: nat, base: nat, width: int, padc: char)
    requires 2 <= base <= 16 && num < base
    ensures Number(num, base, width, padc) == Repeat(padc, width - 1) + [DigitChar(num % base)]
  {
  }

  // The loops that emit a character a given number of times.
  method Pad(sink: Sink, c: char, n: int)
    requires sink.Valid()
    modifies sink.Repr
    ensures sink.Valid() && sink.log == old(sink.log) + Repeat(c, n)
  {
    var width := n;
    while width > 0
      invariant sink.Valid()
      invariant sink.log + Repeat(c, width) == old(sink.log) + Repeat(c, n)
    {
      sink.Putch(c);
      width := width - 1;
    }
  }

  method Printnum(sink: Sink, num: nat, base: nat, width: int, padc: char)
    requires sink.Valid() && 2 <= base <= 16
    modifies sink.Repr
    ensures sink.Valid() && sink.log == old(sink.log) + Number(num, base, width, padc)
    decreases num
  {
    hide Sink.Valid, Number;
    if num >= base {
      NumberGrows(num, base, width, padc);
      Printnum(sink, num / base, base, width - 1, padc);
    } else {
      NumberLeads(num, base, width, padc);
      Pad(sink, padc, width - 1);
    }
    sink.Putch(DigitChar(num % base));
  }

  // The character loop of %s. The terminating NUL of p may be read, nothing behind it.
  method PrintChars(sink: Sink, p: CString, fl: Flags, width0: int) returns (width: int)
    requires sink.Valid()
    modifies sink.Repr
    ensures sink.Valid() && sink.log == old(sink.log) + Masked(Shown(p, fl.precision), fl.alt)
    ensures width == width0 - |Shown(p, fl.precision)|
  {
    hide Sink.Valid, Masked;
    ghost var s := Shown(p, fl.precision);
    var mem := p + ['\0'];
    var precision := fl.precision;
    width := width0;
    var i := 0;
    while mem[i] != '\0' && (precision < 0 || precision - 1 >= 0)
      invariant sink.Valid() && i <= |s|
      invariant precision == if fl.precision < 0 then fl.precision else fl.precision - i
      invariant width == width0 - i
      invariant sink.log == old(sink.log) + Masked(s, fl.alt)[..i]
      decreases |s| - i
    {
      precision := if precision >= 0 then precision - 1 else precision;
      MaskedAt(s, fl.alt, i);
      sink.Putch(if fl.alt && (mem[i] < ' ' || mem[i] > '~') then '?' else mem[i]);
      i := i + 1;
      width := width - 1;
    }
    assert i == |s|;
  }

  method Strnlen(mem: string, size: nat) returns (n: nat)
    requires |mem| > 0 && mem[|mem| - 1] == '\0' && '\0' !in mem[..|mem| - 1]
    ensures n == if |mem| - 1 <= size then |mem| - 1 else size
  {
    n := 0;
    var left := size;
    while left > 0 && mem[n] != '\0'
      invariant n < |mem| && n + left == size
    {
      n := n + 1;
      left := left - 1;
    }
    assert n < |mem| - 1 ==> mem[n] in mem[..|mem| - 1];
  }

  // The %s case.
  method PrintString(sink: Sink, p: CString, fl: Flags)
    requires sink.Valid() && fl.precision >= -0x8000_0000
    modifies sink.Repr
    ensures sink.Valid() && sink.log == old(sink.log) + Text(p, fl)
  {
    hide Sink.Valid, Masked, Repeat;
    var width := fl.width;
    if fl.width > 0 && fl.padc != '-' {
      var n := Strnlen(p + ['\0'],
                       if fl.precision < 0 then 0x1_0000_0000_0000_0000 + fl.precision else fl.precision);
      width := fl.width - n;
      Pad(sink, fl.padc, width);
      width := if width > 0 then 0 else width;
      width := PrintChars(sink, p, fl, width);
      RepeatNone(' ', width);
    } else {
      width := PrintChars(sink, p, fl, width);
    }
    Pad(sink, ' ', width);
  }

  lemma DecimalNone(s: string)
    requires s == ""
    ensures Decimal(s) == 0
  {
  }

  lemma DecimalSnoc(f: string, i: nat, j: nat)
    requires i <= j < |f| && forall x :: i <= x <= j ==> IsDigit(f[x])
    ensures var s := f[i..j + 1]; forall x :: 0 <= x < |s| ==> IsDigit(s[x])
    ensures var s := f[i..j]; forall x :: 0 <= x < |s| ==> IsDigit(s[x])
    ensures Decimal(f[i..j + 1]) == Decimal(f[i..j]) * 10 + DigitValue(f[j])
  {
    assert f[i..j + 1][..j - i] == f[i..j];
  }

  // The width field's loop; pos is just behind its first digit.
  method ReadNumber(f: string, pos: nat) returns (precision: nat, j: nat)
    requires Terminated(f) && 0 < pos <= |f| && IsDigit(f[pos - 1])
    ensures j == DigitsEnd(f, pos - 1) && j >= pos && precision == Decimal(f[pos - 1..j])
  {
    hide Decimal;
    var ch := f[pos - 1];
    precision, j := 0, pos;
    DecimalNone(f[pos - 1..pos - 1]);
    while true
      invariant pos <= j < |f| && ch == f[j - 1] && IsDigit(ch)
      invariant forall x :: pos - 1 <= x < j ==> IsDigit(f[x])
      invariant precision == Decimal(f[pos - 1..j - 1])
      decreases |f| - j
    {
      DecimalSnoc(f, pos - 1, j - 1);
      precision := precision * 10 + ch as int - '0' as int;
      ch := f[j];
      if ch < '0' || ch > '9' {
        break;
      }
      j := j + 1;
    }
    DigitsEndIs(f, pos - 1, j);
  }

  method ProcessPrecision(fl0: Flags, precision: int) returns (fl: Flags)
    ensures fl == TakeNumber(fl0, precision)
  {
    fl := fl0.(precision := precision);
    if fl.width < 0 {
      fl := fl.(width := precision);
      fl := fl.(precision := -1);
    }
  }

  // One case of the switch that ends in goto reswitch.
  method ScanFlag(f: string, i0: nat, fl0: Flags, k0: nat, args: Args) returns (fl: Flags, i: nat, k: nat)
    requires Terminated(f) && i0 < |f| && IsFlag(f[i0])
    ensures i > i0 && Taken(i - i0, fl, k) == TakeFlag(f, i0, fl0, k0, args)
  {
    hide Decimal, DigitsEnd, TakeNumber;
    fl, i, k := fl0, i0, k0;
    var ch := f[i];
    i := i + 1;
    if ch == '-' {
      fl := fl.(padc := '-');
    } else if ch == '0' {
      fl := fl.(padc := '0');
    } else if '1' <= ch <= '9' {
      var precision;
      precision, i := ReadNumber(f, i);
      fl := ProcessPrecision(fl, precision);
    } else if ch == '*' {
      fl := ProcessPrecision(fl, Int32(args.word(k)));
      k := k + 1;
    } else if ch == '.' {
      fl := if fl.width < 0 then fl.(width := 0) else fl;
    } else if ch == '#' {
      fl := fl.(alt := true);
    } else {
      fl := fl.(lflag := fl.lflag + 1);
    }
  }

  // The reswitch loop: flags, widths and stars, up to the conversion character.
  method ScanEscape(f: string, pos: nat, k0: nat, args: Args) returns (fl: Flags, i: nat, k: nat)
    requires Terminated(f) && pos < |f|
    ensures Escape(fl, i, k) == ParseEscape(f, pos, START_FLAGS, k0, args)
  {
    hide TakeFlag, IsFlag;
    fl, i, k := START_FLAGS, pos, k0;
    while IsFlag(f[i])
      invariant pos <= i < |f|
      invariant ParseEscape(f, pos, START_FLAGS, k0, args) == ParseEscape(f, i, fl, k, args)
      decreases |f| - i
    {
      fl, i, k := ScanFlag(f, i, fl, k, args);
    }
  }

  // printfmt's formats, and the only ones it is called with here.
  predicate Internal(f: string) {
    f == ERROR_FORMAT || f == STRING_FORMAT
  }

  lemma InternalTerminated()
    ensures Terminated(ERROR_FORMAT) && Terminated(STRING_FORMAT)
  {
  }

  method PrintSigned(sink: Sink, n: int, width: int, padc: char)
    requires sink.Valid()
    modifies sink.Repr
    ensures sink.Valid() && sink.log == old(sink.log) + Signed(n, width, padc)
  {
    hide Sink.Valid, Number;
    var num := n;
    if num < 0 {
      sink.Putch('-');
      num := -num;
    }
    Printnum(sink, num, 10, width, padc);
  }

  lemma ErrorFormatText(err: nat, args: Args)
    requires args.word(0) == err % 0x1_0000_0000
    ensures Format(ERROR_FORMAT, 0, 0, args) == "error " + Signed(Int32(err % 0x1_0000_0000), -1, ' ')
  {
    hide Signed;
    var f := ERROR_FORMAT;
    LiteralText(f, 0, 6, 0, args);
    assert f[0..6] == "error ";
    assert ParseEscape(f, 7, START_FLAGS, 0, args) == Escape(START_FLAGS, 7, 0);
    assert Format(f, 8, 1, args) == "";
  }

  lemma StringFormatText(err: nat)
    requires 0 < err < MAXERROR
    ensures Format(STRING_FORMAT, 0, 0, Args(_ => 1, _ => ERROR_STRINGS[err])) == ERROR_STRINGS[err]
  {
    var f := STRING_FORMAT;
    var p := ERROR_STRINGS[err];
    var args := Args(_ => 1, _ => p);
    assert ParseEscape(f, 1, START_FLAGS, 0, args) == Escape(START_FLAGS, 1, 0);
    assert Format(f, 2, 1, args) == "";
    MaskedSame(p);
    assert Text(p, START_FLAGS) == p;
  }

  // The literal loop: up to the next '%' or to the NUL.
  method PrintLiteral(sink: Sink, f: string, pos0: nat, ghost k: nat, ghost args: Args) returns (pos: nat)
    requires sink.Valid() && Terminated(f) && pos0 < |f|
    modifies sink.Repr
    ensures sink.Valid() && pos0 <= pos < |f| && (f[pos] == '%' || f[pos] == '\0')
    ensures sink.log + Format(f, pos, k, args) == old(sink.log) + Format(f, pos0, k, args)
  {
    hide Sink.Valid, ParseEscape, Convert;
    pos := pos0;
    while f[pos] != '%'
      invariant sink.Valid() && pos0 <= pos < |f|
      invariant sink.log + Format(f, pos, k, args) == old(sink.log) + Format(f, pos0, k, args)
      decreases |f| - pos
    {
      if f[pos] == '\0' {
        return;
      }
      sink.Putch(f[pos]);
      pos := pos + 1;
    }
  }

  // The only conversions in printfmt's formats are %d and %s.
  lemma InternalEscape(f: string, pos: nat, k: nat, args: Args)
    requires Terminated(f) && Internal(f) && 0 < pos < |f| && f[pos - 1] == '%'
    ensures f[ParseEscape(f, pos, START_FLAGS, k, args).at] != 'e'
  {
  }

  lemma Regroup(a: string, b: string, c: string)
    ensures (a + b) + c == a + (b + c)
  {
  }

  lemma NoPercent(f: string, start: nat, e: Escape)
    requires start + 1 <= e.at < |f| && forall x :: start + 1 <= x < e.at ==> IsFlag(f[x])
    ensures forall x :: start < x < e.at ==> f[x] != '%'
  {
  }

  // The default case's backward scan, to the character behind the escape's '%'.
  method Backtrack(f: string, ghost start: nat, pos0: nat) returns (pos: nat)
    requires start + 1 < pos0 <= |f| && f[start] == '%'
    requires forall x :: start < x < pos0 - 1 ==> f[x] != '%'
    ensures pos == start + 1
  {
    pos := pos0 - 1;
    while f[pos - 1] != '%'
      invariant start < pos < pos0
      decreases pos
    {
      pos := pos - 1;
    }
  }

  // The %e case, through printfmt.
  method PrintError(sink: Sink, code: int, args: Args)
    requires sink.Valid()
    modifies sink.Repr
    ensures sink.Valid() && sink.log == old(sink.log) + ErrorText(Abs(code))
    decreases 0, 2
  {
    hide Sink.Valid, Signed, Format, Terminated;
    InternalTerminated();
    var err := code;
    if err < 0 {
      err := -err;
    }
    if err >= MAXERROR || ERROR_STRINGS[err] == "" {
      var ap := args.(word := _ => err % 0x1_0000_0000);
      ErrorFormatText(err, ap);
      Vprintfmt(sink, ERROR_FORMAT, ap, true);
    } else {
      Vprintfmt(sink, STRING_FORMAT, Args(_ => 1, _ => ERROR_STRINGS[err]), true);
      StringFormatText(err);
    }
  }

  // The conversion switch behind the flags; ok is false for the default case.
  method PrintConversion(sink: Sink, ch: char, fl: Flags, k0: nat, args: Args, ghost nested: bool)
    returns (ok: bool, k: nat)
    requires sink.Valid() && fl.precision >= -0x8000_0000
    requires nested ==> ch != 'e'
    modifies sink.Repr
    ensures sink.Valid()
    ensures match Convert(ch, fl, k0, args)
            case Some(c) => ok && sink.log == old(sink.log) + c.out && k == c.next
            case None => !ok && sink.log == old(sink.log) && k == k0
    decreases if nested then 0 else 1, 0, 0
  {
    hide Sink.Valid, Number, Text, ErrorText;
    var w := args.word(k0);
    ok, k := true, k0 + 1;
    match ch
    case 'c' => sink.Putch((w % 256) as char);
    case 'e' => PrintError(sink, Int32(w), args);
    case 's' => PrintString(sink, if w == 0 then "(null)" else args.str(w), fl);
    case 'd' => PrintSigned(sink, GetInt(w, fl.lflag), fl.width, fl.padc);
    case 'u' => Printnum(sink, GetUint(w, fl.lflag), 10, fl.width, fl.padc);
    case 'o' =>
      sink.Putch('X');
      sink.Putch('X');
      sink.Putch('X');
      k := k0;
    case 'p' =>
      sink.Putch('0');
      sink.Putch('x');
      Printnum(sink, w, 16, fl.width, fl.padc);
    case 'x' => Printnum(sink, GetUint(w, fl.lflag), 16, fl.width, fl.padc);
    case '%' =>
      sink.Putch('%');
      k := k0;
    case _ =>
      ok, k := false, k0;
  }

  // One escape, from its '%' on.
  method PrintDirective(sink: Sink, f: string, pos0: nat, k0: nat, args: Args, ghost nested: bool)
    returns (pos: nat, k: nat)
    requires sink.Valid() && Terminated(f) && (nested ==> Internal(f))
    requires pos0 < |f| && f[pos0] == '%'
    modifies sink.Repr
    ensures sink.Valid() && pos0 < pos < |f|
    ensures sink.log + Format(f, pos, k, args) == old(sink.log) + Format(f, pos0, k0, args)
    decreases if nested then 0 else 1, 0, 1
  {
    hide Sink.Valid, ParseEscape, Convert, Format;
    FormatEscape(f, pos0, k0, args);
    pos := pos0 + 1;
    var fl;
    fl, pos, k := ScanEscape(f, pos, k0, args);
    if nested {
      InternalEscape(f, pos0 + 1, k0, args);
    }
    var ch := f[pos];
    pos := pos + 1;
    ghost var e := ParseEscape(f, pos0 + 1, START_FLAGS, k0, args);
    ghost var before := sink.log;
    var ok;
    ok, k := PrintConversion(sink, ch, fl, k, args, nested);
    if ok {
      Regroup(before, Convert(ch, e.fl, e.next, args).value.out, Format(f, pos, k, args));
    } else {
      sink.Putch('%');
      NoPercent(f, pos0, e);
      pos := Backtrack(f, pos0, pos);
      Regroup(before, "%", Format(f, pos, k, args));
    }
  }

  // vprintfmt. Every index into f is below |f|, so nothing behind its NUL is read.
  method Vprintfmt(sink: Sink, f: string, args: Args, ghost nested: bool)
    requires sink.Valid() && Terminated(f) && (nested ==> Internal(f))
    modifies sink.Repr
    ensures sink.Valid() && sink.log == old(sink.log) + Format(f, 0, 0, args)
    decreases if nested then 0 else 1, 1
  {
    hide Sink.Valid, ParseEscape, Convert;
    var pos, k := 0, 0;
    while true
      invariant sink.Valid() && pos < |f|
      invariant sink.log + Format(f, pos, k, args) == old(sink.log) + Format(f, 0, 0, args)
      decreases |f| - pos
    {
      pos := PrintLiteral(sink, f, pos, k, args);
      if f[pos] == '\0' {
        return;
      }
      pos, k := PrintDirective(sink, f, pos, k, args, nested);
    }
  }

  lemma StoreNul(s: string, a: string, original: string)
    requires |s| == |original| > |a| && s == a + original[|a|..]
    ensures s[..|a|] == a && s[|a| + 1..] == original[|a| + 1..]
  {
  }

  method FormatInto(buf: array<char>, n: nat, f: string, args: Args) returns (r: int)
    requires Terminated(f) && 1 <= n <= buf.Length
    modifies buf
    ensures var text := Format(f, 0, 0, args);
            var stored := if |text| <= n - 1 then |text| else n - 1;
            r == |text| && buf[..stored] == text[..stored] && buf[stored] == '\0' &&
            buf[stored + 1..] == old(buf[stored + 1..])
  {
    hide Format, Sink.Valid;
    ghost var original := buf[..];
    var dev := new Device([]);
    var b := new Sink.Sprint(buf, n, dev);
    Vprintfmt(b, f, args, false);
    b.SprintState();
    ghost var text, stored := b.log, b.idx;
    StoreNul(buf[..], text[..stored], original);
    buf[b.idx] := '\0';
    r := b.cnt;
    assert buf[..stored] == text[..stored];
    assert buf[stored + 1..] == original[stored + 1..];
  }

  // vsnprintf: stores the first min(n - 1, total) characters and a NUL, writes nothing
  // from buf[n] on, and returns the untruncated total.
  method Vsnprintf(buf: array?<char>, n: int, f: string, args: Args) returns (r: int)
    requires Terminated(f) && (buf != null ==> n <= buf.Length)
    modifies if buf != null then {buf} else {}
    ensures if buf == null || n < 1 then r == 0 - E_INVAL && (buf != null ==> buf[..] == old(buf[..]))
            else
              var text := Format(f, 0, 0, args);
              var stored := if |text| <= n - 1 then |text| else n - 1;
              r == |text| && buf[..stored] == text[..stored] && buf[stored] == '\0' &&
              buf[stored + 1..] == old(buf[stored + 1..])
  {
    hide Format, ParseEscape;
    if buf == null || n < 1 {
      return 0 - E_INVAL;
    }
    r := FormatInto(buf, n, f, args);
  }

  // vprintf: whatever parts of its offers the device accepts, it ends up with exactly the
  // formatted characters in order.
  method Vprintf(dev: Device, f: string, args: Args) returns (cnt: nat)
    requires Terminated(f)
    modifies dev
    ensures dev.out == old(dev.out) + Format(f, 0, 0, args)
    ensures cnt == |Format(f, 0, 0, args)|
  {
    hide Format;
    var b := new Sink.Printf(dev);
    Vprintfmt(b, f, args, false);
    b.Flush();
    cnt := b.cnt;
  }
}
