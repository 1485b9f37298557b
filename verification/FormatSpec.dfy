/**
 What vprintfmt of lib/printfmt.c prints: a recursive account of literals and directives
 over a NUL-terminated format and a list of variadic argument words.
 */
module FormatSpec {
  import opened Words

  // The characters before a terminating NUL, few enough for an int to count them.
  type CString = s: string | '\0' !in s && |s| < 0x8000_0000

  // word(k) is the k-th variadic argument slot, str(p) the string at address p.
  datatype Args = Args(word: nat -> U64, str: U64 -> CString)

  // A format as it lies in memory: its one NUL is its last character.
  predicate Terminated(f: string) {
    |f| > 0 && f[|f| - 1] == '\0' && forall i :: 0 <= i < |f| - 1 ==> f[i] != '\0'
  }

  // ---- numbers ----

  function DigitChar(d: nat): char
    requires d < 16
  {
    "0123456789abcdef"[d]
  }

  function Digits(n: nat, base: nat): (s: string)
    requires 2 <= base <= 16
    ensures |s| > 0
  {
    if n < base then [DigitChar(n)] else Digits(n / base, base) + [DigitChar(n % base)]
  }

  function Repeat(c: char, n: int): string {
    if n <= 0 then "" else [c] + Repeat(c, n - 1)
  }

  lemma RepeatNone(c: char, n: int)
    requires n <= 0
    ensures Repeat(c, n) == ""
  {
  }

  // printnum: digits, preceded by pad characters up to the width.
  function Number(n: nat, base: nat, width: int, padc: char): string
    requires 2 <= base <= 16
  {
    Repeat(padc, width - |Digits(n, base)|) + Digits(n, base)
  }

  // %d: the sign comes before the padding and does not count in the width.
  function Signed(n: int, width: int, padc: char): string {
    if n < 0 then "-" + Number(-n, 10, width, padc) else Number(n, 10, width, padc)
  }

  // va_arg(ap, unsigned), va_arg(ap, int) and their 64-bit forms.
  function Low32(w: U64): nat {
    w % 0x1_0000_0000
  }

  function Int32(w: U64): (n: int)
    ensures -0x8000_0000 <= n < 0x8000_0000
  {
    if Low32(w) < 0x8000_0000 then Low32(w) else Low32(w) - 0x1_0000_0000
  }

  function GetUint(w: U64, lflag: nat): nat {
    if lflag > 0 then w else Low32(w)
  }

  function GetInt(w: U64, lflag: nat): int {
    if lflag > 0 then Int64(w) else Int32(w)
  }

  // ---- strings and error codes ----

  const E_UNSPECIFIED: nat := 1
  const E_BAD_ENV: nat := 2
  const E_INVAL: nat := 3
  const E_NO_MEM: nat := 4
  const E_NO_FREE_ENV: nat := 5
  const E_FAULT: nat := 6
  const E_IPC_NOT_RECV: nat := 7
  const E_EOF: nat := 8
  const MAXERROR: nat := 9

  // error_string, with "" for the code without an entry.
  const ERROR_STRINGS: seq<CString> := [
    "", "unspecified error", "bad environment", "invalid parameter", "out of memory",
    "out of environments", "segmentation fault", "env is not recving", "unexpected end of file"
  ]

  const ERROR_FORMAT: string := "error %d\0"
  const STRING_FORMAT: string := "%s\0"

  function Abs(n: int): nat {
    if n < 0 then -n else n
  }

  function ErrorText(err: nat): string {
    if err >= MAXERROR || err == 0 then "error " + Signed(Int32(err % 0x1_0000_0000), -1, ' ')
    else ERROR_STRINGS[err]
  }

  function Shown(p: string, precision: int): string {
    if precision < 0 || |p| <= precision then p else p[..precision]
  }

  function Masked(p: string, alt: bool): (s: string)
    ensures |s| == |p|
  {
    if p == "" then "" else
      [if alt && (p[0] < ' ' || p[0] > '~') then '?' else p[0]] + Masked(p[1..], alt)
  }

  lemma {:induction false} MaskedSame(p: string)
    ensures Masked(p, false) == p
  {
    if p == "" {
    } else {
      MaskedSame(p[1..]);
    }
  }

  lemma {:induction false} MaskedAt(p: string, alt: bool, i: nat)
    requires i < |p|
    ensures Masked(p, alt)[i] == if alt && (p[i] < ' ' || p[i] > '~') then '?' else p[i]
    decreases i
  {
    if i == 0 {
    } else {
      MaskedAt(p[1..], alt, i - 1);
    }
  }

  datatype Flags = Flags(padc: char, width: int, precision: int, lflag: nat, alt: bool)

  function Text(p: string, fl: Flags): string {
    var s := Shown(p, fl.precision);
    if fl.width > 0 && fl.padc != '-' then Repeat(fl.padc, fl.width - |s|) + Masked(s, fl.alt)
    else Masked(s, fl.alt) + Repeat(' ', fl.width - |s|)
  }

  // ---- directives ----

  const START_FLAGS := Flags(' ', -1, -1, 0, false)

  predicate IsDigit(c: char) {
    '0' <= c <= '9'
  }

  predicate IsFlag(c: char) {
    c in "-*.#l" || IsDigit(c)
  }

  function DigitValue(c: char): nat
    requires IsDigit(c)
  {
    c as int - '0' as int
  }

  // The first index from i on that holds no digit.
  function DigitsEnd(f: string, i: nat): (j: nat)
    requires Terminated(f) && i < |f|
    ensures i <= j < |f| && !IsDigit(f[j])
    ensures forall x :: i <= x < j ==> IsDigit(f[x])
    decreases |f| - i
  {
    if IsDigit(f[i]) then DigitsEnd(f, i + 1) else i
  }

  lemma DigitsEndIs(f: string, i: nat, j: nat)
    requires Terminated(f) && i <= j < |f| && !IsDigit(f[j])
    requires forall x :: i <= x < j ==> IsDigit(f[x])
    ensures DigitsEnd(f, i) == j
  {
  }

  function Decimal(s: string): nat
    requires forall i :: 0 <= i < |s| ==> IsDigit(s[i])
  {
    if s == "" then 0 else Decimal(s[..|s| - 1]) * 10 + DigitValue(s[|s| - 1])
  }

  // process_precision
  function TakeNumber(fl: Flags, n: int): Flags {
    if fl.width < 0 then fl.(width := n, precision := -1) else fl.(precision := n)
  }

  // One flag character or number: its length, and the flags and next argument behind it.
  datatype Taken = Taken(len: nat, fl: Flags, next: nat)

  function TakeFlag(f: string, i: nat, fl: Flags, k: nat, args: Args): (t: Taken)
    requires Terminated(f) && i < |f| && IsFlag(f[i])
    ensures t.len > 0 && i + t.len < |f| && forall x :: i <= x < i + t.len ==> IsFlag(f[x])
    ensures fl.precision >= -0x8000_0000 ==> t.fl.precision >= -0x8000_0000
  {
    var c := f[i];
    if c == '-' then Taken(1, fl.(padc := '-'), k)
    else if c == '0' then Taken(1, fl.(padc := '0'), k)
    else if IsDigit(c) then
      var j := DigitsEnd(f, i);
      Taken(j - i, TakeNumber(fl, Decimal(f[i..j])), k)
    else if c == '*' then Taken(1, TakeNumber(fl, Int32(args.word(k))), k + 1)
    else if c == '.' then Taken(1, if fl.width < 0 then fl.(width := 0) else fl, k)
    else if c == '#' then Taken(1, fl.(alt := true), k)
    else Taken(1, fl.(lflag := fl.lflag + 1), k)
  }

  // The flags from index i on, the index of the conversion character behind them, and the
  // next argument.
  datatype Escape = Escape(fl: Flags, at: nat, next: nat)

  function ParseEscape(f: string, i: nat, fl: Flags, k: nat, args: Args): (e: Escape)
    requires Terminated(f) && i < |f|
    ensures i <= e.at < |f| && !IsFlag(f[e.at])
    ensures forall x :: i <= x < e.at ==> IsFlag(f[x])
    ensures fl.precision >= -0x8000_0000 ==> e.fl.precision >= -0x8000_0000
    decreases |f| - i
  {
    if IsFlag(f[i]) then
      var t := TakeFlag(f, i, fl, k, args);
      ParseEscape(f, i + t.len, t.fl, t.next, args)
    else Escape(fl, i, k)
  }

  datatype Conversion = Conversion(out: string, next: nat)

  // The text of a conversion, or None for an unknown conversion character.
  function Convert(c: char, fl: Flags, k: nat, args: Args): Option<Conversion> {
    var w := args.word(k);
    match c
    case 'c' => Some(Conversion([(w % 256) as char], k + 1))
    case 'e' => Some(Conversion(ErrorText(Abs(Int32(w))), k + 1))
    case 's' => Some(Conversion(Text(if w == 0 then "(null)" else args.str(w), fl), k + 1))
    case 'd' => Some(Conversion(Signed(GetInt(w, fl.lflag), fl.width, fl.padc), k + 1))
    case 'u' => Some(Conversion(Number(GetUint(w, fl.lflag), 10, fl.width, fl.padc), k + 1))
    case 'o' => Some(Conversion("XXX", k))
    case 'p' => Some(Conversion("0x" + Number(w, 16, fl.width, fl.padc), k + 1))
    case 'x' => Some(Conversion(Number(GetUint(w, fl.lflag), 16, fl.width, fl.padc), k + 1))
    case '%' => Some(Conversion("%", k))
    case _ => None
  }

  // Everything printed from index i on. An escape with an unknown conversion is printed
  // as it stands; the arguments its stars took stay taken.
  function Format(f: string, i: nat, k: nat, args: Args): string
    requires Terminated(f) && i < |f|
    decreases |f| - i
  {
    if f[i] == '\0' then ""
    else if f[i] != '%' then [f[i]] + Format(f, i + 1, k, args)
    else
      var e := ParseEscape(f, i + 1, START_FLAGS, k, args);
      match Convert(f[e.at], e.fl, e.next, args)
      case Some(c) => c.out + Format(f, e.at + 1, c.next, args)
      case None => "%" + Format(f, i + 1, e.next, args)
  }

  lemma KnownIsNotNul(c: char, fl: Flags, k: nat, args: Args)
    requires Convert(c, fl, k, args).Some?
    ensures c != '\0'
  {
  }

  // One escape of a format.
  lemma FormatEscape(f: string, i: nat, k: nat, args: Args)
    requires Terminated(f) && i < |f| && f[i] == '%'
    ensures var e := ParseEscape(f, i + 1, START_FLAGS, k, args);
            (Convert(f[e.at], e.fl, e.next, args).Some? ==> e.at + 1 < |f|) &&
            Format(f, i, k, args) ==
              match Convert(f[e.at], e.fl, e.next, args)
              case Some(c) => c.out + Format(f, e.at + 1, c.next, args)
              case None => "%" + Format(f, i + 1, e.next, args)
  {
    hide Convert, ParseEscape;
    var e := ParseEscape(f, i + 1, START_FLAGS, k, args);
    if Convert(f[e.at], e.fl, e.next, args).Some? {
      KnownIsNotNul(f[e.at], e.fl, e.next, args);
    }
  }

  // Up to the next escape a format is printed as it stands.
  lemma {:induction false} LiteralText(f: string, i: nat, j: nat, k: nat, args: Args)
    requires Terminated(f) && i <= j < |f| && '%' !in f[i..j]
    ensures Format(f, i, k, args) == f[i..j] + Format(f, j, k, args)
    decreases j - i
  {
    hide ParseEscape, Convert;
    if i == j {
    } else {
      assert f[i] in f[i..j];
      assert f[i..j] == [f[i]] + f[i + 1..j];
      LiteralText(f, i + 1, j, k, args);
    }
  }
}
