/**
 strtol of lib/string.c, and the round trip with the numbers the formatter prints.
 */
module NumberParsing {
  import opened FormatSpec
  import opened Words

  // ---- what strtol computes ----

  // The value of a digit in some base up to 36, or 36.
  function DigitOf(c: char): (d: nat) {
    if '0' <= c <= '9' then c as int - '0' as int
    else if 'a' <= c <= 'z' then c as int - 'a' as int + 10
    else if 'A' <= c <= 'Z' then c as int - 'A' as int + 10
    else 36
  }

  predicate DigitIn(c: char, base: int) {
    DigitOf(c) < 36 && DigitOf(c) < base
  }

  predicate AllDigits(s: string, base: int) {
    forall i :: 0 <= i < |s| ==> DigitIn(s[i], base)
  }

  // The number a string of digits denotes.
  function Value(s: string, base: int): int {
    if s == "" then 0 else Value(s[..|s| - 1], base) * base + DigitOf(s[|s| - 1])
  }

  predicate NulTerminated(s: string) {
    |s| > 0 && s[|s| - 1] == '\0'
  }

  // The first index from i on that holds no blank.
  function BlanksEnd(s: string, i: nat): (j: nat)
    requires NulTerminated(s) && i < |s|
    ensures i <= j < |s|
    decreases |s| - i
  {
    if s[i] == ' ' || s[i] == '\t' then BlanksEnd(s, i + 1) else i
  }

  // The first index from i on that holds no digit of the base.
  function RunEnd(s: string, i: nat, base: int): (j: nat)
    requires NulTerminated(s) && i < |s|
    ensures i <= j < |s| && AllDigits(s[i..j], base) && !DigitIn(s[j], base)
    decreases |s| - i
  {
    if DigitIn(s[i], base) then RunEnd(s, i + 1, base) else i
  }

  datatype Start = Start(at: nat, base: int)

  // Base prefixes: 0x in base 16 or 0, a leading 0 in base 0.
  function Prefix(s: string, i: nat, base: int): (p: Start)
    requires NulTerminated(s) && i < |s|
    ensures i <= p.at < |s|
  {
    if (base == 0 || base == 16) && s[i] == '0' && s[i + 1] == 'x' then Start(i + 2, 16)
    else if base == 0 && s[i] == '0' then Start(i + 1, 8)
    else Start(i, if base == 0 then 10 else base)
  }

  // The limit of long, in which strtol adds up the number. C leaves overflow undefined; the
  // processor wraps.
  const LONG_LIMIT: int := 0x8000_0000_0000_0000

  function Wrap64(n: int): (r: int)
    ensures -LONG_LIMIT <= r < LONG_LIMIT
    ensures -LONG_LIMIT <= n < LONG_LIMIT ==> r == n
  {
    (n + LONG_LIMIT) % WORD_LIMIT - LONG_LIMIT
  }

  // Whether adding up the digits of s passes the limit on the way.
  predicate Overflows(s: string, base: int) {
    s != "" && (Overflows(s[..|s| - 1], base) || Value(s, base) >= LONG_LIMIT)
  }

  // The value returned, the index behind the number, and whether long has overflowed.
  datatype Parsed = Parsed(val: int, end: nat, overflow: bool)

  // Blanks, an optional sign, a base prefix, and the longest run of digits.
  function Parse(s: string, base: int): (p: Parsed)
    requires NulTerminated(s)
    ensures p.end < |s|
  {
    var i := BlanksEnd(s, 0);
    var neg := s[i] == '-';
    var start := Prefix(s, if neg || s[i] == '+' then i + 1 else i, base);
    var j := RunEnd(s, start.at, start.base);
    var val := Value(s[start.at..j], start.base);
    Parsed(Wrap64(if neg then -val else val), j, Overflows(s[start.at..j], start.base))
  }

  // strtol's base prefix.
  method SkipPrefix(s: string, i0: nat, base0: int) returns (i: nat, base: int)
    requires NulTerminated(s) && i0 < |s|
    ensures Start(i, base) == Prefix(s, i0, base0)
  {
    i, base := i0, base0;
    if (base == 0 || base == 16) && s[i] == '0' && s[i + 1] == 'x' {
      i, base := i + 2, 16;
    } else if base == 0 && s[i] == '0' {
      i, base := i + 1, 8;
    } else if base == 0 {
      base := 10;
    }
  }

  // The value of the digit or letter c, or 36.
  method ReadDigit(c: char) returns (dig: nat)
    ensures dig == DigitOf(c) && dig <= 36
  {
    if '0' <= c <= '9' {
      dig := c as int - '0' as int;
    } else if 'a' <= c <= 'z' {
      dig := c as int - 'a' as int + 10;
    } else if 'A' <= c <= 'Z' {
      dig := c as int - 'A' as int + 10;
    } else {
      dig := 36;
    }
  }

  lemma NoDigits(s: string, base: int)
    requires s == ""
    ensures Value(s, base) == 0 && !Overflows(s, base) && AllDigits(s, base)
  {
  }

  lemma ValueLast(s: string, c: char, base: int)
    ensures Value(s + [c], base) == Value(s, base) * base + DigitOf(c)
  {
  }

  lemma DigitsLast(d: string, c: char, base: int)
    requires AllDigits(d, base) && DigitIn(c, base)
    ensures AllDigits(d + [c], base)
  {
  }

  lemma OverflowsLast(s: string, c: char, base: int)
    ensures Overflows(s + [c], base) <==> Overflows(s, base) || Value(s + [c], base) >= LONG_LIMIT
  {
  }

  lemma InRange(s: string, base: int)
    requires !Overflows(s, base)
    ensures Value(s, base) < LONG_LIMIT
  {
  }

  lemma {:induction false} ValueNonNegative(s: string, base: int)
    requires AllDigits(s, base)
    ensures Value(s, base) >= 0
  {
    hide DigitOf;
    if s == "" {
    } else {
      assert DigitIn(s[0], base);
      ValueNonNegative(s[..|s| - 1], base);
    }
  }

  lemma WrapDiffers(n: int) returns (k: int)
    ensures n == Wrap64(n) + k * WORD_LIMIT
  {
    k := (n + LONG_LIMIT) / WORD_LIMIT;
  }

  lemma WrapEqual(a: int, b: int, k: int)
    requires a == b + k * WORD_LIMIT
    ensures Wrap64(a) == Wrap64(b)
  {
  }

  // Adding up wrapped values ends where wrapping the sum does.
  lemma WrapSum(v: int, base: int, d: nat)
    ensures Wrap64(v * base + d) == Wrap64(Wrap64(v) * base + d)
  {
    var k := WrapDiffers(v);
    hide Wrap64;
    assert v * base == Wrap64(v) * base + k * base * WORD_LIMIT;
    WrapEqual(v * base + d, Wrap64(v) * base + d, k * base);
  }

  // One more digit of a run: the sum that is stored, and whether it leaves the range of long.
  lemma AddDigit(s: string, i: nat, j: nat, base: int)
    requires i <= j < |s| && AllDigits(s[i..j], base) && DigitIn(s[j], base)
    ensures AllDigits(s[i..j + 1], base)
    ensures var sum := Wrap64(Value(s[i..j], base)) * base + DigitOf(s[j]);
            Wrap64(Value(s[i..j + 1], base)) == Wrap64(sum) &&
            (Overflows(s[i..j + 1], base) <==>
             Overflows(s[i..j], base) || !(-LONG_LIMIT <= sum < LONG_LIMIT))
  {
    hide Value, Overflows, DigitOf, Wrap64;
    var d, c := s[i..j], s[j];
    assert s[i..j + 1] == d + [c];
    DigitsLast(d, c, base);
    ValueLast(d, c, base);
    OverflowsLast(d, c, base);
    WrapSum(Value(d, base), base, DigitOf(c));
    ValueNonNegative(d, base);
    if !Overflows(d, base) {
      InRange(d, base);
      ValueNonNegative(d + [c], base);
    }
  }

  // strtol's digit loop.
  method ScanDigits(s: string, start: nat, base: int) returns (val: int, i: nat, ghost overflow: bool)
    requires NulTerminated(s) && start < |s|
    ensures i == RunEnd(s, start, base) && val == Wrap64(Value(s[start..i], base))
    ensures overflow == Overflows(s[start..i], base)
  {
    hide Value, Overflows, Wrap64, AllDigits, DigitOf;
    val, i, overflow := 0, start, false;
    NoDigits(s[start..start], base);
    while true
      invariant start <= i < |s| && AllDigits(s[start..i], base)
      invariant val == Wrap64(Value(s[start..i], base)) && overflow == Overflows(s[start..i], base)
      invariant RunEnd(s, start, base) == RunEnd(s, i, base)
      decreases |s| - i
    {
      var dig := ReadDigit(s[i]);
      if dig == 36 || dig >= base {
        break;
      }
      AddDigit(s, start, i, base);
      overflow := overflow || !(-LONG_LIMIT <= val * base + dig < LONG_LIMIT);
      i, val := i + 1, Wrap64(val * base + dig);
    }
  }

  lemma WrapNegated(v: int)
    ensures Wrap64(-Wrap64(v)) == Wrap64(-v)
  {
  }

  // strtol, and whether one of its additions leaves the range of long.
  method Strtol(s: string, base0: int) returns (r: int, endptr: nat, ghost overflow: bool)
    requires NulTerminated(s)
    ensures r == Parse(s, base0).val && endptr == Parse(s, base0).end
    ensures overflow == Parse(s, base0).overflow
  {
    hide Prefix, Value, RunEnd, Overflows, Wrap64;
    var neg, val, i, base := false, 0, 0, base0;
    while s[i] == ' ' || s[i] == '\t'
      invariant i < |s| && BlanksEnd(s, 0) == BlanksEnd(s, i)
      decreases |s| - i
    {
      i := i + 1;
    }
    if s[i] == '+' {
      i := i + 1;
    } else if s[i] == '-' {
      i, neg := i + 1, true;
    }
    i, base := SkipPrefix(s, i, base);
    ghost var start := i;
    val, i, overflow := ScanDigits(s, i, base);
    WrapNegated(Value(s[start..i], base));
    r, endptr := if neg then Wrap64(-val) else val, i;
  }

  // ---- printed digits ----

  lemma DigitCharValue(d: nat, base: nat)
    requires d < base <= 16
    ensures DigitOf(DigitChar(d)) == d && DigitIn(DigitChar(d), base)
    ensures DigitChar(d) == '0' <==> d == 0
  {
  }

  lemma QuotientPositive(n: nat, base: nat)
    requires 0 < base <= n
    ensures n / base > 0
  {
  }

  // Quotient and remainder, and what they mean for the digits.
  lemma SplitDigits(n: nat, base: nat) returns (q: nat, r: nat)
    requires 2 <= base <= 16 && n >= base
    ensures n == q * base + r && r < base && 0 < q < n
    ensures Digits(n, base) == Digits(q, base) + [DigitChar(r)]
  {
    hide DigitChar;
    q, r := n / base, n % base;
    QuotientPositive(n, base);
  }

  lemma Euclid(n: nat, base: nat)
    requires base > 0
    ensures n == (n / base) * base + n % base
  {
  }

  // What printnum prints denotes the number.
  lemma {:induction false} DigitsValue(n: nat, base: nat)
    requires 2 <= base <= 16
    ensures Value(Digits(n, base), base) == n
    decreases n
  {
    hide DigitOf, DigitChar;
    if n < base {
      DigitCharValue(n, base);
      ValueLast("", DigitChar(n), base);
    } else {
      var q, r := SplitDigits(n, base);
      DigitCharValue(r, base);
      DigitsValue(q, base);
      ValueLast(Digits(q, base), DigitChar(r), base);
    }
  }

  lemma {:induction false} DigitsAreDigits(n: nat, base: nat)
    requires 2 <= base <= 16
    ensures AllDigits(Digits(n, base), base)
    decreases n
  {
    hide DigitIn, DigitChar;
    if n < base {
      DigitCharValue(n, base);
    } else {
      var q, r := SplitDigits(n, base);
      hide Digits;
      DigitCharValue(r, base);
      DigitsAreDigits(q, base);
    }
  }

  // Letters are printed in lower case.
  lemma {:induction false} DigitsAreLowerCase(n: nat, base: nat, i: nat)
    requires 2 <= base <= 16 && i < |Digits(n, base)|
    ensures var c := Digits(n, base)[i]; '0' <= c <= '9' || 'a' <= c <= 'f'
    decreases n
  {
    if n < base {
    } else {
      var q, r := SplitDigits(n, base);
      if i < |Digits(q, base)| {
        DigitsAreLowerCase(q, base, i);
      }
    }
  }

  // The first digit is 0 for zero only.
  lemma {:induction false} LeadingDigit(n: nat, base: nat)
    requires 2 <= base <= 16
    ensures Digits(n, base)[0] == '0' <==> n == 0
    decreases n
  {
    hide DigitChar;
    if n < base {
      DigitCharValue(n, base);
    } else {
      var q, r := SplitDigits(n, base);
      LeadingDigit(q, base);
    }
  }

  lemma {:induction false} RepeatAt(c: char, n: int, i: nat)
    requires i < n
    ensures |Repeat(c, n)| == n && Repeat(c, n)[i] == c
  {
    if n == 1 {
    } else {
      RepeatAt(c, n - 1, if i > 0 then i - 1 else 0);
    }
  }

  lemma {:induction false} RepeatLength(c: char, n: int)
    ensures |Repeat(c, n)| == if n <= 0 then 0 else n
  {
    if n <= 0 {
    } else {
      RepeatLength(c, n - 1);
    }
  }

  // printnum emits max(width, digits) characters.
  lemma NumberLength(n: nat, base: nat, width: int, padc: char)
    requires 2 <= base <= 16
    ensures |Number(n, base, width, padc)| ==
            if width > |Digits(n, base)| then width else |Digits(n, base)|
  {
    RepeatLength(padc, width - |Digits(n, base)|);
  }

  lemma ZeroDigit(base: nat)
    requires base >= 2
    ensures DigitIn('0', base) && DigitOf('0') == 0
  {
  }

  lemma {:induction false} RepeatSnoc(c: char, m: int)
    requires m > 0
    ensures Repeat(c, m) == Repeat(c, m - 1) + [c]
  {
    if m == 1 {
    } else {
      RepeatSnoc(c, m - 1);
    }
  }

  // Leading zeros change neither the digits nor the value.
  lemma {:induction false} ZerosValue(m: int, d: string, base: nat)
    requires AllDigits(d, base) && base >= 2
    ensures AllDigits(Repeat('0', m) + d, base) && Value(Repeat('0', m) + d, base) == Value(d, base)
    decreases |d|, m
  {
    hide DigitIn, Repeat;
    var z := Repeat('0', m);
    if d != "" {
      var c, e := d[|d| - 1], d[..|d| - 1];
      ZerosValue(m, e, base);
      ValueLast(z + e, c, base);
      ValueLast(e, c, base);
      assert z + d == z + e + [c] && d == e + [c];
    } else if m > 0 {
      var y := Repeat('0', m - 1);
      RepeatSnoc('0', m);
      ZerosValue(m - 1, d, base);
      ValueLast(y, '0', base);
      ZeroDigit(base);
      assert z + d == y + ['0'] && y + d == y;
    } else {
      RepeatNone('0', m);
      assert z + d == d;
    }
  }

  // A run of digits before a NUL ends at the NUL.
  lemma RunEndIs(s: string, i: nat, j: nat, base: int)
    requires NulTerminated(s) && i <= j < |s| && AllDigits(s[i..j], base) && !DigitIn(s[j], base)
    ensures RunEnd(s, i, base) == j
  {
  }

  lemma {:induction false} BlanksEndIs(s: string, i: nat, j: nat)
    requires NulTerminated(s) && i <= j < |s| && s[j] != ' ' && s[j] != '\t'
    requires forall x :: i <= x < j ==> s[x] == ' ' || s[x] == '\t'
    ensures BlanksEnd(s, i) == j
    decreases j - i
  {
    if i == j {
    } else {
      BlanksEndIs(s, i + 1, j);
    }
  }

  lemma BasePositive(c: char, base: int)
    requires DigitIn(c, base)
    ensures base > 0
  {
  }

  lemma Grows(v: int, base: int)
    requires v >= 0 && base >= 1
    ensures v * base >= v
  {
  }

  // Adding up digits overflows exactly when the number itself is out of range: no value on
  // the way exceeds the last one.
  lemma {:induction false} OverflowsExactly(d: string, base: int)
    requires AllDigits(d, base)
    ensures Overflows(d, base) <==> Value(d, base) >= LONG_LIMIT
  {
    hide DigitIn, DigitOf, Value;
    if d == "" {
      NoDigits(d, base);
    } else {
      var c, e := d[|d| - 1], d[..|d| - 1];
      assert d == e + [c] && DigitIn(d[0], base);
      OverflowsExactly(e, base);
      OverflowsLast(e, c, base);
      ValueNonNegative(e, base);
      ValueLast(e, c, base);
      BasePositive(d[0], base);
      Grows(Value(e, base), base);
    }
  }

  // ---- the round trip ----

  // The index behind an optional sign.
  function SignEnd(s: string, b: nat): nat
    requires b < |s|
  {
    if s[b] == '-' || s[b] == '+' then b + 1 else b
  }

  // Parsing a run of digits [i, e) behind blanks and a sign.
  lemma ParseRun(s: string, b: nat, i: nat, e: nat, base: nat)
    requires NulTerminated(s) && b < |s| && BlanksEnd(s, 0) == b
    requires i == SignEnd(s, b) && i <= e < |s| && base in {10, 16}
    requires AllDigits(s[i..e], base) && !DigitIn(s[e], base) && s[e] != 'x'
    ensures var val := Value(s[i..e], base);
            Parse(s, base) == Parsed(Wrap64(if s[b] == '-' then -val else val), e, val >= LONG_LIMIT)
  {
    hide Value, BlanksEnd, RunEnd, Overflows, Wrap64;
    RunEndIs(s, i, e, base);
    OverflowsExactly(s[i..e], base);
    if i < e {
      assert DigitIn(s[i..e][0], base);
      assert i + 1 < e ==> DigitIn(s[i..e][1], base);
    }
  }

  // pads characters of padding, then the digits of n, then the NUL.
  predicate Padded(s: string, from: nat, pads: nat, padc: char, n: nat, base: nat)
    requires 2 <= base <= 16
  {
    |s| == from + pads + |Digits(n, base)| + 1 && s[|s| - 1] == '\0' &&
    (forall i :: from <= i < from + pads ==> s[i] == padc) &&
    s[from + pads..|s| - 1] == Digits(n, base)
  }

  lemma NumberPadded(pre: string, n: nat, base: nat, width: int, padc: char)
    requires 2 <= base <= 16
    ensures var len := |Digits(n, base)|;
            Padded(pre + Number(n, base, width, padc) + "\0", |pre|,
                   if width > len then width - len else 0, padc, n, base)
  {
    hide Digits;
    var pads := width - |Digits(n, base)|;
    RepeatLength(padc, pads);
    var r := Repeat(padc, pads);
    var s := pre + Number(n, base, width, padc) + "\0";
    assert s == pre + r + Digits(n, base) + "\0";
    forall i | |pre| <= i < |pre| + |r|
      ensures s[i] == padc
    {
      RepeatAt(padc, pads, i - |pre|);
    }
  }

  lemma FirstDigit(s: string, i: nat, n: nat, base: nat)
    requires base in {10, 16} && i < |s| - 1 && s[i..|s| - 1] == Digits(n, base)
    ensures DigitIn(s[i], base) && AllDigits(s[i..|s| - 1], base) && Value(s[i..|s| - 1], base) == n
    ensures s[i] !in " \t+-"
  {
    DigitsAreDigits(n, base);
    DigitsValue(n, base);
    assert s[i] == s[i..|s| - 1][0];
  }

  // When strtol reads back an unsigned number that was printed with some padding.
  predicate UnsignedReadable(n: nat, base: nat, width: int, padc: char)
    requires 2 <= base <= 16
  {
    var len := |Digits(n, base)|;
    width <= len || padc in {' ', '0'} || (width == len + 1 && n == 0)
  }

  lemma BlankPadded(s: string, pads: nat, padc: char, n: nat, base: nat)
    requires base in {10, 16} && Padded(s, 0, pads, padc, n, base) && (pads == 0 || padc == ' ')
    ensures Parse(s, base) == Parsed(Wrap64(n), |s| - 1, n >= LONG_LIMIT)
  {
    hide Digits, Value, RunEnd, BlanksEnd, Parse;
    FirstDigit(s, pads, n, base);
    BlanksEndIs(s, 0, pads);
    ParseRun(s, pads, pads, |s| - 1, base);
  }

  lemma ZeroPadded(s: string, from: nat, pads: nat, n: nat, base: nat)
    requires base in {10, 16} && Padded(s, from, pads, '0', n, base)
    ensures AllDigits(s[from..|s| - 1], base) && Value(s[from..|s| - 1], base) == n
  {
    hide Digits, Value;
    DigitsAreDigits(n, base);
    DigitsValue(n, base);
    ZerosValue(pads, Digits(n, base), base);
    var z := Repeat('0', pads);
    RepeatLength('0', pads);
    forall i | 0 <= i < pads
      ensures z[i] == '0'
    {
      RepeatAt('0', pads, i);
    }
    assert s[from..from + pads] == z;
    assert s[from..|s| - 1] == s[from..from + pads] + s[from + pads..|s| - 1];
  }

  lemma ZerosParse(s: string, pads: nat, n: nat, base: nat)
    requires base in {10, 16} && pads > 0 && Padded(s, 0, pads, '0', n, base)
    ensures Parse(s, base) == Parsed(Wrap64(n), |s| - 1, n >= LONG_LIMIT)
  {
    hide Digits, Value, RunEnd, BlanksEnd, Parse;
    ZeroPadded(s, 0, pads, n, base);
    BlanksEndIs(s, 0, 0);
    ParseRun(s, 0, 0, |s| - 1, base);
  }

  // A '-' in front of the digits is a sign, a second one ends the number.
  lemma DashPadded(s: string, pads: nat, n: nat, base: nat)
    requires base in {10, 16} && pads > 0 && Padded(s, 0, pads, '-', n, base)
    ensures Parse(s, base) ==
            if pads == 1 then Parsed(Wrap64(-(n as int)), |s| - 1, n >= LONG_LIMIT) else Parsed(0, 1, false)
  {
    hide Digits, RunEnd, BlanksEnd, Parse;
    BlanksEndIs(s, 0, 0);
    if pads == 1 {
      FirstDigit(s, 1, n, base);
      ParseRun(s, 0, 1, |s| - 1, base);
    } else {
      NoDigits(s[1..1], base);
      ParseRun(s, 0, 1, 1, base);
    }
  }

  // %u and %x against strtol in the same base, for the three paddings there are: strtol
  // returns the number and stops at the NUL without overflow exactly when no '-' padding is in
  // the way and the number is below 2^63. From 2^63 on it overflows and returns a negative.
  lemma UnsignedRoundTrip(n: nat, base: nat, width: int, padc: char)
    requires base in {10, 16} && padc in {' ', '0', '-'}
    ensures var t := Number(n, base, width, padc);
            (Parse(t + "\0", base) == Parsed(n, |t|, false) <==>
             UnsignedReadable(n, base, width, padc) && n < LONG_LIMIT) &&
            (UnsignedReadable(n, base, width, padc) ==>
             Parse(t + "\0", base) == Parsed(Wrap64(n), |t|, n >= LONG_LIMIT))
  {
    hide Digits, Value, RunEnd, BlanksEnd, Number, Padded, Parse;
    var t := Number(n, base, width, padc);
    var s := t + "\0";
    NumberPadded("", n, base, width, padc);
    assert "" + t + "\0" == s;
    NumberLength(n, base, width, padc);
    var pads := |t| - |Digits(n, base)|;
    if pads == 0 || padc == ' ' {
      BlankPadded(s, pads, padc, n, base);
    } else if padc == '0' {
      ZerosParse(s, pads, n, base);
    } else {
      DashPadded(s, pads, n, base);
    }
  }

  // %d: the same with the sign, which is printed before the padding.
  predicate SignedReadable(n: int, width: int, padc: char) {
    if n >= 0 then UnsignedReadable(n, 10, width, padc)
    else width <= |Digits(-n, 10)| || padc == '0'
  }

  lemma NegativeDigits(s: string, pads: nat, padc: char, n: nat)
    requires Padded(s, 1, pads, padc, n, 10) && (pads == 0 || padc == '0')
    ensures AllDigits(s[1..|s| - 1], 10) && Value(s[1..|s| - 1], 10) == n
  {
    hide Digits, Value;
    if pads == 0 {
      FirstDigit(s, 1, n, 10);
    } else {
      ZeroPadded(s, 1, pads, n, 10);
    }
  }

  lemma NegativeParse(s: string, pads: nat, padc: char, n: nat)
    requires Padded(s, 1, pads, padc, n, 10) && s[0] == '-' && padc in {' ', '0', '-'}
    ensures Parse(s, 10) ==
            if pads == 0 || padc == '0' then Parsed(Wrap64(-(n as int)), |s| - 1, n >= LONG_LIMIT)
            else Parsed(0, 1, false)
  {
    hide Digits, RunEnd, BlanksEnd, Value, Parse;
    BlanksEndIs(s, 0, 0);
    if pads == 0 || padc == '0' {
      NegativeDigits(s, pads, padc, n);
      ParseRun(s, 0, 1, |s| - 1, 10);
    } else {
      assert s[1] == padc;
      NoDigits(s[1..1], 10);
      ParseRun(s, 0, 1, 1, 10);
    }
  }

  // The magnitude is read before the sign is applied, so -2^63 comes back through an overflow.
  lemma SignedRoundTrip(n: int, width: int, padc: char)
    requires padc in {' ', '0', '-'}
    ensures var t := Signed(n, width, padc);
            (Parse(t + "\0", 10) == Parsed(n, |t|, false) <==>
             SignedReadable(n, width, padc) && Abs(n) < LONG_LIMIT) &&
            (SignedReadable(n, width, padc) ==>
             Parse(t + "\0", 10) == Parsed(Wrap64(n), |t|, Abs(n) >= LONG_LIMIT))
  {
    hide Digits, Parse, Number, Padded;
    if n >= 0 {
      UnsignedRoundTrip(n, 10, width, padc);
    } else {
      var t := Signed(n, width, padc);
      var s := t + "\0";
      NumberPadded("-", -n, 10, width, padc);
      assert "-" + Number(-n, 10, width, padc) + "\0" == s;
      NumberLength(-n, 10, width, padc);
      NegativeParse(s, |t| - 1 - |Digits(-n, 10)|, padc, -n);
    }
  }

  // %p: the prefix is printed before the padding.
  lemma PointerRoundTrip(n: nat, width: int, padc: char)
    requires padc in {' ', '0', '-'}
    ensures var t := "0x" + Number(n, 16, width, padc);
            var readable := width <= |Digits(n, 16)| || padc == '0';
            (Parse(t + "\0", 16) == Parsed(n, |t|, false) <==> readable && n < LONG_LIMIT) &&
            (readable ==> Parse(t + "\0", 16) == Parsed(Wrap64(n), |t|, n >= LONG_LIMIT))
  {
    hide Digits, RunEnd, BlanksEnd, Value, Overflows, Wrap64;
    var t := "0x" + Number(n, 16, width, padc);
    var s := t + "\0";
    NumberPadded("0x", n, 16, width, padc);
    NumberLength(n, 16, width, padc);
    assert |t| == 2 + |Number(n, 16, width, padc)|;
    var pads := |t| - 2 - |Digits(n, 16)|;
    FirstDigit(s, 2 + pads, n, 16);
    BlanksEndIs(s, 0, 0);
    assert Prefix(s, 0, 16) == Start(2, 16);
    if pads == 0 || padc == '0' {
      if pads > 0 {
        ZeroPadded(s, 2, pads, n, 16);
      }
      RunEndIs(s, 2, |t|, 16);
      OverflowsExactly(s[2..|t|], 16);
    } else {
      assert s[2] == padc;
      RunEndIs(s, 2, 2, 16);
    }
  }

  lemma NulIsNoDigit(base: int)
    ensures !DigitIn('\0', base)
  {
  }

  // Digits up to the NUL.
  lemma PrintedRun(pre: string, n: nat, base: nat)
    requires 2 <= base <= 16
    ensures var s := pre + Digits(n, base) + "\0";
            |s| == |pre| + |Digits(n, base)| + 1 && NulTerminated(s) && s[..|pre|] == pre &&
            s[|pre|..|s| - 1] == Digits(n, base) && s[|pre|] == Digits(n, base)[0] && s[|pre|] !in " \t+-x" &&
            AllDigits(s[|pre|..|s| - 1], base) && Value(s[|pre|..|s| - 1], base) == n && !DigitIn(s[|s| - 1], base)
  {
    hide Digits, Value;
    DigitsAreDigits(n, base);
    DigitsValue(n, base);
    var s := pre + Digits(n, base) + "\0";
    assert s[|pre|..|s| - 1] == Digits(n, base);
    assert DigitIn(Digits(n, base)[0], base);
  }

  // Blanks and tabs are skipped, and one '+' behind them.
  lemma BlanksAndPlus(blanks: string, n: nat, base: nat)
    requires base in {10, 16} && forall i :: 0 <= i < |blanks| ==> blanks[i] == ' ' || blanks[i] == '\t'
    ensures var t := blanks + "+" + Digits(n, base);
            Parse(t + "\0", base) == Parsed(Wrap64(n), |t|, n >= LONG_LIMIT)
  {
    hide Digits, Value, Parse, AllDigits, DigitIn, Wrap64, BlanksEnd;
    var pre := blanks + "+";
    PrintedRun(pre, n, base);
    var s := pre + Digits(n, base) + "\0";
    assert s[..|pre|][|blanks|] == '+' && s[|blanks|] == '+';
    forall x | 0 <= x < |blanks|
      ensures s[x] == ' ' || s[x] == '\t'
    {
      assert s[..|pre|][x] == blanks[x];
    }
    BlanksEndIs(s, 0, |blanks|);
    NulIsNoDigit(base);
    ParseRun(s, |blanks|, |pre|, |s| - 1, base);
  }

  // ---- base prefixes and letters ----

  // Letters go on behind 9 up to base 36, in either case, and nothing else is a digit.
  lemma LettersCount(d: nat)
    requires d < 26
    ensures DigitOf(('a' as int + d) as char) == DigitOf(('A' as int + d) as char) == 10 + d
    ensures forall c: char :: DigitIn(c, 36) <==> '0' <= c <= '9' || 'a' <= c <= 'z' || 'A' <= c <= 'Z'
  {
  }

  // Parsing a run of digits [i, e) behind a base prefix, without blanks or sign.
  lemma ParsePrefixed(s: string, base: int, i: nat, b: nat, e: nat)
    requires NulTerminated(s) && s[0] !in {' ', '\t', '+', '-'}
    requires Prefix(s, 0, base) == Start(i, b) && i <= e < |s|
    requires AllDigits(s[i..e], b) && !DigitIn(s[e], b)
    ensures Parse(s, base) == Parsed(Wrap64(Value(s[i..e], b)), e, Value(s[i..e], b) >= LONG_LIMIT)
  {
    hide Value, RunEnd, Overflows, Wrap64, Prefix;
    RunEndIs(s, i, e, b);
    OverflowsExactly(s[i..e], b);
  }

  // "0x" is skipped in base 16 and chooses it in base 0.
  lemma HexPrefix(n: nat, base: int)
    requires base in {0, 16}
    ensures var t := "0x" + Digits(n, 16);
            Parse(t + "\0", base) == Parsed(Wrap64(n), |t|, n >= LONG_LIMIT)
  {
    hide Digits, Value, Parse, AllDigits, DigitIn, Wrap64;
    PrintedRun("0x", n, 16);
    var s := "0x" + Digits(n, 16) + "\0";
    assert s[0] == s[..2][0] && s[1] == s[..2][1];
    ParsePrefixed(s, base, 2, 16, |s| - 1);
  }

  // A leading 0 alone chooses base 8 in base 0.
  lemma OctalPrefix(n: nat)
    ensures var t := "0" + Digits(n, 8);
            Parse(t + "\0", 0) == Parsed(Wrap64(n), |t|, n >= LONG_LIMIT)
  {
    hide Digits, Value, Parse, AllDigits, DigitIn, Wrap64;
    PrintedRun("0", n, 8);
    var s := "0" + Digits(n, 8) + "\0";
    assert s[0] == s[..1][0];
    ParsePrefixed(s, 0, 1, 8, |s| - 1);
  }

  // Without a leading 0, base 0 is decimal.
  lemma DecimalByDefault(n: nat)
    requires n > 0
    ensures var t := Digits(n, 10);
            Parse(t + "\0", 0) == Parsed(Wrap64(n), |t|, n >= LONG_LIMIT)
  {
    hide Digits, Value, Parse, AllDigits, DigitIn, Wrap64;
    PrintedRun("", n, 10);
    LeadingDigit(n, 10);
    var s := Digits(n, 10) + "\0";
    assert "" + Digits(n, 10) + "\0" == s;
    ParsePrefixed(s, 0, 0, 10, |s| - 1);
  }

  function UpperCase(s: string): (u: string)
    ensures |u| == |s|
  {
    if s == "" then "" else
      UpperCase(s[..|s| - 1]) +
      [if 'a' <= s[|s| - 1] <= 'z' then (s[|s| - 1] as int - 'a' as int + 'A' as int) as char else s[|s| - 1]]
  }

  lemma UpperCaseDigit(c: char, base: int)
    requires DigitIn(c, base)
    ensures 'a' <= c <= 'z' ==> var u := (c as int - 'a' as int + 'A' as int) as char;
            DigitOf(u) == DigitOf(c) && DigitIn(u, base)
  {
  }

  // Letters count the same in either case.
  lemma {:induction false} UpperCaseValue(s: string, base: int)
    requires AllDigits(s, base)
    ensures AllDigits(UpperCase(s), base) && Value(UpperCase(s), base) == Value(s, base)
  {
    if s == "" {
    } else {
      var e, c := s[..|s| - 1], s[|s| - 1];
      UpperCaseValue(e, base);
      ValueLast(UpperCase(e), UpperCase(s)[|s| - 1], base);
      UpperCaseDigit(c, base);
      DigitsLast(UpperCase(e), UpperCase(s)[|s| - 1], base);
    }
  }

  lemma UpperStarts(t: string)
    requires t != "" && AllDigits(t, 16)
    ensures var s := t + "\0"; s[0] !in {' ', '\t', '+', '-'} && Prefix(s, 0, 16) == Start(0, 16) && !DigitIn('\0', 16)
  {
    assert DigitIn(t[0], 16);
    assert |t| > 1 ==> DigitIn(t[1], 16);
  }

  // Numbers in upper case are read like those printed.
  lemma UpperCaseParse(n: nat)
    ensures var t := UpperCase(Digits(n, 16));
            Parse(t + "\0", 16) == Parsed(Wrap64(n), |t|, n >= LONG_LIMIT)
  {
    hide Digits, Value, Parse, AllDigits, DigitIn, Wrap64, UpperCase;
    PrintedRun("", n, 16);
    var t := UpperCase(Digits(n, 16));
    DigitsAreDigits(n, 16);
    DigitsValue(n, 16);
    UpperCaseValue(Digits(n, 16), 16);
    assert (t + "\0")[0..|t|] == t;
    UpperStarts(t);
    ParsePrefixed(t + "\0", 16, 0, 16, |t|);
  }
}
