/**
 The timestamp of kernel/printk.c: the split of a counter into seconds and microseconds,
 and what "[%lld.%06lld] " prints of it.
 */
module Timestamp {
  import opened FormatSpec
  import opened FormatTheorems
  import opened NumberParsing
  import opened Words

  const MICROS: nat := 1_000_000

  // counts / freq and (counts * 1000000 / freq) % 1000000 in 64-bit arithmetic.
  function IntegerPart(counts: U64, freq: U64): U64
    requires freq > 0
  {
    counts / freq
  }

  function DecimalPart(counts: U64, freq: U64): (d: U64)
    requires freq > 0
    ensures d < MICROS
  {
    ((counts * MICROS % WORD_LIMIT) / freq) % MICROS
  }

  // The part of counts * 1000000 that 64 bits keep, and what they lose of it.
  function Kept(counts: U64): U64 {
    counts * MICROS % WORD_LIMIT
  }

  function Lost(counts: U64): nat {
    counts * MICROS - Kept(counts)
  }

  predicate Exact(counts: U64, freq: U64)
    requires freq > 0
  {
    IntegerPart(counts, freq) * MICROS + DecimalPart(counts, freq) == counts * MICROS / freq
  }

  lemma Distribute(q: nat, freq: nat, r: nat, m: nat, u: nat, v: nat)
    requires r * m == u * freq + v
    ensures (q * freq + r) * m == (q * m + u) * freq + v
  {
  }

  lemma MultiplesApart(a: nat, b: nat, d: nat)
    ensures a < b ==> a * d + d <= b * d
  {
    if a < b {
      assert (a + 1) * d <= b * d;
    }
  }

  lemma QuotientIs(n: nat, d: nat, q: nat, r: nat)
    requires n == q * d + r && r < d
    ensures n / d == q && n % d == r
  {
    Euclid(n, d);
    MultiplesApart(n / d, q, d);
    MultiplesApart(q, n / d, d);
  }

  lemma QuotientBelow(n: nat, d: nat, m: nat)
    requires d > 0 && n < d * m
    ensures n / d < m
  {
  }

  // Without the wrap the two parts would be exact.
  lemma TrueSplit(counts: U64, freq: U64)
    requires freq > 0
    ensures counts * MICROS / freq == IntegerPart(counts, freq) * MICROS + counts * MICROS / freq % MICROS
  {
    var q, r := counts / freq, counts % freq;
    Euclid(counts, freq);
    var u, v := r * MICROS / freq, r * MICROS % freq;
    Euclid(r * MICROS, freq);
    Distribute(q, freq, r, MICROS, u, v);
    QuotientIs(counts * MICROS, freq, q * MICROS + u, v);
    QuotientBelow(r * MICROS, freq, MICROS);
    QuotientIs(q * MICROS + u, MICROS, q, u);
  }

  // What a adds to the quotient of b, carry included.
  function Added(a: nat, b: nat, d: nat): int
    requires d > 0
  {
    a / d + (a % d + b % d) / d
  }

  lemma NotNegative(a: nat, d: nat)
    requires d > 0
    ensures a / d >= 0
  {
  }

  lemma SumOfProducts(q: nat, p: nat, c: nat, d: nat)
    ensures (q + p + c) * d == q * d + p * d + c * d
  {
  }

  lemma SumOfQuotients(a: nat, b: nat, q: nat, p: nat, r: nat, t: nat, d: nat)
    requires d > 0 && a == q * d + r && b == p * d + t
    ensures (a + b) / d == p + (q + (r + t) / d)
  {
    var c, e := (r + t) / d, (r + t) % d;
    Euclid(r + t, d);
    SumOfProducts(q, p, c, d);
    QuotientIs(a + b, d, q + p + c, e);
  }

  lemma QuotientOfSum(a: nat, b: nat, d: nat)
    requires d > 0
    ensures (a + b) / d == b / d + Added(a, b, d) && Added(a, b, d) >= 0
  {
    NotNegative(a, d);
    NotNegative(a % d + b % d, d);
    SumOfQuotients(a, b, a / d, b / d, a % d, b % d, d);
  }

  // What the lost part would add to the quotient.
  function LostQuotient(counts: U64, freq: U64): int
    requires freq > 0
  {
    Added(Lost(counts), Kept(counts), freq)
  }

  lemma SameMicros(b: nat, n: nat)
    requires b <= n
    ensures b % MICROS == n % MICROS <==> (n - b) % MICROS == 0
  {
  }

  lemma SplitWithLoss(lost: nat, kept: nat, n: nat, seconds: nat, freq: nat)
    requires freq > 0 && n == (lost + kept) / freq && n == seconds * MICROS + n % MICROS
    ensures seconds * MICROS + kept / freq % MICROS == n <==> Added(lost, kept, freq) % MICROS == 0
  {
    hide Added;
    QuotientOfSum(lost, kept, freq);
    SameMicros(kept / freq, n);
  }

  // The two parts together are the time in whole microseconds exactly when the quotient that
  // the wrap loses is a whole number of seconds.
  lemma SplitExactlyWhen(counts: U64, freq: U64)
    requires freq > 0
    ensures Exact(counts, freq) <==> LostQuotient(counts, freq) % MICROS == 0
  {
    TrueSplit(counts, freq);
    SplitWithLoss(Lost(counts), Kept(counts), counts * MICROS / freq, IntegerPart(counts, freq), freq);
  }

  lemma NothingAdded(b: nat, d: nat)
    requires d > 0
    ensures Added(0, b, d) == 0
  {
  }

  // Without a wrap the split is exact.
  lemma SplitIsExact(counts: U64, freq: U64)
    requires freq > 0 && counts * MICROS < WORD_LIMIT
    ensures Exact(counts, freq)
  {
    hide Exact, Added;
    SplitExactlyWhen(counts, freq);
    NothingAdded(Kept(counts), freq);
  }

  lemma NotMultiple(q: int, n: int)
    requires q <= n <= q + 1 && q % MICROS !in {0, MICROS - 1}
    ensures n % MICROS != 0
  {
  }

  lemma CarryAtMostOne(a: nat, b: nat, d: nat)
    requires d > 0
    ensures a / d <= Added(a, b, d) <= a / d + 1
  {
  }

  // Throughout the first wrap the time shown is wrong, at every frequency but those few that
  // divide 2^64 into just about a whole number of seconds.
  lemma FirstWrapIsWrong(counts: U64, freq: U64)
    requires freq > 0 && WORD_LIMIT <= counts * MICROS < 2 * WORD_LIMIT
    requires WORD_LIMIT / freq % MICROS !in {0, MICROS - 1}
    ensures !Exact(counts, freq)
  {
    hide Exact, Added;
    SplitExactlyWhen(counts, freq);
    QuotientIs(counts * MICROS, WORD_LIMIT, 1, counts * MICROS - WORD_LIMIT);
    CarryAtMostOne(WORD_LIMIT, Kept(counts), freq);
    NotMultiple(WORD_LIMIT / freq, LostQuotient(counts, freq));
  }

  // 19.2 MHz and 62.5 MHz are such frequencies; at the first the wrap comes after eleven days.
  lemma FirstWrapAtUsualFrequencies(counts: U64, freq: U64)
    requires 18_446_744_073_710 <= counts <= 36_893_488_147_419 && freq in {19_200_000, 62_500_000}
    ensures !Exact(counts, freq)
  {
    FirstWrapIsWrong(counts, freq);
  }

  const STAMP: string := "[%lld.%06lld] \0"

  const SECONDS := Directive(false, ' ', Absent, Absent, 2, 'd')
  const FRACTION := Directive(false, '0', Fixed(6), Absent, 2, 'd')

  lemma StampParts()
    ensures Render(SECONDS) == "%lld" && Render(FRACTION) == "%06lld"
  {
  }

  lemma LiteralFirst(c: char, f: string, k: nat, args: Args)
    requires Terminated(f) && c != '%' && c != '\0'
    ensures Terminated([c] + f) && Format([c] + f, 0, k, args) == [c] + Format(f, 0, k, args)
  {
    hide ParseEscape, Convert;
    FormatShift([c] + f, 1, f, 0, k, args);
  }

  lemma TailPrints(args: Args)
    ensures Terminated("] \0") && Format("] \0", 0, 2, args) == "] "
  {
  }

  // What the format prints of any two argument words.
  lemma StampPrints(args: Args)
    ensures Format(STAMP, 0, 0, args) ==
            "[" + NumberText(SECONDS, -1, args.word(0)) + "." + NumberText(FRACTION, 6, args.word(1)) + "] "
  {
    hide Convert, NumberText, Format, Render;
    StampParts();
    var tail := "] \0";
    var g := Render(FRACTION) + tail;
    var h := ['.'] + g;
    var f := Render(SECONDS) + h;
    TailPrints(args);
    NumberPrints(FRACTION, tail, 1, args);
    LiteralFirst('.', g, 1, args);
    NumberPrints(SECONDS, h, 0, args);
    LiteralFirst('[', f, 0, args);
    assert STAMP == ['['] + f;
  }

  lemma SecondsText(q: U64)
    requires q < LONG_LIMIT
    ensures AllDigits(NumberText(SECONDS, -1, q), 10) && Value(NumberText(SECONDS, -1, q), 10) == q
  {
    hide Digits, Value;
    DigitsAreDigits(q, 10);
    DigitsValue(q, 10);
    RepeatLength(' ', -1 - |Digits(q, 10)|);
    assert NumberText(SECONDS, -1, q) == Digits(q, 10);
  }

  function Pow10(n: nat): nat {
    if n == 0 then 1 else 10 * Pow10(n - 1)
  }

  lemma {:induction false} DigitsAtMost(u: nat, n: nat)
    requires u < Pow10(n) && n > 0
    ensures |Digits(u, 10)| <= n
    decreases n
  {
    if u < 10 {
    } else {
      DigitsAtMost(u / 10, n - 1);
    }
  }

  lemma MicrosText(u: U64)
    requires u < MICROS
    ensures var s := NumberText(FRACTION, 6, u);
            AllDigits(s, 10) && |s| == 6 && Value(s, 10) == u
  {
    hide Value, Repeat;
    DigitsAreDigits(u, 10);
    DigitsValue(u, 10);
    DigitsAtMost(u, 6);
    NumberLength(u, 10, 6, '0');
    assert NumberText(FRACTION, 6, u) == Number(u, 10, 6, '0');
    ZerosValue(6 - |Digits(u, 10)|, Digits(u, 10), 10);
  }

  // The printed timestamp: the seconds in decimal, a point, and exactly six digits; together
  // they denote the time in microseconds exactly when the quotient that the wrap loses is a
  // whole number of seconds, and so whenever nothing wraps.
  lemma StampShowsTime(counts: U64, freq: U64, args: Args)
    requires freq > 0 && IntegerPart(counts, freq) < LONG_LIMIT
    requires args.word(0) == IntegerPart(counts, freq) && args.word(1) == DecimalPart(counts, freq)
    ensures exists seconds: string, micros: string ::
              Format(STAMP, 0, 0, args) == "[" + seconds + "." + micros + "] " &&
              AllDigits(seconds, 10) && AllDigits(micros, 10) && |micros| == 6 &&
              (Value(seconds, 10) * MICROS + Value(micros, 10) == counts * MICROS / freq <==>
               LostQuotient(counts, freq) % MICROS == 0)
  {
    hide Format, Value, Digits, LostQuotient;
    StampPrints(args);
    SplitExactlyWhen(counts, freq);
    var q, u := IntegerPart(counts, freq), DecimalPart(counts, freq);
    var seconds, micros := NumberText(SECONDS, -1, q), NumberText(FRACTION, 6, u);
    SecondsText(q);
    MicrosText(u);
    assert AllDigits(seconds, 10) && AllDigits(micros, 10);
  }
}
