/** The pieces of Python's text formatting that `src/utils.py` relies on:
    `str()` of a non-negative integer, the `:.2f` format of a size in MiB,
    the `%Y%m%d_%H%M%S` pattern of `datetime.strftime`, and `str.lower()`
    (restricted to ASCII letters). */
module PyFormat {
  import opened Wrappers

  // ---------------------------------------------------------------------
  // Decimal digits
  // ---------------------------------------------------------------------

  predicate IsDigit(c: char) {
    '0' <= c <= '9'
  }

  predicate AllDigits(s: string) {
    forall i | 0 <= i < |s| :: IsDigit(s[i])
  }

  function DigitValue(c: char): (d: nat)
    requires IsDigit(c)
    ensures d < 10
  {
    c as int - '0' as int
  }

  function DigitChar(d: nat): (c: char)
    requires d < 10
    ensures IsDigit(c) && DigitValue(c) == d
  {
    ('0' as int + d) as char
  }

  function Pow10(w: nat): (p: nat)
    ensures p >= 1
  {
    if w == 0 then 1 else 10 * Pow10(w - 1)
  }

  /** The number a string of decimal digits denotes (leading zeros allowed). */
  function ParseDigits(s: string): (n: nat)
    requires AllDigits(s)
    ensures n < Pow10(|s|)
  {
    if s == [] then 0
    else
      var init := s[..|s| - 1];
      assert AllDigits(init) by {
        forall i | 0 <= i < |init| ensures IsDigit(init[i]) { assert init[i] == s[i]; }
      }
      10 * ParseDigits(init) + DigitValue(s[|s| - 1])
  }

  /** `str(n)` for a non-negative int: the shortest decimal spelling. */
  function Decimal(n: nat): (s: string)
    ensures |s| >= 1 && AllDigits(s)
    ensures |s| > 1 ==> s[0] != '0'
  {
    if n < 10 then [DigitChar(n)] else Decimal(n / 10) + [DigitChar(n % 10)]
  }

  /** `n` as exactly `w` digits, zero-padded on the left, as strftime writes
      `%Y` (w = 4) and `%m`, `%d`, `%H`, `%M`, `%S` (w = 2). */
  function Padded(n: nat, w: nat): (s: string)
    requires n < Pow10(w)
    ensures |s| == w && AllDigits(s)
  {
    if w == 0 then ""
    else
      assert n / 10 < Pow10(w - 1);
      Padded(n / 10, w - 1) + [DigitChar(n % 10)]
  }

  lemma {:induction false} ParseDecimal(n: nat)
    ensures ParseDigits(Decimal(n)) == n
  {
    var s := Decimal(n);
    if n >= 10 {
      assert s[..|s| - 1] == Decimal(n / 10);
      ParseDecimal(n / 10);
    }
  }

  lemma {:induction false} ParsePadded(n: nat, w: nat)
    requires n < Pow10(w)
    ensures ParseDigits(Padded(n, w)) == n
  {
    if w > 0 {
      var s := Padded(n, w);
      assert s[..|s| - 1] == Padded(n / 10, w - 1);
      ParsePadded(n / 10, w - 1);
    }
  }

  /** Two numbers padded to the same width give the same text only if they are equal. */
  lemma {:induction false} PaddedInjective(m: nat, n: nat, w: nat)
    requires m < Pow10(w) && n < Pow10(w)
    requires Padded(m, w) == Padded(n, w)
    ensures m == n
  {
    ParsePadded(m, w);
    ParsePadded(n, w);
  }

  // ---------------------------------------------------------------------
  // The `:.2f` format of `size / (1024 * 1024)`
  // ---------------------------------------------------------------------

  function Abs(x: int): nat {
    if x < 0 then -x else x
  }

  /** The integer nearest to `n / d`, ties going to the even neighbour:
      Python's `:.2f` rounds the exact binary value this way. */
  function RoundHalfEven(n: nat, d: nat): (q: nat)
    requires d > 0
    ensures 2 * Abs(q * d - n) <= d
    ensures 2 * Abs(q * d - n) == d ==> q % 2 == 0
  {
    var lo, rem := n / d, n % d;
    assert n == lo * d + rem;
    if 2 * rem < d then
      lo
    else if 2 * rem > d || lo % 2 == 1 then
      assert (lo + 1) * d - n == d - rem;
      lo + 1
    else
      lo
  }

  /** Fixed-point text with two decimals of `cents / 100`, e.g. 12345 as "123.45". */
  function Fixed2(cents: nat): (s: string)
    ensures |s| >= 4 && s[|s| - 3] == '.'
    ensures |s| > 4 ==> s[0] != '0'
  {
    Decimal(cents / 100) + "." + Padded(cents % 100, 2)
  }

  /** Reads back the text `Fixed2` writes: digits, a point, two digits. */
  function ParseFixed2(s: string): (r: Option<nat>)
  {
    if |s| >= 4 && s[|s| - 3] == '.' && AllDigits(s[..|s| - 3]) && AllDigits(s[|s| - 2..])
    then Some(100 * ParseDigits(s[..|s| - 3]) + ParseDigits(s[|s| - 2..]))
    else None
  }

  lemma {:induction false} Fixed2RoundTrip(cents: nat)
    ensures ParseFixed2(Fixed2(cents)) == Some(cents)
  {
    var s := Fixed2(cents);
    var ip, fp := Decimal(cents / 100), Padded(cents % 100, 2);
    assert s[..|s| - 3] == ip;
    assert s[|s| - 2..] == fp;
    ParseDecimal(cents / 100);
    ParsePadded(cents % 100, 2);
  }

  /** The `:.2f` text of `bytes / 2**20` (a size in MiB). The division is by a
      power of two, so the quotient is the exact binary value for every size
      below 2**53 bytes, and rounding to hundredths is round-half-even. */
  function MibText(bytes: nat): (s: string)
    ensures ParseFixed2(s).Some?
  {
    Fixed2RoundTrip(RoundHalfEven(100 * bytes, 1024 * 1024));
    Fixed2(RoundHalfEven(100 * bytes, 1024 * 1024))
  }

  /** The printed MiB value is within half a hundredth of the exact one. */
  lemma {:induction false} MibTextAccurate(bytes: nat)
    ensures ParseFixed2(MibText(bytes)).Some?
    ensures var cents := ParseFixed2(MibText(bytes)).value;
      2 * Abs(cents * (1024 * 1024) - 100 * bytes) <= 1024 * 1024
  {
    Fixed2RoundTrip(RoundHalfEven(100 * bytes, 1024 * 1024));
  }

  // ---------------------------------------------------------------------
  // `strftime("%Y%m%d_%H%M%S")`
  // ---------------------------------------------------------------------

  /** A local clock reading, as `datetime.now()` returns it, to the second. */
  datatype DateTime = DateTime(year: nat, month: nat, day: nat, hour: nat, minute: nat, second: nat)

  predicate IsLeapYear(y: nat) {
    y % 4 == 0 && (y % 100 != 0 || y % 400 == 0)
  }

  function DaysInMonth(y: nat, m: nat): nat
    requires 1 <= m <= 12
  {
    if m == 2 then (if IsLeapYear(y) then 29 else 28)
    else if m == 4 || m == 6 || m == 9 || m == 11 then 30
    else 31
  }

  /** A reading `datetime` accepts, with a four-digit year. */
  predicate ValidDateTime(t: DateTime) {
    && 1000 <= t.year <= 9999
    && 1 <= t.month <= 12
    && 1 <= t.day <= DaysInMonth(t.year, t.month)
    && t.hour < 24 && t.minute < 60 && t.second < 60
  }

  /** `t.strftime("%Y%m%d")`: eight digits. */
  function DatePart(t: DateTime): (s: string)
    requires ValidDateTime(t)
    ensures |s| == 8 && AllDigits(s)
  {
    Padded(t.year, 4) + Padded(t.month, 2) + Padded(t.day, 2)
  }

  /** `t.strftime("%H%M%S")`: six digits. */
  function ClockPart(t: DateTime): (s: string)
    requires ValidDateTime(t)
    ensures |s| == 6 && AllDigits(s)
  {
    Padded(t.hour, 2) + Padded(t.minute, 2) + Padded(t.second, 2)
  }

  /** `t.strftime("%Y%m%d_%H%M%S")`: always fifteen characters, eight digits,
      an underscore, six digits. */
  function Timestamp(t: DateTime): (s: string)
    requires ValidDateTime(t)
    ensures |s| == 15 && s[8] == '_'
    ensures forall i | 0 <= i < 15 && i != 8 :: IsDigit(s[i])
  {
    var date, clock := DatePart(t), ClockPart(t);
    assert forall i | 9 <= i < 15 :: (date + "_" + clock)[i] == clock[i - 9];
    date + "_" + clock
  }

  /** Reads a `%Y%m%d_%H%M%S` stamp back into its fields. */
  function ParseTimestamp(s: string): (r: Option<DateTime>)
  {
    if |s| == 15 && s[8] == '_' && AllDigits(s[..8]) && AllDigits(s[9..]) then
      var date, time := s[..8], s[9..];
      Some(DateTime(ParseDigits(date[..4]), ParseDigits(date[4..6]), ParseDigits(date[6..]),
                    ParseDigits(time[..2]), ParseDigits(time[2..4]), ParseDigits(time[4..])))
    else None
  }

  /** The date fields read back from their eight digits. */
  lemma DatePartRoundTrip(t: DateTime)
    requires ValidDateTime(t)
    ensures var d := DatePart(t);
      ParseDigits(d[..4]) == t.year && ParseDigits(d[4..6]) == t.month && ParseDigits(d[6..]) == t.day
  {
    var d := DatePart(t);
    assert d[..4] == Padded(t.year, 4);
    assert d[4..6] == Padded(t.month, 2);
    assert d[6..] == Padded(t.day, 2);
    ParsePadded(t.year, 4);
    ParsePadded(t.month, 2);
    ParsePadded(t.day, 2);
  }

  /** The time-of-day fields read back from their six digits. */
  lemma ClockPartRoundTrip(t: DateTime)
    requires ValidDateTime(t)
    ensures var c := ClockPart(t);
      ParseDigits(c[..2]) == t.hour && ParseDigits(c[2..4]) == t.minute && ParseDigits(c[4..]) == t.second
  {
    var c := ClockPart(t);
    assert c[..2] == Padded(t.hour, 2);
    assert c[2..4] == Padded(t.minute, 2);
    assert c[4..] == Padded(t.second, 2);
    ParsePadded(t.hour, 2);
    ParsePadded(t.minute, 2);
    ParsePadded(t.second, 2);
  }

  lemma TimestampRoundTrip(t: DateTime)
    requires ValidDateTime(t)
    ensures ParseTimestamp(Timestamp(t)) == Some(t)
  {
    var s, date, clock := Timestamp(t), DatePart(t), ClockPart(t);
    assert s[..8] == date;
    assert s[9..] == clock;
    DatePartRoundTrip(t);
    ClockPartRoundTrip(t);
  }

  /** Different clock readings give different stamps. */
  lemma TimestampDistinct(t1: DateTime, t2: DateTime)
    requires ValidDateTime(t1) && ValidDateTime(t2)
    requires t1 != t2
    ensures Timestamp(t1) != Timestamp(t2)
  {
    TimestampRoundTrip(t1);
    TimestampRoundTrip(t2);
  }

  /** 2024-01-02 03:04:05 is stamped "20240102_030405". */
  lemma TimestampExample()
    ensures Timestamp(DateTime(2024, 1, 2, 3, 4, 5)) == "20240102_030405"
  {
    ExampleFields();
    assert ("2024" + "01" + "02") + "_" + ("03" + "04" + "05") == "20240102_030405";
  }

  /** The zero-padded fields of 2024-01-02 03:04:05. */
  lemma ExampleFields()
    ensures Padded(2024, 4) == "2024"
    ensures Padded(1, 2) == "01" && Padded(2, 2) == "02" && Padded(3, 2) == "03"
    ensures Padded(4, 2) == "04" && Padded(5, 2) == "05"
  {
    ExampleYear();
  }

  /** The year field of the example. */
  lemma ExampleYear()
    ensures Padded(2024, 4) == "2024"
  {
    assert Padded(2, 1) == "2";
    assert Padded(20, 2) == "20";
    assert Padded(202, 3) == "202";
  }

  // ---------------------------------------------------------------------
  // `str.lower()` on ASCII text
  // ---------------------------------------------------------------------

  function LowerChar(c: char): (r: char)
    ensures 'A' <= c <= 'Z' ==> r as int == c as int + 32
    ensures !('A' <= c <= 'Z') ==> r == c
  {
    if 'A' <= c <= 'Z' then (c as int + 32) as char else c
  }

  /** `s.lower()`, for strings whose only letters needing case mapping are ASCII. */
  function Lower(s: string): (r: string)
    ensures |r| == |s|
    ensures forall i | 0 <= i < |s| :: r[i] == LowerChar(s[i])
  {
    if s == [] then [] else [LowerChar(s[0])] + Lower(s[1..])
  }
}
