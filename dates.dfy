/**
 * `_get_last_commit_date`: a GitHub `pushed_at` timestamp such as
 * "2025-06-04T19:41:16Z" is read with `strptime("%Y-%m-%dT%H:%M:%SZ")` and
 * written back with `strftime("%Y-%m-%d")`.
 *
 * Only the zero-padded layout GitHub sends is read; `strptime`'s literal
 * characters match either case, so `t` and `z` are accepted as well.
 */
module Dates {
  import opened Wrappers
  import opened Strings

  datatype DateTime = DateTime(year: nat, month: nat, day: nat, hour: nat, minute: nat, second: nat)

  predicate IsLeapYear(year: nat) {
    year % 4 == 0 && (year % 100 != 0 || year % 400 == 0)
  }

  function DaysInMonth(year: nat, month: nat): (r: nat)
    requires 1 <= month <= 12
    ensures 28 <= r <= 31
    ensures month == 2 ==> (r == 29 <==> IsLeapYear(year))
  {
    if month == 2 then (if IsLeapYear(year) then 29 else 28)
    else if month == 4 || month == 6 || month == 9 || month == 11 then 30
    else 31
  }

  /** What `datetime` accepts: years from 1, real calendar days, no leap second. */
  predicate Valid(t: DateTime) {
    1 <= t.year && 1 <= t.month <= 12 && 1 <= t.day <= DaysInMonth(t.year, t.month) &&
    t.hour <= 23 && t.minute <= 59 && t.second <= 59
  }

  predicate AllDigits(s: string) {
    forall i :: 0 <= i < |s| ==> '0' <= s[i] <= '9'
  }

  /** `YYYY-MM-DDTHH:MM:SSZ` with every field written in full. */
  predicate PaddedLayout(raw: string) {
    |raw| == 20 &&
    AllDigits(raw[0..4]) && raw[4] == '-' && AllDigits(raw[5..7]) && raw[7] == '-' &&
    AllDigits(raw[8..10]) && (raw[10] == 'T' || raw[10] == 't') &&
    AllDigits(raw[11..13]) && raw[13] == ':' && AllDigits(raw[14..16]) && raw[16] == ':' &&
    AllDigits(raw[17..19]) && (raw[19] == 'Z' || raw[19] == 'z')
  }

  /** The six numbers of a timestamp in the padded layout. */
  function Fields(raw: string): (t: DateTime)
    requires PaddedLayout(raw)
    ensures t.month < 100 && t.day < 100 && t.hour < 100 && t.minute < 100 && t.second < 100
  {
    DigitsBound(raw[5..7]);
    DigitsBound(raw[8..10]);
    DigitsBound(raw[11..13]);
    DigitsBound(raw[14..16]);
    DigitsBound(raw[17..19]);
    DateTime(DigitsValue(raw[0..4]), DigitsValue(raw[5..7]), DigitsValue(raw[8..10]),
             DigitsValue(raw[11..13]), DigitsValue(raw[14..16]), DigitsValue(raw[17..19]))
  }

  lemma DigitsBound(s: string)
    requires |s| == 2 && AllDigits(s)
    ensures DigitsValue(s) < 100
  {
    TwoDigits(s);
  }

  /** The value of two digits `ab` is `10 * a + b`. */
  lemma TwoDigits(s: string)
    requires |s| == 2 && AllDigits(s)
    ensures DigitsValue(s) == 10 * (s[0] as int - '0' as int) + (s[1] as int - '0' as int)
  {
    var p := s[..1];
    assert p[..|p| - 1] == [];
    assert DigitsValue(p) == s[0] as int - '0' as int;
  }

  /** `strptime`: the date and time a well-formed timestamp names, or nothing. */
  function ParseTimestamp(raw: string): (r: Option<DateTime>)
    ensures r.Some? <==> PaddedLayout(raw) && Valid(Fields(raw))
    ensures r.Some? ==> Valid(r.value)
  {
    if PaddedLayout(raw) && Valid(Fields(raw)) then Some(Fields(raw)) else None
  }

  /** `%m` and `%d` of `strftime`: two digits, zero-padded. */
  function Pad2(n: nat): (r: string)
    requires n < 100
    ensures |r| == 2 && AllDigits(r)
  {
    [DigitChar(n / 10), DigitChar(n % 10)]
  }

  /**
   * `strftime("%Y-%m-%d")`. The year is written without padding, as the C
   * library on Linux does; month and day are padded to two digits.
   */
  function FormatDate(t: DateTime): (r: string)
    requires t.month < 100 && t.day < 100
  {
    NatToString(t.year) + "-" + Pad2(t.month) + "-" + Pad2(t.day)
  }

  /**
   * `_get_last_commit_date`: the `YYYY-MM-DD` date of a `pushed_at`
   * timestamp; a timestamp `strptime` refuses raises ValueError.
   */
  function LastCommitDate(raw: string): (r: Result<string>)
    ensures r.Ok? <==> ParseTimestamp(raw).Some?
    ensures r.Err? ==> r.error == MalformedTimestamp(raw)
    ensures r.Ok? && raw[0] != '0' ==> r.value == raw[..10]
  {
    match ParseTimestamp(raw)
    case None => Err(MalformedTimestamp(raw))
    case Some(t) =>
      if raw[0] != '0' then
        DateIsPrefix(raw);
        Ok(FormatDate(t))
      else Ok(FormatDate(t))
  }

  /** With a year of four significant digits the date is the timestamp's first ten characters. */
  lemma DateIsPrefix(raw: string)
    requires PaddedLayout(raw) && raw[0] != '0'
    ensures FormatDate(Fields(raw)) == raw[..10]
  {
    DigitsRoundTrip(raw[0..4]);
    Pad2RoundTrip(raw[5..7]);
    Pad2RoundTrip(raw[8..10]);
    assert raw[..10] == raw[0..4] + "-" + raw[5..7] + "-" + raw[8..10];
  }

  lemma DigitCharValue(c: char)
    requires '0' <= c <= '9'
    ensures DigitChar(c as int - '0' as int) == c
  {
  }

  /** Reading two digits and writing them padded gives them back. */
  lemma Pad2RoundTrip(s: string)
    requires |s| == 2 && AllDigits(s)
    ensures DigitsValue(s) < 100 && Pad2(DigitsValue(s)) == s
  {
    var a, b := s[0] as int - '0' as int, s[1] as int - '0' as int;
    var v := DigitsValue(s);
    assert v == 10 * a + b by { TwoDigits(s); }
    DivTen(a, b);
    assert Pad2(v) == [DigitChar(a), DigitChar(b)];
    DigitCharValue(s[0]);
    DigitCharValue(s[1]);
    assert s == [s[0], s[1]];
  }

  lemma DivTen(a: int, b: int)
    requires 0 <= b < 10
    ensures (10 * a + b) / 10 == a && (10 * a + b) % 10 == b
  {
  }

  /** Digits with no leading zero are a positive number. */
  lemma {:induction false} DigitsPositive(s: string)
    requires s != [] && AllDigits(s) && s[0] != '0'
    ensures DigitsValue(s) > 0
  {
    if |s| > 1 {
      DigitsPositive(s[..|s| - 1]);
    }
  }

  /** Digits with no leading zero are exactly how `str` writes their value. */
  lemma {:induction false} DigitsRoundTrip(s: string)
    requires s != [] && AllDigits(s) && s[0] != '0'
    ensures NatToString(DigitsValue(s)) == s
  {
    var p := s[..|s| - 1];
    DigitsSnoc(s);
    if |s| == 1 {
      SingleDigit(s);
    } else {
      assert p[0] == s[0];
      DigitsPositive(p);
      DigitsRoundTrip(p);
      AppendDigit(s, DigitsValue(s), DigitsValue(p));
    }
  }

  /** If `str(m)` writes all but the last digit, `str(10 * m + last)` writes them all. */
  lemma AppendDigit(s: string, n: nat, m: nat)
    requires |s| >= 2 && '0' <= s[|s| - 1] <= '9' && m > 0
    requires n == 10 * m + (s[|s| - 1] as int - '0' as int)
    requires NatToString(m) == s[..|s| - 1]
    ensures NatToString(n) == s
  {
    var last := s[|s| - 1];
    NatToStringStep(n, m, last as int - '0' as int);
    DigitCharValue(last);
    assert s == s[..|s| - 1] + [last];
  }

  lemma SingleDigit(s: string)
    requires |s| == 1 && '0' <= s[0] <= '9'
    ensures NatToString(DigitsValue(s)) == s
  {
    var d := s[0] as int - '0' as int;
    assert DigitsValue(s) == d by { DigitsSnoc(s); }
    DigitCharValue(s[0]);
    assert NatToString(d) == [DigitChar(d)];
    assert s == [s[0]];
  }

  /** The last digit splits off: `int(s) == 10 * int(s[:-1]) + s[-1]`. */
  lemma DigitsSnoc(s: string)
    requires s != [] && AllDigits(s)
    ensures AllDigits(s[..|s| - 1])
    ensures DigitsValue(s) == 10 * DigitsValue(s[..|s| - 1]) + (s[|s| - 1] as int - '0' as int)
    ensures |s| == 1 ==> DigitsValue(s) == s[0] as int - '0' as int
  {
  }

  /** `str` of `10 * m + d` is `str(m)` followed by the digit `d`. */
  lemma NatToStringStep(n: nat, m: nat, d: nat)
    requires m > 0 && d < 10 && n == 10 * m + d
    ensures NatToString(n) == NatToString(m) + [DigitChar(d)]
  {
    DivTen(m, d);
  }

  /** GitHub's own example timestamp. */
  lemma LastCommitDateExample()
    ensures LastCommitDate("2025-06-04T19:41:16Z") == Ok("2025-06-04")
  {
    var raw := "2025-06-04T19:41:16Z";
    ExampleValid(raw);
    assert raw[..10] == "2025-06-04";
  }

  lemma ExampleValid(raw: string)
    requires raw == "2025-06-04T19:41:16Z"
    ensures PaddedLayout(raw) && Valid(Fields(raw))
  {
    ExampleLayout(raw);
    DigitsPositive(raw[0..4]);
    TwoDigits(raw[5..7]);
    TwoDigits(raw[8..10]);
    TwoDigits(raw[11..13]);
    TwoDigits(raw[14..16]);
    TwoDigits(raw[17..19]);
  }

  lemma ExampleLayout(raw: string)
    requires raw == "2025-06-04T19:41:16Z"
    ensures PaddedLayout(raw) && raw[0] == '2'
    ensures raw[5..7] == "06" && raw[8..10] == "04"
    ensures raw[11..13] == "19" && raw[14..16] == "41" && raw[17..19] == "16"
  {
    DigitsOfFour(raw[0..4]);
    DigitsOfTwo(raw[5..7]);
    DigitsOfTwo(raw[8..10]);
    DigitsOfTwo(raw[11..13]);
    DigitsOfTwo(raw[14..16]);
    DigitsOfTwo(raw[17..19]);
  }

  /** A day the month does not have is refused. */
  lemma LastCommitDateRejectsFebruary30()
    ensures LastCommitDate("2025-02-30T00:00:00Z").Err?
  {
    var raw := "2025-02-30T00:00:00Z";
    February30Layout(raw);
    TwoDigits(raw[5..7]);
    TwoDigits(raw[8..10]);
    assert Fields(raw).month == 2 && Fields(raw).day == 30;
  }

  lemma February30Layout(raw: string)
    requires raw == "2025-02-30T00:00:00Z"
    ensures PaddedLayout(raw) && raw[5..7] == "02" && raw[8..10] == "30"
  {
    DigitsOfFour(raw[0..4]);
    DigitsOfTwo(raw[5..7]);
    DigitsOfTwo(raw[8..10]);
    DigitsOfTwo(raw[11..13]);
    DigitsOfTwo(raw[14..16]);
    DigitsOfTwo(raw[17..19]);
  }

  lemma DigitsOfTwo(s: string)
    requires |s| == 2 && '0' <= s[0] <= '9' && '0' <= s[1] <= '9'
    ensures AllDigits(s)
  {
    forall i | 0 <= i < 2
      ensures '0' <= s[i] <= '9'
    {
      if i == 0 {
      } else {
        assert i == 1;
      }
    }
  }

  lemma DigitsOfFour(s: string)
    requires |s| == 4 && '0' <= s[0] <= '9' && '0' <= s[1] <= '9'
    requires '0' <= s[2] <= '9' && '0' <= s[3] <= '9'
    ensures AllDigits(s)
  {
    forall i | 0 <= i < 4
      ensures '0' <= s[i] <= '9'
    {
      if i < 2 {
        assert i == 0 || i == 1;
      } else {
        assert i == 2 || i == 3;
      }
    }
  }
}
