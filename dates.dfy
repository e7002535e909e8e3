/**
 * The calendar date model shared by the cleaner and the database loader:
 * Python's `datetime.date` (proleptic Gregorian, years 1 to 9999), its
 * ordering, and `datetime.strptime(text, "%d/%m/%Y").date()`.
 */
module Dates {
  import opened Wrappers
  import opened Json

  /** A (year, month, day) triple; only `ValidDate` ones are real dates. */
  datatype Date = Date(year: int, month: int, day: int)

  /**
   * Python's `datetime`: a date and a time of day. Its fields are never
   * inspected, but two of them are compared for equality when a duplicate
   * row is tested for change.
   */
  datatype DateTime = DateTime(date: Date, hour: int, minute: int, second: int, microsecond: int)

  /** `datetime.MINYEAR` and `datetime.MAXYEAR`. */
  const MIN_YEAR := 1
  const MAX_YEAR := 9999

  predicate IsLeapYear(y: int)
  {
    y % 4 == 0 && (y % 100 != 0 || y % 400 == 0)
  }

  function DaysInMonth(y: int, m: int): (n: int)
    requires 1 <= m <= 12
    ensures 28 <= n <= 31
    ensures n == 29 <==> m == 2 && IsLeapYear(y)
  {
    if m == 2 then (if IsLeapYear(y) then 29 else 28)
    else if m == 4 || m == 6 || m == 9 || m == 11 then 30
    else 31
  }

  /** The triples `datetime.date(year, month, day)` accepts without a ValueError. */
  predicate ValidDate(d: Date)
    ensures ValidDate(d) ==> 1 <= d.day <= 31
    ensures ValidDate(d) && d.month == 2 && d.day == 29 ==> IsLeapYear(d.year)
    ensures ValidDate(d) ==> (d.day == 31 ==> d.month != 2 && d.month != 4 && d.month != 6
                                               && d.month != 9 && d.month != 11)
  {
    && MIN_YEAR <= d.year <= MAX_YEAR
    && 1 <= d.month <= 12
    && 1 <= d.day <= DaysInMonth(d.year, d.month)
  }

  /** `a < b` on dates (Python and MySQL DATE alike): lexicographic on (year, month, day). */
  predicate Before(a: Date, b: Date)
    ensures Before(a, b) ==> a != b && a.year <= b.year
    ensures a.year < b.year ==> Before(a, b)
  {
    || a.year < b.year
    || (a.year == b.year && a.month < b.month)
    || (a.year == b.year && a.month == b.month && a.day < b.day)
  }

  lemma BeforeIsStrictTotalOrder(a: Date, b: Date, c: Date)
    ensures !Before(a, a)
    ensures Before(a, b) ==> !Before(b, a)
    ensures Before(a, b) && Before(b, c) ==> Before(a, c)
    ensures a != b ==> Before(a, b) || Before(b, a)
  {
  }

  // ---------------------------------------------------------------------
  // Decimal digits

  predicate IsDigit(c: char)
  {
    '0' <= c <= '9'
  }

  function DigitValue(c: char): (n: int)
    requires IsDigit(c)
    ensures 0 <= n <= 9
  {
    c as int - '0' as int
  }

  function DigitChar(n: int): (c: char)
    requires 0 <= n <= 9
    ensures IsDigit(c) && DigitValue(c) == n
  {
    ('0' as int + n) as char
  }

  predicate AllDigits(f: string)
  {
    forall i :: 0 <= i < |f| ==> IsDigit(f[i])
  }

  /** The value of a two-digit field. */
  function TwoValue(f: string): (n: int)
    requires |f| == 2 && AllDigits(f)
    ensures 0 <= n <= 99
  {
    10 * DigitValue(f[0]) + DigitValue(f[1])
  }

  /** The value of a four-digit field. */
  function FourValue(f: string): (n: int)
    requires |f| == 4 && AllDigits(f)
    ensures 0 <= n <= 9999
  {
    100 * TwoValue(f[..2]) + TwoValue(f[2..])
  }

  /** `n` written with two digits, zero-padded. */
  function Two(n: int): (f: string)
    requires 0 <= n <= 99
    ensures |f| == 2 && AllDigits(f) && TwoValue(f) == n
  {
    [DigitChar(n / 10), DigitChar(n % 10)]
  }

  /** `n` written with four digits, zero-padded (the `%Y` form). */
  function Four(n: int): (f: string)
    requires 0 <= n <= 9999
    ensures |f| == 4 && AllDigits(f) && FourValue(f) == n
  {
    var f := Two(n / 100) + Two(n % 100);
    assert f[..2] == Two(n / 100) && f[2..] == Two(n % 100);
    f
  }

  lemma TwoOfValue(f: string)
    requires |f| == 2 && AllDigits(f)
    ensures Two(TwoValue(f)) == f
  {
  }

  lemma FourOfValue(f: string)
    requires |f| == 4 && AllDigits(f)
    ensures Four(FourValue(f)) == f
  {
    var hi, lo := TwoValue(f[..2]), TwoValue(f[2..]);
    assert (100 * hi + lo) / 100 == hi && (100 * hi + lo) % 100 == lo;
    TwoOfValue(f[..2]);
    TwoOfValue(f[2..]);
    assert f == f[..2] + f[2..];
  }

  // ---------------------------------------------------------------------
  // Splitting at the '/' separators of the "%d/%m/%Y" format

  /** The '/'-separated fields of `s`, as `s.split('/')` gives them. */
  function Split(s: string): (r: seq<string>)
    ensures |r| >= 1
    decreases |s|
  {
    if s == [] then [[]]
    else
      var t := Split(s[1..]);
      if s[0] == '/' then [[]] + t else [[s[0]] + t[0]] + t[1..]
  }

  /** `'/'.join(fs)`. */
  function Join(fs: seq<string>): string
    requires |fs| >= 1
  {
    if |fs| == 1 then fs[0] else fs[0] + "/" + Join(fs[1..])
  }

  lemma {:induction false} JoinSplit(s: string)
    ensures Join(Split(s)) == s
    decreases |s|
  {
    if s != [] {
      var t := Split(s[1..]);
      JoinSplit(s[1..]);
      if s[0] == '/' {
        assert Split(s) == [[]] + t;
        assert ([[]] + t)[1..] == t;
        assert s == [] + "/" + s[1..];
      } else if |t| == 1 {
        assert Split(s) == [[s[0]] + t[0]];
        assert s == [s[0]] + s[1..];
      } else {
        var u := [[s[0]] + t[0]] + t[1..];
        assert Split(s) == u && u[1..] == t[1..];
        assert Join(t) == t[0] + "/" + Join(t[1..]);
        assert s == [s[0]] + s[1..];
      }
    }
  }

  lemma {:induction false} SplitOneField(a: string)
    requires '/' !in a
    ensures Split(a) == [a]
    decreases |a|
  {
    if a != [] {
      SplitOneField(a[1..]);
      assert [a[0]] + a[1..] == a;
    }
  }

  lemma {:induction false} SplitFirstField(a: string, rest: string)
    requires '/' !in a
    ensures Split(a + "/" + rest) == [a] + Split(rest)
    decreases |a|
  {
    var s := a + "/" + rest;
    if a == [] {
      assert s[1..] == rest;
    } else {
      assert s[1..] == a[1..] + "/" + rest;
      SplitFirstField(a[1..], rest);
      assert [a[0]] + a[1..] == a;
    }
  }

  // ---------------------------------------------------------------------
  // The three directives of "%d/%m/%Y"

  /** `%d` of `strptime`: `3[01]|[12]\d|0[1-9]|[1-9]| [1-9]`, the whole field. */
  function DayField(f: string): (r: Option<int>)
    ensures r.Some? ==> 1 <= r.value <= 31 && 1 <= |f| <= 2 && '/' !in f
    ensures r.Some? && |f| == 2 && f[0] != ' ' ==> f == Two(r.value)
  {
    if |f| == 1 && IsDigit(f[0]) && f[0] != '0' then Some(DigitValue(f[0]))
    else if |f| == 2 && f[0] == ' ' && IsDigit(f[1]) && f[1] != '0' then Some(DigitValue(f[1]))
    else if |f| == 2 && AllDigits(f) && 1 <= TwoValue(f) <= 31 then Some(TwoValue(f))
    else None
  }

  /** `%m` of `strptime`: `1[0-2]|0[1-9]|[1-9]`, the whole field. */
  function MonthField(f: string): (r: Option<int>)
    ensures r.Some? ==> 1 <= r.value <= 12 && 1 <= |f| <= 2 && '/' !in f
    ensures r.Some? && |f| == 2 ==> f == Two(r.value)
  {
    if |f| == 1 && IsDigit(f[0]) && f[0] != '0' then Some(DigitValue(f[0]))
    else if |f| == 2 && AllDigits(f) && 1 <= TwoValue(f) <= 12 then Some(TwoValue(f))
    else None
  }

  /** `%Y` of `strptime`: exactly four digits. */
  function YearField(f: string): (r: Option<int>)
    ensures r.Some? ==> 0 <= r.value <= MAX_YEAR && |f| == 4 && f == Four(r.value)
  {
    if |f| == 4 && AllDigits(f) then FourOfValue(f); Some(FourValue(f)) else None
  }

  /**
   * `datetime.strptime(s, "%d/%m/%Y").date()`: the three fields must fill the
   * whole string (otherwise "unconverted data remains" or "does not match
   * format"), and the triple must be a real date (otherwise "day is out of
   * range for month" or "year 0 is out of range"). `None` stands for the
   * ValueError.
   */
  function ParseDate(s: string): (r: Option<Date>)
    ensures r.Some? ==> ValidDate(r.value)
  {
    var f := Split(s);
    if |f| != 3 then None
    else
      match (DayField(f[0]), MonthField(f[1]), YearField(f[2]))
      case (Some(d), Some(m), Some(y)) =>
        if ValidDate(Date(y, m, d)) then Some(Date(y, m, d)) else None
      case _ => None
  }

  /** `str_to_date` applied to any JSON value: anything but a string raises a TypeError. */
  function StrToDate(v: Value): (r: Option<Date>)
    ensures r.Some? ==> v.Str? && ValidDate(r.value)
  {
    match v
    case Str(s) => ParseDate(s)
    case _ => None
  }

  // ---------------------------------------------------------------------
  // An independent description of the accepted texts

  /** How a day or month number is written: "05", "5" or " 5". */
  datatype Style = Padded | Bare | SpaceBare

  predicate DayStyleFits(st: Style, n: int)
  {
    match st
    case Padded => 1 <= n <= 31
    case Bare => 1 <= n <= 9
    case SpaceBare => 1 <= n <= 9
  }

  predicate MonthStyleFits(st: Style, n: int)
  {
    match st
    case Padded => 1 <= n <= 12
    case Bare => 1 <= n <= 9
    case SpaceBare => false
  }

  function FieldText(n: int, st: Style): string
    requires 0 <= n <= 99
    requires st != Padded ==> n <= 9
  {
    match st
    case Padded => Two(n)
    case Bare => [DigitChar(n)]
    case SpaceBare => [' ', DigitChar(n)]
  }

  /** One way of writing the valid date `d` that "%d/%m/%Y" reads back as `d`. */
  function Spelling(d: Date, ds: Style, ms: Style): string
    requires ValidDate(d) && DayStyleFits(ds, d.day) && MonthStyleFits(ms, d.month)
  {
    FieldText(d.day, ds) + "/" + FieldText(d.month, ms) + "/" + Four(d.year)
  }

  /** The canonical "DD/MM/YYYY" text of a date, as the scraper writes `start_date`. */
  function FormatDate(d: Date): string
    requires ValidDate(d)
  {
    Spelling(d, Padded, Padded)
  }

  /** Every spelling of a valid date parses back to that date. */
  lemma ParseSpelling(d: Date, ds: Style, ms: Style)
    requires ValidDate(d) && DayStyleFits(ds, d.day) && MonthStyleFits(ms, d.month)
    ensures ParseDate(Spelling(d, ds, ms)) == Some(d)
  {
    var a, b, c := FieldText(d.day, ds), FieldText(d.month, ms), Four(d.year);
    assert '/' !in a && '/' !in b && '/' !in c by {
      assert forall i :: 0 <= i < |c| ==> IsDigit(c[i]);
    }
    assert a + "/" + b + "/" + c == a + "/" + (b + "/" + c);
    SplitFirstField(a, b + "/" + c);
    SplitFirstField(b, c);
    SplitOneField(c);
    assert Split(Spelling(d, ds, ms)) == [a, b, c];
    assert DayField(a) == Some(d.day);
    assert MonthField(b) == Some(d.month);
  }

  /** Only spellings of valid dates parse, and they parse to the date they spell. */
  lemma ParsedIsSpelling(s: string)
    requires ParseDate(s).Some?
    ensures ValidDate(ParseDate(s).value)
    ensures exists ds: Style, ms: Style ::
              DayStyleFits(ds, ParseDate(s).value.day) && MonthStyleFits(ms, ParseDate(s).value.month)
              && s == Spelling(ParseDate(s).value, ds, ms)
  {
    var d := ParseDate(s).value;
    var f := Split(s);
    assert |f| == 3;
    assert DayField(f[0]) == Some(d.day) && MonthField(f[1]) == Some(d.month) && YearField(f[2]) == Some(d.year);
    var ds := if |f[0]| == 1 then Bare else if f[0][0] == ' ' then SpaceBare else Padded;
    var ms := if |f[1]| == 1 then Bare else Padded;
    assert FieldText(d.day, ds) == f[0];
    assert FieldText(d.month, ms) == f[1];
    assert Four(d.year) == f[2];
    JoinsAsSpelling(s, f);
    assert DayStyleFits(ds, d.day) && MonthStyleFits(ms, d.month) && s == Spelling(d, ds, ms);
  }

  /** A text whose three '/'-fields are known is those fields joined by '/'. */
  lemma JoinsAsSpelling(s: string, f: seq<string>)
    requires f == Split(s) && |f| == 3
    ensures s == f[0] + "/" + f[1] + "/" + f[2]
  {
    JoinSplit(s);
    assert f[1..][1..] == [f[2]];
    assert Join(f[1..]) == f[1] + "/" + f[2];
    assert s == f[0] + "/" + (f[1] + "/" + f[2]);
  }

  /** `ParseDate(s) == Some(d)` exactly when `s` is one of the spellings of the valid date `d`. */
  lemma ParseDateCharacterised(s: string, d: Date)
    ensures ParseDate(s) == Some(d) <==>
              ValidDate(d) && exists ds: Style, ms: Style ::
                DayStyleFits(ds, d.day) && MonthStyleFits(ms, d.month) && s == Spelling(d, ds, ms)
  {
    if ParseDate(s) == Some(d) {
      ParsedIsSpelling(s);
    }
    if ValidDate(d) && exists ds: Style, ms: Style ::
         DayStyleFits(ds, d.day) && MonthStyleFits(ms, d.month) && s == Spelling(d, ds, ms) {
      var ds: Style, ms: Style :| DayStyleFits(ds, d.day) && MonthStyleFits(ms, d.month) && s == Spelling(d, ds, ms);
      ParseSpelling(d, ds, ms);
    }
  }

  /** The "DD/MM/YYYY" text of a valid date reads back as that date. */
  lemma ParseFormatDate(d: Date)
    requires ValidDate(d)
    ensures ParseDate(FormatDate(d)) == Some(d)
  {
    ParseSpelling(d, Padded, Padded);
  }

  /**
   * A well-formed DD/MM/YYYY text that names no real date (a day past the
   * end of its month, or year 0) is refused: the ValueError of `date()`.
   */
  lemma ParseRefusesInvalidTriple(y: int, m: int, dd: int)
    requires 0 <= y <= MAX_YEAR && 1 <= m <= 12 && 1 <= dd <= 31
    requires !ValidDate(Date(y, m, dd))
    ensures ParseDate(Two(dd) + "/" + Two(m) + "/" + Four(y)) == None
  {
    var a, b, c := Two(dd), Two(m), Four(y);
    assert '/' !in a && '/' !in b && '/' !in c by {
      assert forall i :: 0 <= i < |c| ==> IsDigit(c[i]);
    }
    assert a + "/" + b + "/" + c == a + "/" + (b + "/" + c);
    SplitFirstField(a, b + "/" + c);
    SplitFirstField(b, c);
    SplitOneField(c);
    assert Split(a + "/" + b + "/" + c) == [a, b, c];
    assert DayField(a) == Some(dd);
    assert MonthField(b) == Some(m);
    assert YearField(c) == Some(y);
  }

  /** A text without the two separators is refused. */
  lemma ParseNeedsSeparators(s: string)
    requires '/' !in s
    ensures ParseDate(s) == None
  {
    SplitOneField(s);
  }

  /** 31 February, 29 February of a common year and year 0 are refused. */
  lemma ParseRefusesImpossibleDates()
    ensures ParseDate("31/02/2025") == None
    ensures ParseDate("29/02/2025") == None
    ensures ParseDate("01/01/0000") == None
  {
    ParseRefusesInvalidTriple(2025, 2, 31);
    assert Two(31) + "/" + Two(2) + "/" + Four(2025) == "31/02/2025";
    ParseRefusesInvalidTriple(2025, 2, 29);
    assert Two(29) + "/" + Two(2) + "/" + Four(2025) == "29/02/2025";
    ParseRefusesInvalidTriple(0, 1, 1);
    assert Two(1) + "/" + Two(1) + "/" + Four(0) == "01/01/0000";
  }

  /** A leap day of a leap year, and single-digit fields, are accepted. */
  lemma ParseAcceptsExamples()
    ensures ParseDate("29/02/2024") == Some(Date(2024, 2, 29))
    ensures ParseDate("5/6/2025") == Some(Date(2025, 6, 5))
  {
    ParseSpelling(Date(2024, 2, 29), Padded, Padded);
    assert Spelling(Date(2024, 2, 29), Padded, Padded) == "29/02/2024";
    ParseSpelling(Date(2025, 6, 5), Bare, Bare);
    assert Spelling(Date(2025, 6, 5), Bare, Bare) == "5/6/2025";
  }
}
