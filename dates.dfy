/**
 * Calendar dates as Python's `datetime.date` holds them, and the parse the
 * entry-creation handler performs on the submitted `date` field:
 * `datetime.date(int(f[0]), int(f[1]), int(f[2]))` with `f = text.split("-")`.
 */
module Dates {
  import opened Wrappers
  import opened PyText

  /** A `datetime.date`: a year, a month and a day of the proleptic Gregorian calendar. */
  datatype Date = Date(year: int, month: int, day: int)

  const MIN_YEAR := 1
  const MAX_YEAR := 9999

  predicate IsLeapYear(year: int)
  {
    year % 4 == 0 && (year % 100 != 0 || year % 400 == 0)
  }

  function DaysInMonth(year: int, month: int): (n: int)
    requires 1 <= month <= 12
    ensures 28 <= n <= 31
    ensures n == 28 <==> month == 2 && !IsLeapYear(year)
    ensures n == 29 <==> month == 2 && IsLeapYear(year)
    ensures n == 30 <==> month == 4 || month == 6 || month == 9 || month == 11
  {
    if month == 2 then (if IsLeapYear(year) then 29 else 28)
    else if month == 4 || month == 6 || month == 9 || month == 11 then 30
    else 31
  }

  /** The month lengths of a common year, January first, as `calendar.mdays` lists them. */
  const COMMON_MONTH_DAYS: seq<int> := [31, 28, 31, 30, 31, 30, 31, 31, 30, 31, 30, 31]

  /** Each month has its common-year length, plus one day for February of a leap year. */
  lemma DaysInMonthMatchesTable(year: int, month: int)
    requires 1 <= month <= 12
    ensures DaysInMonth(year, month) ==
      COMMON_MONTH_DAYS[month - 1] + (if month == 2 && IsLeapYear(year) then 1 else 0)
  {
  }

  /** The days of the first `months` months of a year. */
  function DaysBefore(year: int, months: nat): int
    requires months <= 12
  {
    if months == 0 then 0 else DaysBefore(year, months - 1) + DaysInMonth(year, months)
  }

  /** The days of the first `months` months of a common year, from the table. */
  function CommonDaysBefore(months: nat): int
    requires months <= 12
  {
    if months == 0 then 0 else CommonDaysBefore(months - 1) + COMMON_MONTH_DAYS[months - 1]
  }

  /** Counting days month by month agrees with the table, with one more day from March on in a leap year. */
  lemma {:induction false} DaysBeforeMatchesTable(year: int, months: nat)
    requires months <= 12
    ensures DaysBefore(year, months) ==
      CommonDaysBefore(months) + (if months >= 2 && IsLeapYear(year) then 1 else 0)
  {
    if months > 0 {
      DaysBeforeMatchesTable(year, months - 1);
      DaysInMonthMatchesTable(year, months);
    }
  }

  /** A year has 366 days when it is a leap year and 365 otherwise. */
  lemma YearLength(year: int)
    ensures DaysBefore(year, 12) == if IsLeapYear(year) then 366 else 365
  {
    DaysBeforeMatchesTable(year, 12);
    assert CommonDaysBefore(6) == 181;
    assert CommonDaysBefore(12) == 365;
  }

  /** The arguments `datetime.date` accepts without raising ValueError. */
  predicate IsValidDate(year: int, month: int, day: int)
  {
    MIN_YEAR <= year <= MAX_YEAR && 1 <= month <= 12 && 1 <= day <= DaysInMonth(year, month)
  }

  predicate Valid(d: Date)
  {
    IsValidDate(d.year, d.month, d.day)
  }

  /** `a <= b` on dates: year, then month, then day. */
  predicate NotAfter(a: Date, b: Date)
  {
    a.year < b.year
    || (a.year == b.year && (a.month < b.month || (a.month == b.month && a.day <= b.day)))
  }

  /** NotAfter is a total order on dates. */
  lemma NotAfterIsTotalOrder(a: Date, b: Date, c: Date)
    ensures NotAfter(a, a)
    ensures NotAfter(a, b) || NotAfter(b, a)
    ensures NotAfter(a, b) && NotAfter(b, a) ==> a == b
    ensures NotAfter(a, b) && NotAfter(b, c) ==> NotAfter(a, c)
  {
  }

  /** Why the parse fails, after the Python exception it raises. */
  datatype DateError =
    | MissingField(index: nat)   // IndexError: the split gave fewer fields
    | NotAnInteger(index: nat)   // ValueError from int()
    | OutOfRange                 // ValueError (or OverflowError) from datetime.date

  /** The `int()` of field `i`, or the error reading it raises. */
  function FieldValue(fields: seq<string>, i: nat): (r: Result<int, DateError>)
    ensures r.Failure? ==> r.error == MissingField(i) || r.error == NotAnInteger(i)
    ensures r.Failure? ==> (r.error == MissingField(i) <==> i >= |fields|)
    ensures r.Success? <==> i < |fields| && ParseInt(fields[i]).Some?
    ensures r.Success? ==> r.value == ParseInt(fields[i]).value
  {
    if i >= |fields| then Failure(MissingField(i))
    else match ParseInt(fields[i])
      case None => Failure(NotAnInteger(i))
      case Some(v) => Success(v)
  }

  /**
   * The date the handler builds from the submitted text. Python evaluates
   * the three arguments left to right, so the first field that is missing or
   * not an integer decides the error; the calendar check comes last.
   */
  function ParseDate(text: string): (r: Result<Date, DateError>)
    ensures r.Success? ==> Valid(r.value)
  {
    var fields := Split(text, '-');
    match FieldValue(fields, 0)
    case Failure(e) => Failure(e)
    case Success(y) =>
      match FieldValue(fields, 1)
      case Failure(e) => Failure(e)
      case Success(m) =>
        match FieldValue(fields, 2)
        case Failure(e) => Failure(e)
        case Success(d) =>
          if IsValidDate(y, m, d) then Success(Date(y, m, d)) else Failure(OutOfRange)
  }

  /**
   * The parse succeeds exactly when the split has at least three fields, the
   * first three are integers and they form a valid date, and then it yields
   * that date.
   */
  lemma ParseDateAccepts(text: string)
    ensures var f := Split(text, '-');
      ParseDate(text).Success? <==>
        && |f| >= 3
        && ParseInt(f[0]).Some? && ParseInt(f[1]).Some? && ParseInt(f[2]).Some?
        && IsValidDate(ParseInt(f[0]).value, ParseInt(f[1]).value, ParseInt(f[2]).value)
    ensures var f := Split(text, '-');
      ParseDate(text).Success? ==>
        ParseDate(text).value == Date(ParseInt(f[0]).value, ParseInt(f[1]).value, ParseInt(f[2]).value)
  {
  }

  /** The first `n` fields exist and are integers. */
  predicate FieldsParse(fields: seq<string>, n: nat)
  {
    n <= |fields| && forall j :: 0 <= j < n ==> ParseInt(fields[j]).Some?
  }

  /**
   * The parse fails with the error of the first field that is missing or not
   * an integer, in the order Python evaluates the arguments, and with
   * OutOfRange exactly when three integers fail the calendar check.
   */
  lemma ParseDateFails(text: string, i: nat)
    ensures var f := Split(text, '-');
      ParseDate(text) == Failure(MissingField(i)) <==> i < 3 && i == |f| && FieldsParse(f, i)
    ensures var f := Split(text, '-');
      ParseDate(text) == Failure(NotAnInteger(i)) <==>
        i < 3 && i < |f| && FieldsParse(f, i) && ParseInt(f[i]).None?
    ensures var f := Split(text, '-');
      ParseDate(text) == Failure(OutOfRange) <==>
        FieldsParse(f, 3) && !IsValidDate(ParseInt(f[0]).value, ParseInt(f[1]).value, ParseInt(f[2]).value)
  {
    var f := Split(text, '-');
    assert FieldsParse(f, 1) <==> FieldValue(f, 0).Success?;
    assert FieldsParse(f, 2) <==> FieldsParse(f, 1) && FieldValue(f, 1).Success?;
    assert FieldsParse(f, 3) <==> FieldsParse(f, 2) && FieldValue(f, 2).Success?;
  }

  /** Fields after the third are ignored: appending "-" and anything to text that already has three fields changes nothing. */
  lemma IgnoresExtraFields(text: string, tail: string)
    requires |Split(text, '-')| >= 3
    ensures ParseDate(text + "-" + tail) == ParseDate(text)
  {
    SplitAppend(text, '-', tail);
    var f := Split(text + "-" + tail, '-');
    var g := Split(text, '-');
    assert f == g + Split(tail, '-');
    assert FieldValue(f, 0) == FieldValue(g, 0);
    assert FieldValue(f, 1) == FieldValue(g, 1);
    assert FieldValue(f, 2) == FieldValue(g, 2);
  }

  /** A missing form field arrives as the empty string, which splits to one empty field and fails at the first int(). */
  lemma EmptyFails()
    ensures ParseDate("") == Failure(NotAnInteger(0))
  {
    assert Split("", '-') == [""];
  }

  /** Text made of three separator-free fields joined by "-" splits into exactly those fields. */
  lemma SplitThree(a: string, b: string, c: string)
    requires '-' !in a && '-' !in b && '-' !in c
    ensures Split(a + "-" + b + "-" + c, '-') == [a, b, c]
  {
    var fields := [a, b, c];
    assert fields[1..] == [b, c];
    assert [b, c][1..] == [c];
    assert Join([b, c], '-') == b + "-" + c;
    assert a + "-" + b + "-" + c == a + "-" + (b + "-" + c);
    SplitJoin(fields, '-');
  }

  /** Three non-empty digit fields joined by "-" parse to the date they spell, or fail the calendar check. */
  lemma DigitFieldsParse(y: string, m: string, d: string)
    requires y != [] && m != [] && d != [] && AllDigits(y) && AllDigits(m) && AllDigits(d)
    ensures var (year, month, day) := (DigitsValue(y), DigitsValue(m), DigitsValue(d));
      ParseDate(y + "-" + m + "-" + d) ==
        if IsValidDate(year, month, day) then Success(Date(year, month, day)) else Failure(OutOfRange)
  {
    assert '-' !in y && '-' !in m && '-' !in d;
    SplitThree(y, m, d);
    DigitsParse(y);
    DigitsParse(m);
    DigitsParse(d);
  }

  /** The value of a four-digit field. */
  lemma FourDigits(s: string)
    requires |s| == 4 && AllDigits(s)
    ensures DigitsValue(s) == (s[0] as int - '0' as int) * 1000 + (s[1] as int - '0' as int) * 100
                              + (s[2] as int - '0' as int) * 10 + (s[3] as int - '0' as int)
  {
    var (a, b, c) := (s[..3], s[..2], s[..1]);
    assert a[..2] == b && b[..1] == c && c[..0] == [];
    assert a[2] == s[2] && b[1] == s[1] && c[0] == s[0];
    assert DigitsValue(c) == s[0] as int - '0' as int;
    assert DigitsValue(b) == DigitsValue(c) * 10 + (s[1] as int - '0' as int);
    assert DigitsValue(a) == DigitsValue(b) * 10 + (s[2] as int - '0' as int);
  }

  /** The value of a two-digit field. */
  lemma TwoDigits(s: string)
    requires |s| == 2 && AllDigits(s)
    ensures DigitsValue(s) == (s[0] as int - '0' as int) * 10 + (s[1] as int - '0' as int)
  {
    var c := s[..1];
    assert c[..0] == [] && c[0] == s[0];
    assert DigitsValue(c) == s[0] as int - '0' as int;
  }

  /** Text of the form "YYYY-MM-DD" in digits parses to the date it spells, or fails the calendar check. */
  lemma IsoShapedParses(text: string)
    requires |text| == 10 && text[4] == '-' && text[7] == '-'
    requires AllDigits(text[..4]) && AllDigits(text[5..7]) && AllDigits(text[8..])
    ensures var (year, month, day) := (DigitsValue(text[..4]), DigitsValue(text[5..7]), DigitsValue(text[8..]));
      ParseDate(text) ==
        if IsValidDate(year, month, day) then Success(Date(year, month, day)) else Failure(OutOfRange)
  {
    assert text == text[..4] + "-" + text[5..7] + "-" + text[8..];
    DigitFieldsParse(text[..4], text[5..7], text[8..]);
  }

  /** The submission an HTML date input sends for 15 March 2024 parses to that date. */
  lemma ParsesIsoSubmission(text: string)
    requires text == "2024-03-15"
    ensures ParseDate(text) == Success(Date(2024, 3, 15))
  {
    FourDigits(text[..4]);
    TwoDigits(text[5..7]);
    TwoDigits(text[8..]);
    IsoShapedParses(text);
  }

  /** 29 February is rejected outside leap years. */
  lemma RejectsNonLeapDay(text: string)
    requires text == "2023-02-29"
    ensures ParseDate(text) == Failure(OutOfRange)
  {
    FourDigits(text[..4]);
    TwoDigits(text[5..7]);
    TwoDigits(text[8..]);
    IsoShapedParses(text);
  }

  /** A word in place of the year fails at the first int(). */
  lemma RejectsWords(text: string)
    requires text == "not-a-date"
    ensures ParseDate(text) == Failure(NotAnInteger(0))
  {
    assert text == "not" + "-" + "a" + "-" + "date";
    SplitThree("not", "a", "date");
  }

  // ---- `date.isoformat()`, the partner of ParseDate ----

  /** The ISO 8601 spelling "YYYY-MM-DD" that `date.isoformat()` produces and an HTML date input submits. */
  function IsoFormat(d: Date): string
    requires Valid(d)
  {
    Join([Padded(d.year, 4), Padded(d.month, 2), Padded(d.day, 2)], '-')
  }

  /** Every valid date survives a round trip through its ISO spelling. */
  lemma {:induction false} IsoFormatRoundTrip(d: Date)
    requires Valid(d)
    ensures ParseDate(IsoFormat(d)) == Success(d)
  {
    var fields := [Padded(d.year, 4), Padded(d.month, 2), Padded(d.day, 2)];
    forall i | 0 <= i < |fields| ensures '-' !in fields[i] {
      assert AllDigits(fields[i]);
    }
    SplitJoin(fields, '-');
    PaddedParses(d.year, 4);
    PaddedParses(d.month, 2);
    PaddedParses(d.day, 2);
  }
}
