/**
 The calendar of the reservations.  Days count from the first of January of the year 0; the last is
 the last of December 9999, since a date is read as four digits, two and two.
 */
module Dates {
  import opened Bits
  import Text

  /** The number of days that can be written as a date. */
  const DAYS := 3652425

  type Day = d: int | 0 <= d < DAYS

  /** Writes a day as a date. */
  type Calendar = int -> string

  /** Different days are written differently, in ten characters that end in a digit. */
  ghost predicate IsCalendar(fmt: Calendar) {
    && (forall a: Day, b: Day :: fmt(a) == fmt(b) ==> a == b)
    && (forall d: Day :: |fmt(d)| == 10 && '0' <= fmt(d)[9] <= '9')
  }

  /** Some night ends on day `d`. */
  predicate EndsNight(d: int) {
    1 <= d < DAYS
  }

  // ---------- The Gregorian calendar ----------

  datatype Date = Date(year: nat, month: int, day: int) {
    predicate Valid() {
      1 <= month <= 12 && 1 <= day <= MonthLength(year, month)
    }
  }

  predicate IsLeap(year: nat) {
    year % 4 == 0 && (year % 100 != 0 || year % 400 == 0)
  }

  function MonthLength(year: nat, month: int): int
    requires 1 <= month <= 12
  {
    if month == 2 then (if IsLeap(year) then 29 else 28)
    else if month in {4, 6, 9, 11} then 30
    else 31
  }

  /** The day after. */
  function Next(date: Date): (r: Date)
    requires date.Valid()
    ensures r.Valid()
  {
    if date.day < MonthLength(date.year, date.month) then date.(day := date.day + 1)
    else if date.month < 12 then Date(date.year, date.month + 1, 1)
    else Date(date.year + 1, 1, 1)
  }

  /** The date of a day, reached from the first one day at a time. */
  function DateOf(d: nat): (r: Date)
    ensures r.Valid()
  {
    if d == 0 then Date(0, 1, 1) else Next(DateOf(d - 1))
  }

  /** How many days of a year come before a month. */
  function DaysBefore(year: nat, month: int): int
    requires 1 <= month <= 13
  {
    if month == 1 then 0 else DaysBefore(year, month - 1) + MonthLength(year, month - 1)
  }

  /** How many years before this one are multiples of `n`. */
  function MultiplesBefore(year: nat, n: nat): int
    requires n > 0
  {
    if year == 0 then 0 else MultiplesBefore(year - 1, n) + (if (year - 1) % n == 0 then 1 else 0)
  }

  /** How many years before this one are leap years. */
  function LeapsBefore(year: nat): int {
    if year == 0 then 0 else LeapsBefore(year - 1) + (if IsLeap(year - 1) then 1 else 0)
  }

  function DayNumber(date: Date): int
    requires date.Valid()
  {
    365 * date.year + LeapsBefore(date.year) + DaysBefore(date.year, date.month) + date.day - 1
  }

  lemma YearLength(year: nat)
    ensures DaysBefore(year, 12) + 31 == DaysBefore(year, 13) == if IsLeap(year) then 366 else 365
  {
    hide IsLeap;
    assert DaysBefore(year, 2) == 31;
    assert DaysBefore(year, 3) == 31 + MonthLength(year, 2);
    assert DaysBefore(year, 5) == DaysBefore(year, 3) + 61;
    assert DaysBefore(year, 7) == DaysBefore(year, 5) + 61;
    assert DaysBefore(year, 9) == DaysBefore(year, 7) + 62;
    assert DaysBefore(year, 11) == DaysBefore(year, 9) + 61;
    assert DaysBefore(year, 13) == DaysBefore(year, 11) + 61;
  }

  lemma NextNumber(date: Date)
    requires date.Valid()
    ensures DayNumber(Next(date)) == DayNumber(date) + 1
  {
    hide IsLeap;
    YearLength(date.year);
  }

  /** Counting days and finding their dates undo each other. */
  lemma {:induction false} NumberOfDate(d: nat)
    ensures DayNumber(DateOf(d)) == d
  {
    if d > 0 {
      NumberOfDate(d - 1);
      NextNumber(DateOf(d - 1));
    }
  }

  lemma {:induction false} DaysBeforeNotNegative(year: nat, month: int)
    requires 1 <= month <= 13
    ensures DaysBefore(year, month) >= 0
  {
    if month > 1 {
      DaysBeforeNotNegative(year, month - 1);
    }
  }

  lemma {:induction false} MultiplesAre(year: nat, n: nat)
    requires n > 0
    ensures MultiplesBefore(year, n) == (year + n - 1) / n
  {
    if year > 0 {
      MultiplesAre(year - 1, n);
      OneMoreMultiple(year - 1, n);
    }
  }

  lemma OneMoreMultiple(y: nat, n: nat)
    requires n > 0
    ensures (y + n) / n == (y + n - 1) / n + (if y % n == 0 then 1 else 0)
  {
    var q, r := y / n, y % n;
    assert y == n * q + r;
    Quotient(y + n, n, q + 1, r);
    if r == 0 { Quotient(y + n - 1, n, q, n - 1); } else { Quotient(y + n - 1, n, q + 1, r - 1); }
  }

  lemma Quotient(x: int, n: int, q: int, r: int)
    requires n > 0 && 0 <= r < n && x == n * q + r
    ensures x / n == q
  {
    ModUnique(x, n, q, r);
    assert n * (x / n) == n * q;
  }

  lemma {:induction false} LeapsAre(year: nat)
    ensures LeapsBefore(year) == MultiplesBefore(year, 4) - MultiplesBefore(year, 100) + MultiplesBefore(year, 400)
  {
    if year > 0 {
      LeapsAre(year - 1);
      MultipleOfMultiple(year - 1);
    }
  }

  lemma MultipleOfMultiple(y: nat)
    ensures y % 400 == 0 ==> y % 100 == 0
    ensures y % 100 == 0 ==> y % 4 == 0
  {
    if y % 400 == 0 { ModUnique(y, 100, 4 * (y / 400), 0); }
    if y % 100 == 0 { ModUnique(y, 4, 25 * (y / 100), 0); }
  }

  lemma {:induction false} LeapsGrow(a: nat, b: nat)
    requires a <= b
    ensures LeapsBefore(a) <= LeapsBefore(b)
  {
    if a < b {
      LeapsGrow(a, b - 1);
    }
  }

  /** Ten thousand years are all the days. */
  lemma AllYears()
    ensures 365 * 10000 + LeapsBefore(10000) == DAYS
  {
    hide LeapsBefore, MultiplesBefore;
    LeapsAre(10000);
    MultiplesAre(10000, 4);
    MultiplesAre(10000, 100);
    MultiplesAre(10000, 400);
  }

  /** Exactly these days have a year of four digits. */
  lemma FourDigitYears(d: nat)
    ensures d < DAYS <==> DateOf(d).year <= 9999
  {
    hide LeapsBefore, DaysBefore, DateOf;
    var date := DateOf(d);
    NumberOfDate(d);
    AllYears();
    DaysBeforeNotNegative(date.year, date.month);
    if date.year <= 9999 {
      UpToYearEnd(date);
      LeapsGrow(date.year + 1, 10000);
    } else {
      LeapsGrow(10000, date.year);
    }
  }

  lemma UpToYearEnd(date: Date)
    requires date.Valid()
    ensures DayNumber(date) < 365 * (date.year + 1) + LeapsBefore(date.year + 1)
  {
    hide IsLeap;
    YearLength(date.year);
    MonthsLeft(date.year, date.month + 1);
  }

  lemma {:induction false} MonthsLeft(year: nat, month: int)
    requires 1 <= month <= 13
    ensures DaysBefore(year, month) <= DaysBefore(year, 13)
    decreases 13 - month
  {
    if month < 13 {
      MonthsLeft(year, month + 1);
    }
  }

  // ---------- Writing dates ----------

  function Digit(n: int): char {
    "0123456789"[n % 10]
  }

  /** As in `2006-01-02`. */
  function Written(date: Date): string {
    [Digit(date.year / 10 / 10 / 10), Digit(date.year / 10 / 10), Digit(date.year / 10), Digit(date.year), '-',
     Digit(date.month / 10), Digit(date.month), '-', Digit(date.day / 10), Digit(date.day)]
  }

  /** What is written can be read: four digits of the year, two of the month and two of the day. */
  lemma WrittenIs(date: Date)
    requires date.Valid() && date.year <= 9999
    ensures |Written(date)| == 10 && Written(date)[4] == '-' && Written(date)[7] == '-'
    ensures Text.Value(Written(date)[..4]) == date.year
    ensures Text.Value(Written(date)[5..7]) == date.month
    ensures Text.Value(Written(date)[8..]) == date.day
  {
    var s, y := Written(date), date.year;
    assert s[..4] == [s[0], s[1], s[2], s[3]] && s[5..7] == [s[5], s[6]] && s[8..] == [s[8], s[9]];
    hide Written, Digit;
    FourDigits(y / 10 / 10 / 10, y / 10 / 10, y / 10, y);
    TwoDigits(date.month / 10, date.month);
    TwoDigits(date.day / 10, date.day);
  }

  lemma OneDigit(front: string, n: nat)
    ensures Text.Value(front + [Digit(n)]) == 10 * Text.Value(front) + n % 10
  {
    assert (front + [Digit(n)])[..|front|] == front;
  }

  lemma TwoDigits(a: nat, b: nat)
    requires a == b / 10 < 10
    ensures Text.Value([Digit(a), Digit(b)]) == b
  {
    hide Digit, Text.Value;
    NoDigits();
    OneDigit("", a);
    OneDigit([Digit(a)], b);
    assert "" + [Digit(a)] == [Digit(a)] && [Digit(a)] + [Digit(b)] == [Digit(a), Digit(b)];
  }

  lemma FourDigits(a: nat, b: nat, c: nat, d: nat)
    requires a == b / 10 < 10 && b == c / 10 && c == d / 10
    ensures Text.Value([Digit(a), Digit(b), Digit(c), Digit(d)]) == d
  {
    hide Digit, Text.Value;
    TwoDigits(a, b);
    OneDigit([Digit(a), Digit(b)], c);
    OneDigit([Digit(a), Digit(b), Digit(c)], d);
    assert [Digit(a), Digit(b)] + [Digit(c)] == [Digit(a), Digit(b), Digit(c)];
    assert [Digit(a), Digit(b), Digit(c)] + [Digit(d)] == [Digit(a), Digit(b), Digit(c), Digit(d)];
  }

  lemma NoDigits()
    ensures Text.Value("") == 0
  {
  }

  /** A last digit and what stands before it are the number. */
  lemma ReadDigit(m: nat, n: nat)
    requires Digit(m) == Digit(n) && (m / 10 == n / 10 || (m < 10 && n < 10))
    ensures m == n
  {
    assert m == 10 * (m / 10) + m % 10 && n == 10 * (n / 10) + n % 10;
  }

  lemma WrittenDistinct(a: Date, b: Date)
    requires a.Valid() && b.Valid() && a.year <= 9999 && b.year <= 9999 && Written(a) == Written(b)
    ensures a == b
  {
    hide Digit;
    SameYear(a, b);
    SameMonthAndDay(a, b);
  }

  lemma SameYear(a: Date, b: Date)
    requires a.year <= 9999 && b.year <= 9999 && Written(a) == Written(b)
    ensures a.year == b.year
  {
    hide Digit;
    var s, t := Written(a), Written(b);
    assert s[0] == t[0] && s[1] == t[1] && s[2] == t[2] && s[3] == t[3];
    ReadDigit(a.year / 10 / 10 / 10, b.year / 10 / 10 / 10);
    ReadDigit(a.year / 10 / 10, b.year / 10 / 10);
    ReadDigit(a.year / 10, b.year / 10);
    ReadDigit(a.year, b.year);
  }

  lemma SameMonthAndDay(a: Date, b: Date)
    requires a.Valid() && b.Valid() && Written(a) == Written(b)
    ensures a.month == b.month && a.day == b.day
  {
    hide Digit;
    var s, t := Written(a), Written(b);
    assert s[5] == t[5] && s[6] == t[6] && s[8] == t[8] && s[9] == t[9];
    ReadDigit(a.month / 10, b.month / 10);
    ReadDigit(a.month, b.month);
    ReadDigit(a.day / 10, b.day / 10);
    ReadDigit(a.day, b.day);
  }

  lemma EndsInDigit(date: Date)
    ensures |Written(date)| == 10 && '0' <= Written(date)[9] <= '9'
  {
  }

  const GREGORIAN: Calendar := (d: int) => if d < 0 then "" else Written(DateOf(d))

  /** Dates as the source writes them are a calendar. */
  lemma GregorianIsCalendar()
    ensures IsCalendar(GREGORIAN)
  {
    hide DateOf, Digit, Written;
    forall a: Day, b: Day | GREGORIAN(a) == GREGORIAN(b) ensures a == b {
      FourDigitYears(a);
      FourDigitYears(b);
      WrittenDistinct(DateOf(a), DateOf(b));
      NumberOfDate(a);
      NumberOfDate(b);
    }
    forall d: Day ensures |GREGORIAN(d)| == 10 && '0' <= GREGORIAN(d)[9] <= '9' {
      EndsInDigit(DateOf(d));
    }
  }
}
