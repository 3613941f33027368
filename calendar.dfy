/**
 * The proleptic Gregorian calendar that Python's `datetime.date` implements:
 * day arithmetic (`date + timedelta(n)`) and the `%Y-%m-%d` text form that
 * `strftime` produces and that the date-key pattern of daily.py accepts.
 */
module Calendar {

  datatype Date = Date(year: int, month: int, day: int)

  predicate IsLeapYear(y: int) {
    y % 4 == 0 && (y % 100 != 0 || y % 400 == 0)
  }

  function DaysInMonth(y: int, m: int): (n: int)
    requires 1 <= m <= 12
    ensures 28 <= n <= 31
    ensures m == 2 ==> (n == 29 <==> IsLeapYear(y))
  {
    if m == 2 then (if IsLeapYear(y) then 29 else 28)
    else if m == 4 || m == 6 || m == 9 || m == 11 then 30
    else 31
  }

  /** A real calendar day: the month exists and the day exists in that month. */
  predicate ValidDate(d: Date) {
    1 <= d.month <= 12 && 1 <= d.day <= DaysInMonth(d.year, d.month)
  }

  /** Chronological order: `a` is a strictly earlier day than `b`. */
  predicate Before(a: Date, b: Date) {
    a.year < b.year ||
    (a.year == b.year && (a.month < b.month || (a.month == b.month && a.day < b.day)))
  }

  lemma BeforeTransitive(a: Date, b: Date, c: Date)
    requires Before(a, b) && Before(b, c)
    ensures Before(a, c)
  {
  }

  /** The following day: one day later, with no valid day in between. */
  function NextDay(d: Date): (r: Date)
    requires ValidDate(d)
    ensures ValidDate(r) && Before(d, r)
    ensures forall x :: ValidDate(x) && Before(d, x) ==> x == r || Before(r, x)
  {
    if d.day < DaysInMonth(d.year, d.month) then d.(day := d.day + 1)
    else if d.month < 12 then Date(d.year, d.month + 1, 1)
    else Date(d.year + 1, 1, 1)
  }

  /** The preceding day: the day whose successor is `d`. */
  function PrevDay(d: Date): (r: Date)
    requires ValidDate(d)
    ensures ValidDate(r) && Before(r, d)
    ensures NextDay(r) == d
  {
    if d.day > 1 then d.(day := d.day - 1)
    else if d.month > 1 then Date(d.year, d.month - 1, DaysInMonth(d.year, d.month - 1))
    else Date(d.year - 1, 12, 31)
  }

  lemma PrevDayOfNextDay(d: Date)
    requires ValidDate(d)
    ensures PrevDay(NextDay(d)) == d
  {
  }

  /** `d + timedelta(days=n)`: `n` days later (earlier when `n` is negative). */
  function AddDays(d: Date, n: int): (r: Date)
    requires ValidDate(d)
    ensures ValidDate(r)
    ensures n == 0 <==> r == d
    ensures n < 0 ==> Before(r, d)
    ensures n > 0 ==> Before(d, r)
    decreases if n < 0 then -n else n
  {
    if n == 0 then d
    else if n > 0 then
      var r := AddDays(NextDay(d), n - 1);
      assert n - 1 > 0 ==> Before(d, NextDay(d)) && Before(NextDay(d), r);
      r
    else
      var r := AddDays(PrevDay(d), n + 1);
      assert n + 1 < 0 ==> Before(r, PrevDay(d)) && Before(PrevDay(d), d);
      r
  }

  /** Going back `i + 1` days is going back `i` days and then one more. */
  lemma {:induction false} AddDaysBackStep(d: Date, i: int)
    requires ValidDate(d) && 0 <= i
    ensures AddDays(d, -(i + 1)) == PrevDay(AddDays(d, -i))
    decreases i
  {
    if i > 0 {
      AddDaysBackStep(PrevDay(d), i - 1);
    }
  }

  /** Going further back always lands on a strictly earlier day, so the days
      0, 1, 2, ... back from `d` are pairwise distinct. */
  lemma {:induction false} FurtherBackIsEarlier(d: Date, i: int, j: int)
    requires ValidDate(d) && 0 <= i < j
    ensures Before(AddDays(d, -j), AddDays(d, -i))
  {
    AddDaysBackStep(d, j - 1);
    if i < j - 1 {
      FurtherBackIsEarlier(d, i, j - 1);
      BeforeTransitive(AddDays(d, -j), AddDays(d, -(j - 1)), AddDays(d, -i));
    }
  }

  // ---------------------------------------------------------------------
  // Text form YYYY-MM-DD
  // ---------------------------------------------------------------------

  predicate IsDigit(c: char) {
    '0' <= c <= '9'
  }

  /** The shape `^\d{4}-\d{2}-\d{2}$` over ASCII digits. */
  predicate IsDateShape(s: string) {
    && |s| == 10
    && IsDigit(s[0]) && IsDigit(s[1]) && IsDigit(s[2]) && IsDigit(s[3])
    && s[4] == '-'
    && IsDigit(s[5]) && IsDigit(s[6])
    && s[7] == '-'
    && IsDigit(s[8]) && IsDigit(s[9])
  }

  function DigitChar(n: int): (c: char)
    requires 0 <= n <= 9
    ensures IsDigit(c) && DigitValue(c) == n
  {
    ('0' as int + n) as char
  }

  function DigitValue(c: char): int
    requires IsDigit(c)
  {
    c as int - '0' as int
  }

  lemma DigitCharOfValue(c: char)
    requires IsDigit(c)
    ensures DigitChar(DigitValue(c)) == c
  {
  }

  /** Decimal digits of a natural number, without padding. */
  function Decimal(n: nat): (s: string)
    ensures |s| > 0
    decreases n
  {
    if n < 10 then [DigitChar(n)] else Decimal(n / 10) + [DigitChar(n % 10)]
  }

  function Pad2(n: int): string
    requires 0 <= n <= 99
  {
    [DigitChar(n / 10), DigitChar(n % 10)]
  }

  function Pad4(n: int): string
    requires 0 <= n <= 9999
  {
    Pad2(n / 100) + Pad2(n % 100)
  }

  /** `%Y`: four zero-padded digits for the years 0..9999. */
  function YearText(y: int): (s: string)
    ensures |s| > 0
  {
    if 0 <= y <= 9999 then Pad4(y)
    else if y < 0 then "-" + Decimal(-y)
    else Decimal(y)
  }

  /** `strftime("%Y-%m-%d")`. */
  function Format(d: Date): (s: string)
    requires ValidDate(d)
    ensures |s| > 0
  {
    YearText(d.year) + "-" + Pad2(d.month) + "-" + Pad2(d.day)
  }

  /** Reads the fields of a `YYYY-MM-DD` string back (no calendar check). */
  function DateOf(s: string): Date
    requires IsDateShape(s)
  {
    Date(DigitValue(s[0]) * 1000 + DigitValue(s[1]) * 100 + DigitValue(s[2]) * 10 + DigitValue(s[3]),
         DigitValue(s[5]) * 10 + DigitValue(s[6]),
         DigitValue(s[8]) * 10 + DigitValue(s[9]))
  }

  /** Formatting a day of the years 0..9999 gives a `YYYY-MM-DD` string that
      reads back as the same day. */
  lemma FormatRoundTrip(d: Date)
    requires ValidDate(d) && 0 <= d.year <= 9999
    ensures IsDateShape(Format(d)) && DateOf(Format(d)) == d
  {
    var s := Format(d);
    assert s == Pad4(d.year) + "-" + Pad2(d.month) + "-" + Pad2(d.day);
    Pad4Digits(d.year);
    Pad2Digits(d.month);
    Pad2Digits(d.day);
  }

  lemma Pad2Digits(n: int)
    requires 0 <= n <= 99
    ensures DigitValue(Pad2(n)[0]) * 10 + DigitValue(Pad2(n)[1]) == n
  {
  }

  lemma Pad4Digits(n: int)
    requires 0 <= n <= 9999
    ensures var s := Pad4(n);
      DigitValue(s[0]) * 1000 + DigitValue(s[1]) * 100 + DigitValue(s[2]) * 10 + DigitValue(s[3]) == n
  {
    var hi, lo := n / 100, n % 100;
    assert n == hi * 100 + lo;
    Pad2Digits(hi);
    Pad2Digits(lo);
    var s := Pad4(n);
    assert s[0] == Pad2(hi)[0] && s[1] == Pad2(hi)[1] && s[2] == Pad2(lo)[0] && s[3] == Pad2(lo)[1];
  }

  /** Conversely, a `YYYY-MM-DD` string that names a real day is exactly the
      formatting of that day. */
  lemma FormatOfDateOf(s: string)
    requires IsDateShape(s) && ValidDate(DateOf(s))
    ensures Format(DateOf(s)) == s
  {
    var d := DateOf(s);
    Pad4OfDigits(s[0], s[1], s[2], s[3]);
    Pad2OfDigits(s[5], s[6]);
    Pad2OfDigits(s[8], s[9]);
    assert s == [s[0], s[1], s[2], s[3]] + "-" + [s[5], s[6]] + "-" + [s[8], s[9]];
  }

  lemma Pad2OfDigits(a: char, b: char)
    requires IsDigit(a) && IsDigit(b)
    ensures Pad2(DigitValue(a) * 10 + DigitValue(b)) == [a, b]
  {
    var n := DigitValue(a) * 10 + DigitValue(b);
    assert n / 10 == DigitValue(a) && n % 10 == DigitValue(b);
    DigitCharOfValue(a);
    DigitCharOfValue(b);
  }

  lemma Pad4OfDigits(a: char, b: char, c: char, e: char)
    requires IsDigit(a) && IsDigit(b) && IsDigit(c) && IsDigit(e)
    ensures Pad4(DigitValue(a) * 1000 + DigitValue(b) * 100 + DigitValue(c) * 10 + DigitValue(e)) == [a, b, c, e]
  {
    var hi, lo := DigitValue(a) * 10 + DigitValue(b), DigitValue(c) * 10 + DigitValue(e);
    var n := DigitValue(a) * 1000 + DigitValue(b) * 100 + DigitValue(c) * 10 + DigitValue(e);
    assert n == hi * 100 + lo;
    assert n / 100 == hi && n % 100 == lo;
    Pad2OfDigits(a, b);
    Pad2OfDigits(c, e);
  }

  /** Two different days of the years 0..9999 never share a date key. */
  lemma FormatInjective(a: Date, b: Date)
    requires ValidDate(a) && 0 <= a.year <= 9999
    requires ValidDate(b) && 0 <= b.year <= 9999
    ensures Format(a) == Format(b) <==> a == b
  {
    FormatRoundTrip(a);
    FormatRoundTrip(b);
  }
}
