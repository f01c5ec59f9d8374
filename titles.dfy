/**
 * The exam title the create handler derives: the subject, " Exam - ", and the
 * date formatted as `strftime('%B %d, %Y')` does in the C locale: the full
 * English month name, the day as two digits, a comma, and the year as four digits.
 */
module Titles {
  import opened Optional
  import opened Records

  function MonthName(m: int): string
    requires 1 <= m <= 12
  {
    if m == 1 then "January" else if m == 2 then "February" else if m == 3 then "March"
    else if m == 4 then "April" else if m == 5 then "May" else if m == 6 then "June"
    else if m == 7 then "July" else if m == 8 then "August" else if m == 9 then "September"
    else if m == 10 then "October" else if m == 11 then "November" else "December"
  }

  /** The month called `name`, or 0 when `name` is no month name. */
  function MonthNumber(name: string): (m: int)
    ensures m == 0 || 1 <= m <= 12
    ensures m != 0 ==> name == MonthName(m)
    ensures m == 0 <==> forall k :: 1 <= k <= 12 ==> name != MonthName(k)
  {
    if name == "January" then 1 else if name == "February" then 2 else if name == "March" then 3
    else if name == "April" then 4 else if name == "May" then 5 else if name == "June" then 6
    else if name == "July" then 7 else if name == "August" then 8 else if name == "September" then 9
    else if name == "October" then 10 else if name == "November" then 11
    else if name == "December" then 12 else 0
  }

  lemma MonthNameRoundTrip(m: int)
    requires 1 <= m <= 12
    ensures MonthNumber(MonthName(m)) == m
  {
  }

  function Digit(k: int): char
    requires 0 <= k < 10
  {
    ('0' as int + k) as char
  }

  predicate IsDigit(c: char) {
    '0' <= c <= '9'
  }

  function DigitValue(c: char): int {
    c as int - '0' as int
  }

  /** `n` as exactly two decimal digits, zero-padded (`%d`). */
  function Pad2(n: int): (s: string)
    requires 0 <= n < 100
    ensures |s| == 2 && IsDigit(s[0]) && IsDigit(s[1])
    ensures 10 * DigitValue(s[0]) + DigitValue(s[1]) == n
  {
    [Digit(n / 10), Digit(n % 10)]
  }

  /** `n` as exactly four decimal digits, zero-padded (`%Y`). */
  function Pad4(n: int): (s: string)
    requires 0 <= n < 10000
    ensures |s| == 4 && forall i :: 0 <= i < 4 ==> IsDigit(s[i])
    ensures 100 * (10 * DigitValue(s[0]) + DigitValue(s[1])) + 10 * DigitValue(s[2]) + DigitValue(s[3]) == n
  {
    Pad2(n / 100) + Pad2(n % 100)
  }

  /** `date.strftime('%B %d, %Y')`, e.g. "June 01, 2025". */
  function FormatDate(d: Date): string
    requires ValidDate(d)
  {
    MonthName(d.month) + " " + Pad2(d.day) + ", " + Pad4(d.year)
  }

  /** The title a newly created exam gets. */
  function ExamTitle(subject: string, d: Date): string
    requires ValidDate(d)
  {
    subject + " Exam - " + FormatDate(d)
  }

  function Number(s: string): int {
    if s == [] then 0 else 10 * Number(s[..|s| - 1]) + DigitValue(s[|s| - 1])
  }

  /** Reads back a date written by `FormatDate`; None for any other text. */
  function ParseDisplayDate(s: string): Option<Date> {
    var n := |s|;
    if n < 12 || s[n - 9] != ' ' || s[n - 6..n - 4] != ", " then None
    else if !(forall i :: n - 8 <= i < n - 6 ==> IsDigit(s[i])) then None
    else if !(forall i :: n - 4 <= i < n ==> IsDigit(s[i])) then None
    else
      var m := MonthNumber(s[..n - 9]);
      if m == 0 then None else Some(Date(Number(s[n - 4..]), m, Number(s[n - 8..n - 6])))
  }

  lemma Pad2Number(k: int)
    requires 0 <= k < 100
    ensures Number(Pad2(k)) == k
  {
    var s := Pad2(k);
    assert s[..1][..0] == [];
    assert Number(s[..1]) == DigitValue(s[0]);
    assert Number(s) == 10 * Number(s[..1]) + DigitValue(s[1]);
  }

  lemma Pad4Number(k: int)
    requires 0 <= k < 10000
    ensures Number(Pad4(k)) == k
  {
    var s := Pad4(k);
    assert s[..3][..2][..1][..0] == [];
    assert s[..3][..2][..1] == s[..1] && s[..3][..2] == s[..2];
    assert Number(s[..1]) == DigitValue(s[0]);
    assert Number(s[..2]) == 10 * DigitValue(s[0]) + DigitValue(s[1]);
    assert Number(s[..3]) == 10 * Number(s[..2]) + DigitValue(s[2]);
    assert Number(s) == 10 * Number(s[..3]) + DigitValue(s[3]);
  }

  /** Formatting a valid date and reading it back gives the date again. */
  lemma DisplayDateRoundTrip(d: Date)
    requires ValidDate(d)
    ensures ParseDisplayDate(FormatDate(d)) == Some(d)
  {
    var name, day, year := MonthName(d.month), Pad2(d.day), Pad4(d.year);
    var s := FormatDate(d);
    var n := |s|;
    assert n == |name| + 9 && |name| >= 3;
    assert s[..n - 9] == name;
    assert s[n - 9] == ' ';
    assert s[n - 8..n - 6] == day;
    assert s[n - 6..n - 4] == ", ";
    assert s[n - 4..] == year;
    MonthNameRoundTrip(d.month);
    Pad2Number(d.day);
    Pad4Number(d.year);
  }

  /** Two valid dates give the same title for one subject only when they are the same date. */
  lemma ExamTitleInjective(subject: string, d1: Date, d2: Date)
    requires ValidDate(d1) && ValidDate(d2)
    requires ExamTitle(subject, d1) == ExamTitle(subject, d2)
    ensures d1 == d2
  {
    var prefix := subject + " Exam - ";
    assert ExamTitle(subject, d1)[|prefix|..] == FormatDate(d1);
    assert ExamTitle(subject, d2)[|prefix|..] == FormatDate(d2);
    DisplayDateRoundTrip(d1);
    DisplayDateRoundTrip(d2);
  }

  /** Physics on 2025-06-01 gets "Physics Exam - June 01, 2025". */
  lemma ExamTitleExample()
    ensures ExamTitle("Physics", Date(2025, 6, 1)) == "Physics Exam - June 01, 2025"
  {
  }
}
