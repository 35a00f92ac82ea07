/** The two date conversions of bdk/rtc/max77620-rtc.c against a calendar that counts day
    by day. */
module Calendar {
  // ----- the calendar, one day after the other

  datatype Date = Date(year: int, month: int, day: int)

  const FIRST := Date(1970, 1, 1)

  predicate Leap(year: int) {
    year % 4 == 0 && (year % 100 != 0 || year % 400 == 0)
  }

  function MonthDays(year: int, month: int): int {
    if month == 2 then if Leap(year) then 29 else 28
    else if month in {4, 6, 9, 11} then 30 else 31
  }

  /** A date of the Gregorian calendar, not before 1970. */
  predicate ValidDate(d: Date) {
    1970 <= d.year && 1 <= d.month <= 12 && 1 <= d.day <= MonthDays(d.year, d.month)
  }

  function Next(d: Date): Date {
    if d.day < MonthDays(d.year, d.month) then Date(d.year, d.month, d.day + 1)
    else if d.month < 12 then Date(d.year, d.month + 1, 1)
    else Date(d.year + 1, 1, 1)
  }

  function Previous(d: Date): (r: Date)
    requires ValidDate(d) && d != FIRST
    ensures ValidDate(r) && Next(r) == d && Earlier(r, d)
  {
    if d.day > 1 then Date(d.year, d.month, d.day - 1)
    else if d.month > 1 then Date(d.year, d.month - 1, MonthDays(d.year, d.month - 1))
    else Date(d.year - 1, 12, 31)
  }

  /** The date `n` days after 1 January 1970. */
  function After(n: nat): Date {
    if n == 0 then FIRST else Next(After(n - 1))
  }

  /** The number of days back to 1 January 1970. */
  function Days(d: Date): nat
    requires ValidDate(d)
    decreases d.year, d.month, d.day
  {
    if d == FIRST then 0 else Days(Previous(d)) + 1
  }

  predicate Earlier(a: Date, b: Date) {
    a.year < b.year || (a.year == b.year && (a.month < b.month || (a.month == b.month && a.day < b.day)))
  }

  lemma {:induction false} DaysAfter(n: nat)
    ensures ValidDate(After(n)) && Days(After(n)) == n
  {
    if n > 0 {
      DaysAfter(n - 1);
      PreviousNext(After(n - 1));
    }
  }

  lemma PreviousNext(d: Date)
    requires ValidDate(d)
    ensures ValidDate(Next(d)) && Next(d) != FIRST && Previous(Next(d)) == d
  {
  }

  lemma {:induction false} AfterDays(d: Date)
    requires ValidDate(d)
    ensures After(Days(d)) == d
    decreases d.year, d.month, d.day
  {
    if d != FIRST { AfterDays(Previous(d)); }
  }

  lemma {:induction false} EarlierDays(a: Date, b: Date)
    requires ValidDate(a) && ValidDate(b) && Earlier(a, b)
    ensures Days(a) < Days(b)
    decreases b.year, b.month, b.day
  {
    if Previous(b) != a { EarlierDays(a, Previous(b)); }
  }

  // ----- from a date to a number of days

  function YearDays(year: int): int {
    365 * year + year / 4 - year / 100 + year / 400
  }

  function MonthOffset(month: int): int {
    30 * month + 3 * (month + 1) / 5
  }

  /** Days by the formula of the code: the year starts in March. */
  function ByFormula(d: Date): int {
    if d.month < 3 then YearDays(d.year - 1) + MonthOffset(d.month + 12) + d.day - 719561
    else YearDays(d.year) + MonthOffset(d.month) + d.day - 719561
  }

  lemma Step4(y: int)
    ensures y / 4 == (y - 1) / 4 + if y % 4 == 0 then 1 else 0
  {
  }

  lemma Step100(y: int)
    ensures y / 100 == (y - 1) / 100 + if y % 100 == 0 then 1 else 0
  {
  }

  lemma Step400(y: int)
    ensures y / 400 == (y - 1) / 400 + if y % 400 == 0 then 1 else 0
  {
  }

  lemma Centuries(y: int)
    ensures y % 400 == 0 ==> y % 100 == 0
    ensures y % 100 == 0 ==> y % 4 == 0
  {
    assert y % 400 == 0 ==> y == 400 * (y / 400);
    assert y % 100 == 0 ==> y == 100 * (y / 100);
    Multiples(y / 400, y / 100);
  }

  lemma Multiples(p: int, q: int)
    ensures (400 * p) % 100 == 0 && (100 * q) % 4 == 0
  {
  }

  lemma LeapStep(y: int)
    ensures YearDays(y) == YearDays(y - 1) + 365 + if Leap(y) then 1 else 0
  {
    Step4(y);
    Step100(y);
    Step400(y);
    Centuries(y);
  }

  lemma FormulaStep(d: Date)
    requires ValidDate(d) && d != FIRST
    ensures ByFormula(d) == ByFormula(Previous(d)) + 1
  {
    hide YearDays, Leap;
    if d.month == 3 && d.day == 1 { LeapStep(d.year); }
  }

  lemma {:induction false} FormulaCounts(d: Date)
    requires ValidDate(d)
    ensures ByFormula(d) == Days(d)
    decreases d.year, d.month, d.day
  {
    hide ByFormula;
    if d == FIRST {
      FormulaFirst();
    } else {
      FormulaCounts(Previous(d));
      FormulaStep(d);
    }
  }

  lemma FormulaFirst()
    ensures ByFormula(FIRST) == 0
  {
  }

  // ----- from a number of days to a date

  const LAST_DAY := 49710

  /** Days since 1 March of the year -4716 of a calendar that skips nothing after 2100. */
  function Shifted(n: nat): nat {
    var c := (4 * n + 102032) / 146097 + 15;
    n + 2442113 + c - c / 4
  }

  lemma ShiftedIs(n: nat)
    requires n <= LAST_DAY
    ensures Shifted(n) == n + if n < 47541 then 2442125 else 2442126
  {
  }

  /** The year, the days into it and the month that the code derives. */
  predicate Split(tmp: int, year: int, edays: int, month: int, day: int) {
    year == (20 * tmp - 2442) / 7305 && edays == tmp - 365 * year - year / 4 &&
    month == edays * 1000 / 30601 && day == edays - month * 30 - month * 601 / 1000
  }

  function MonthStart(month: int): int {
    30 * month + month * 601 / 1000
  }

  lemma SplitRange(tmp: int, year: int, edays: int, month: int, day: int)
    requires Split(tmp, year, edays, month, day) && 2442125 <= tmp <= 2491836
    ensures 6685 <= year <= 6822 && 123 <= edays <= (if year % 4 == 3 then 488 else 487)
    ensures 4 <= month <= 15
  {
  }

  lemma MonthTable(edays: int, month: int)
    requires 123 <= edays <= 488 && month == edays * 1000 / 30601
    ensures 4 <= month <= 15 && MonthStart(month) < edays
    ensures month < 15 ==> edays <= MonthStart(month + 1)
    ensures MonthStart(month) == 30 * month + 3 * month / 5
  {
  }

  function Shown(year: int, month: int, day: int): Date {
    if month < 14 then Date(year - 4716, month - 1, day) else Date(year - 4715, month - 13, day)
  }

  lemma ShownFormula(year: int, month: int, day: int)
    requires 4 <= month <= 15 && 6685 <= year <= 6822
    ensures ByFormula(Shown(year, month, day)) ==
      365 * year + year / 4 + 30 * month + 3 * month / 5 + day - if year - 4716 < 2100 then 2442125 else 2442126
  {
    hide YearDays;
    YearsAround2100(year, year - 4716);
  }

  lemma YearsAround2100(year: int, y: int)
    requires 1969 <= y <= 2106 && year == y + 4716
    ensures YearDays(y) == 365 * year + year / 4 - 1722519 - if y < 2100 then 15 else 16
  {
    assert year / 4 == y / 4 + 1179;
    assert y / 400 == if y < 2000 then 4 else 5;
    assert y / 100 == if y < 2000 then 19 else if y < 2100 then 20 else 21;
  }

  lemma ShownValid(tmp: int, year: int, edays: int, month: int, day: int)
    requires Split(tmp, year, edays, month, day) && 2442125 <= tmp <= 2491836 && tmp != 2489666
    ensures ValidDate(Shown(year, month, day))
  {
    SplitRange(tmp, year, edays, month, day);
    SplitParts(tmp, year, edays, month, day);
    MonthTable(edays, month);
    hide Split, Leap;
    if month == 15 {
      ShownFebruary(tmp, year, edays, day);
    } else {
      ShownMonth(tmp, year, edays, month, day);
    }
  }

  lemma ShownFebruary(tmp: int, year: int, edays: int, day: int)
    requires edays == tmp - 365 * year - year / 4 && 6685 <= year <= 6822 && day == edays - MonthStart(15) > 0
    requires tmp != 2489666 && edays <= if year % 4 == 3 then 488 else 487
    ensures 0 < day <= MonthDays(year - 4715, 2)
  {
  }

  lemma ShownMonth(tmp: int, year: int, edays: int, month: int, day: int)
    requires edays == tmp - 365 * year - year / 4 && tmp >= 2442125
    requires 6685 <= year && 4 <= month < 15 && day == edays - MonthStart(month) > 0 && edays <= MonthStart(month + 1)
    ensures ValidDate(Shown(year, month, day))
  {
    hide Leap;
  }

  lemma DateOfDays(n: nat, tmp: int, year: int, edays: int, month: int, day: int)
    requires n <= LAST_DAY && tmp == Shifted(n) && Split(tmp, year, edays, month, day)
    ensures Shown(year, month, day) == After(n)
  {
    hide ByFormula, Shifted, Shown, Split;
    ShiftedIs(n);
    SplitParts(tmp, year, edays, month, day);
    SplitRange(tmp, year, edays, month, day);
    MonthTable(edays, month);
    ShownFormula(year, month, day);
    var d := Shown(year, month, day);
    ShownValid(tmp, year, edays, month, day);
    FormulaCounts(d);
    AfterDays(d);
  }

  lemma SplitParts(tmp: int, year: int, edays: int, month: int, day: int)
    requires Split(tmp, year, edays, month, day)
    ensures edays == tmp - 365 * year - year / 4 && day == edays - MonthStart(month)
    ensures month == edays * 1000 / 30601
    ensures tmp <= 2489666 ==> year <= 6815
    ensures tmp > 2489666 ==> year >= 6816
  {
  }
}
