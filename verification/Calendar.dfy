/** The proleptic Gregorian calendar. Days are counted from 0001-01-01 (day 0, a Monday).
    Months are numbered through the years: month k is month k % 12 + 1 of year k / 12. */
module Calendar {

  predicate IsLeap(y: int) {
    y % 4 == 0 && (y % 100 != 0 || y % 400 == 0)
  }

  function MonthLength(y: int, m: int): (n: int)
    requires 1 <= m <= 12
    ensures 28 <= n <= 31
  {
    if m == 2 then (if IsLeap(y) then 29 else 28)
    else if m == 4 || m == 6 || m == 9 || m == 11 then 30
    else 31
  }

  function LengthOfMonth(k: int): (n: int)
    ensures 28 <= n <= 31
  {
    MonthLength(k / 12, k % 12 + 1)
  }

  const JANUARY_0001 := 12

  /** The first day of month k. */
  function MonthStart(k: int): int
    decreases if k < JANUARY_0001 then JANUARY_0001 - k else k - JANUARY_0001
  {
    if k == JANUARY_0001 then 0
    else if k > JANUARY_0001 then MonthStart(k - 1) + LengthOfMonth(k - 1)
    else MonthStart(k + 1) - LengthOfMonth(k)
  }

  /** The month a day falls in, searched for from month k. */
  function MonthFrom(day: int, k: int): (r: int)
    ensures MonthStart(r) <= day < MonthStart(r + 1)
    decreases if day < MonthStart(k) then MonthStart(k) - day else 0, day - MonthStart(k)
  {
    NextMonth(k);
    NextMonth(k - 1);
    hide MonthStart, LengthOfMonth;
    if day < MonthStart(k) then MonthFrom(day, k - 1)
    else if MonthStart(k + 1) <= day then MonthFrom(day, k + 1)
    else k
  }

  function MonthIndex(day: int): (k: int)
    ensures MonthStart(k) <= day < MonthStart(k + 1)
  {
    hide MonthStart, LengthOfMonth;
    MonthFrom(day, JANUARY_0001)
  }

  function YearOf(day: int): int {
    MonthIndex(day) / 12
  }

  function MonthOf(day: int): (m: int)
    ensures 1 <= m <= 12
  {
    MonthIndex(day) % 12 + 1
  }

  function DayOfMonth(day: int): (d: int)
    ensures 1 <= d <= MonthLength(YearOf(day), MonthOf(day))
  {
    NextMonth(MonthIndex(day));
    day - MonthStart(MonthIndex(day)) + 1
  }

  /** The day number of the date y-m-d. */
  function DayNumber(y: int, m: int, d: int): int
    requires 1 <= m <= 12
  {
    MonthStart(12 * y + m - 1) + d - 1
  }

  lemma {:induction false} NextMonth(k: int)
    ensures MonthStart(k + 1) == MonthStart(k) + LengthOfMonth(k)
  {
  }

  /** A function of the integers that grows at every step grows over every distance. */
  lemma {:induction false} Climb(f: int -> int, j: int, k: int)
    requires forall i :: f(i) < f(i + 1)
    requires j < k
    ensures f(j + 1) <= f(k)
    decreases k - j
  {
    if j + 1 < k {
      Climb(f, j + 1, k);
    }
  }

  lemma {:induction false} MonthOrder(j: int, k: int)
    requires j < k
    ensures MonthStart(j + 1) <= MonthStart(k)
  {
    forall i ensures MonthStart(i) < MonthStart(i + 1) {
      NextMonth(i);
    }
    Climb(MonthStart, j, k);
  }

  /** A day belongs to exactly one month, so its fields can be read off any month that
      reaches it. */
  lemma {:induction false} FieldsAreUnique(k: int, d: int)
    requires 1 <= d <= LengthOfMonth(k)
    ensures var day := MonthStart(k) + d - 1; MonthIndex(day) == k && DayOfMonth(day) == d
  {
    hide MonthStart, LengthOfMonth;
    var j := MonthIndex(MonthStart(k) + d - 1);
    NextMonth(k);
    if j < k {
      MonthOrder(j, k);
    } else if k < j {
      MonthOrder(k, j);
    }
  }

  /** Dates and day numbers determine each other. */
  lemma {:induction false} DateRoundTrip(y: int, m: int, d: int, day: int)
    requires 1 <= m <= 12 && 1 <= d <= MonthLength(y, m)
    ensures DayNumber(y, m, d) == day
      <==> (YearOf(day) == y && MonthOf(day) == m && DayOfMonth(day) == d)
  {
    NumberHasFields(y, m, d);
    FieldsHaveNumber(day);
    hide *;
  }

  lemma {:induction false} NumberHasFields(y: int, m: int, d: int)
    requires 1 <= m <= 12 && 1 <= d <= MonthLength(y, m)
    ensures var day := DayNumber(y, m, d); YearOf(day) == y && MonthOf(day) == m && DayOfMonth(day) == d
  {
    hide *;
    var k := 12 * y + m - 1;
    MonthFields(y, m);
    MonthOfYear(y, m, d);
    FieldsAreUnique(k, d);
    FieldsOf(MonthStart(k) + d - 1);
  }

  lemma {:induction false} MonthOfYear(y: int, m: int, d: int)
    requires 1 <= m <= 12
    ensures LengthOfMonth(12 * y + m - 1) == MonthLength(y, m)
    ensures DayNumber(y, m, d) == MonthStart(12 * y + m - 1) + d - 1
  {
    MonthFields(y, m);
    hide MonthStart, MonthLength;
  }

  lemma {:induction false} FieldsOf(day: int)
    ensures YearOf(day) == MonthIndex(day) / 12 && MonthOf(day) == MonthIndex(day) % 12 + 1
  {
    hide MonthIndex;
  }

  lemma {:induction false} FieldsHaveNumber(day: int)
    ensures DayNumber(YearOf(day), MonthOf(day), DayOfMonth(day)) == day
  {
    hide MonthStart, LengthOfMonth, MonthIndex;
    assert MonthIndex(day) == 12 * YearOf(day) + MonthOf(day) - 1;
  }

  lemma {:induction false} MonthFields(y: int, m: int)
    requires 1 <= m <= 12
    ensures (12 * y + m - 1) / 12 == y && (12 * y + m - 1) % 12 == m - 1
  {
  }

  // ---- The closed form ----

  function DaysBeforeYear(y: int): int {
    365 * (y - 1) + (y - 1) / 4 - (y - 1) / 100 + (y - 1) / 400
  }

  lemma {:induction false} Quotient(k: int, n: int, q: int, r: int)
    requires 0 <= r < n && k == q * n + r
    ensures k / n == q && k % n == r
  {
    var d := k / n - q;
    assert d * n == r - k % n;
    Multiples(d, n);
  }

  lemma {:induction false} Multiples(d: int, n: int)
    requires n > 0
    ensures d >= 1 ==> d * n >= n
    ensures d <= -1 ==> d * n <= -n
  {
    if d >= 1 {
      assert (d - 1) * n >= 0;
    } else if d <= -1 {
      assert (-d - 1) * n >= 0;
    }
  }

  lemma {:induction false} NextQuotient(y: int, n: int)
    requires n > 1
    ensures y / n == (y - 1) / n + (if y % n == 0 then 1 else 0)
  {
    if y % n == 0 {
      Quotient(y - 1, n, y / n - 1, n - 1);
    } else {
      Quotient(y - 1, n, y / n, y % n - 1);
    }
  }

  lemma {:induction false} ClosedFormStep(y: int)
    ensures DaysBeforeYear(y + 1) == DaysBeforeYear(y) + (if IsLeap(y) then 366 else 365)
  {
    NextQuotient(y, 4);
    NextQuotient(y, 100);
    NextQuotient(y, 400);
    if y % 400 == 0 {
      Quotient(y, 100, 4 * (y / 400), 0);
    }
    if y % 100 == 0 {
      Quotient(y, 4, 25 * (y / 100), 0);
    }
  }

  lemma {:induction false} MonthStep(y: int, m: int)
    requires 1 <= m <= 12
    ensures MonthStart(12 * y + m) == MonthStart(12 * y + m - 1) + MonthLength(y, m)
  {
    NextMonth(12 * y + m - 1);
    MonthFields(y, m);
  }

  lemma {:induction false} YearStep(y: int)
    ensures MonthStart(12 * (y + 1)) == MonthStart(12 * y) + (if IsLeap(y) then 366 else 365)
  {
    hide MonthStart, IsLeap;
    MonthStep(y, 1); MonthStep(y, 2); MonthStep(y, 3); MonthStep(y, 4);
    MonthStep(y, 5); MonthStep(y, 6); MonthStep(y, 7); MonthStep(y, 8);
    MonthStep(y, 9); MonthStep(y, 10); MonthStep(y, 11); MonthStep(y, 12);
    assert 12 * (y + 1) == 12 * y + 12;
  }

  /** Summing month lengths agrees with the Gregorian closed form. */
  lemma {:induction false} YearStartClosedForm(y: int)
    ensures MonthStart(12 * y) == DaysBeforeYear(y)
    decreases if y < 1 then 1 - y else y - 1
  {
    assert MonthStart(JANUARY_0001) == 0;
    hide MonthStart;
    if y > 1 {
      YearStartClosedForm(y - 1);
      YearStep(y - 1);
      ClosedFormStep(y - 1);
    } else if y < 1 {
      YearStartClosedForm(y + 1);
      YearStep(y);
      ClosedFormStep(y);
    }
  }

  /** Where each month begins, without adding up months. */
  lemma {:induction false} MonthStartClosedForm(y: int, m: int)
    requires 1 <= m <= 12
    ensures DayNumber(y, m, 1)
      == DaysBeforeYear(y) + (367 * m - 362) / 12 + (if m <= 2 then 0 else if IsLeap(y) then -1 else -2)
    decreases m
  {
    hide MonthStart, IsLeap, DaysBeforeYear;
    if m == 1 {
      YearStartClosedForm(y);
    } else {
      MonthStartClosedForm(y, m - 1);
      MonthStep(y, m - 1);
    }
  }

  /** What each month adds to the weekday. */
  function MonthTable(m: int): int
    requires 1 <= m <= 12
  {
    [6, 2, 1, 4, 6, 2, 4, 0, 3, 5, 1, 3][m - 1]
  }

  /** The days of the week, counted from Monday, by the common table of month offsets. */
  function WeekdayOf(y: int, m: int, d: int): int
    requires 1 <= m <= 12
  {
    var year := if m <= 2 then y - 1 else y;
    (year + year / 4 - year / 100 + year / 400 + MonthTable(m) + d) % 7
  }

  /** Every date falls on the weekday the table gives it; 1 January 1970 was a Thursday. */
  lemma {:induction false} WeekdayClosedForm(y: int, m: int, d: int)
    requires 1 <= m <= 12
    ensures DayNumber(y, m, d) % 7 == WeekdayOf(y, m, d) && DayNumber(1970, 1, 1) % 7 == 3
  {
    hide *;
    MonthWeekday(y, m, d);
    Thursday();
  }

  lemma {:induction false} Thursday()
    ensures DayNumber(1970, 1, 1) % 7 == 3
  {
    hide *;
    MonthStartClosedForm(1970, 1);
    DaysTo1970();
  }

  lemma {:induction false} DaysTo1970()
    ensures DaysBeforeYear(1970) == 719162 == 7 * 102737 + 3
  {
  }

  lemma {:induction false} MonthWeekday(y: int, m: int, d: int)
    requires 1 <= m <= 12
    ensures DayNumber(y, m, d) % 7 == WeekdayOf(y, m, d)
  {
    hide *;
    var year := if m <= 2 then y - 1 else y;
    var weeks := year + year / 4 - year / 100 + year / 400;
    var offset := (367 * m - 362) / 12 - (if m <= 2 then 0 else 367) - 1 - MonthTable(m);
    MonthFromMarch(y, m);
    YearInWeeks(year, weeks);
    TableFits(m);
    LaterInTheMonth(y, m, d);
    WeekdayIs(y, m, d, year, weeks);
    SameWeekday(DayNumber(y, m, d), weeks + MonthTable(m) + d, 52 * year + offset / 7);
  }

  lemma {:induction false} LaterInTheMonth(y: int, m: int, d: int)
    requires 1 <= m <= 12
    ensures DayNumber(y, m, d) == DayNumber(y, m, 1) + d - 1
  {
    hide MonthStart;
  }

  lemma {:induction false} WeekdayIs(y: int, m: int, d: int, year: int, weeks: int)
    requires 1 <= m <= 12 && year == (if m <= 2 then y - 1 else y)
    requires weeks == year + year / 4 - year / 100 + year / 400
    ensures WeekdayOf(y, m, d) == (weeks + MonthTable(m) + d) % 7
  {
    hide MonthTable;
  }

  lemma {:induction false} YearInWeeks(year: int, weeks: int)
    requires weeks == year + year / 4 - year / 100 + year / 400
    ensures DaysBeforeYear(year + 1) == 364 * year + weeks
  {
  }

  lemma {:induction false} TableFits(m: int)
    requires 1 <= m <= 12
    ensures ((367 * m - 362) / 12 - (if m <= 2 then 0 else 367) - 1 - MonthTable(m)) % 7 == 0
  {
    assert m in {1, 2, 3, 4, 5, 6, 7, 8, 9, 10, 11, 12};
  }

  /** Counted from March the leap day comes last. */
  lemma {:induction false} MonthFromMarch(y: int, m: int)
    requires 1 <= m <= 12
    ensures DayNumber(y, m, 1)
      == (if m <= 2 then DaysBeforeYear(y) else DaysBeforeYear(y + 1) - 367) + (367 * m - 362) / 12
  {
    MonthStartClosedForm(y, m);
    ClosedFormStep(y);
    hide DayNumber, DaysBeforeYear, IsLeap;
  }

  lemma {:induction false} SameWeekday(a: int, b: int, weeks: int)
    requires a == b + 7 * weeks
    ensures a % 7 == b % 7
  {
    Quotient(a, 7, b / 7 + weeks, b % 7);
  }
}
