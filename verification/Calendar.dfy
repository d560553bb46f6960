/** The day numbers of DateText are those of the Gregorian calendar: a closed formula, and no day is left out. */
module Calendar {
  import opened DateText

  /** Counting years from March on, so that the leap day is the last one. */
  function GregorianDay(d: Date): int {
    var y := if d.month > 2 then d.year else d.year - 1;
    var m := if d.month > 2 then d.month - 3 else d.month + 9;
    365 * y + y / 4 - y / 100 + y / 400 + (153 * m + 2) / 5 + d.day - 306
  }

  lemma YearLength(y: int)
    ensures MonthStart(y, 13) == if IsLeap(y) then 366 else 365
  {
    assert MonthStart(y, 3) == MonthStart(y, 2) + DaysInMonth(y, 2) == 31 + DaysInMonth(y, 2);
    SinceMarch(y, 13);
  }

  lemma {:induction false} SinceMarch(y: int, m: int)
    requires 3 <= m <= 13
    ensures MonthStart(y, m) == MonthStart(y, 3) + (153 * (m - 3) + 2) / 5
    decreases m
  {
    if m > 3 {
      SinceMarch(y, m - 1);
    }
  }

  lemma Division(y: int, q: int, r: int, k: int)
    requires y == q * k + r && 0 <= r < k
    ensures y / k == q && y % k == r
  {
    var p := y / k;
    assert p < q ==> (p + 1) * k <= q * k;
    assert p > q ==> (q + 1) * k <= p * k;
  }

  lemma QuotientStep(y: int, k: int)
    requires k > 1
    ensures y / k == (y - 1) / k + if y % k == 0 then 1 else 0
  {
    var q, r := (y - 1) / k, (y - 1) % k;
    if r + 1 < k {
      Division(y, q, r + 1, k);
    } else {
      assert (q + 1) * k == q * k + k;
      Division(y, q + 1, 0, k);
    }
  }

  lemma Divisible(y: int)
    ensures y % 400 == 0 ==> y % 100 == 0
    ensures y % 100 == 0 ==> y % 4 == 0
  {
    if y % 400 == 0 {
      Division(y, 4 * (y / 400), 0, 100);
    }
    if y % 100 == 0 {
      Division(y, 25 * (y / 100), 0, 4);
    }
  }

  lemma LeapYears(y: int)
    ensures y / 4 - y / 100 + y / 400 == (y - 1) / 4 - (y - 1) / 100 + (y - 1) / 400 + if IsLeap(y) then 1 else 0
  {
    QuotientStep(y, 4);
    QuotientStep(y, 100);
    QuotientStep(y, 400);
    Divisible(y);
  }

  lemma {:induction false} YearStartClosed(y: int)
    requires 1 <= y
    ensures YearStart(y) == 365 * (y - 1) + (y - 1) / 4 - (y - 1) / 100 + (y - 1) / 400
    decreases y
  {
    hide MonthStart, IsLeap;
    if y > 1 {
      YearStartClosed(y - 1);
      YearLength(y - 1);
      LeapYears(y - 1);
    }
  }

  /** A day has the number that the formula of the Gregorian calendar gives it. */
  lemma DayNumberIsGregorian(d: Date)
    requires ValidDate(d) && 1 <= d.year
    ensures DayNumber(d) == GregorianDay(d)
  {
    hide IsLeap, YearStart;
    YearStartClosed(d.year);
    if d.month > 2 {
      SinceMarch(d.year, d.month);
      LeapYears(d.year);
      assert MonthStart(d.year, 3) == MonthStart(d.year, 2) + DaysInMonth(d.year, 2) == 31 + DaysInMonth(d.year, 2);
    } else {
      assert MonthStart(d.year, 2) == 31;
    }
  }

  function NextDay(d: Date): Date {
    if d.day < DaysInMonth(d.year, d.month) then Date(d.year, d.month, d.day + 1)
    else if d.month < 12 then Date(d.year, d.month + 1, 1)
    else Date(d.year + 1, 1, 1)
  }

  lemma NextDayNumber(d: Date)
    requires ValidDate(d) && 1 <= d.year
    ensures ValidDate(NextDay(d)) && DayNumber(NextDay(d)) == DayNumber(d) + 1
  {
  }

  /** Every positive number is the number of a day. */
  lemma {:induction false} EveryNumberIsADay(n: nat) returns (d: Date)
    requires n >= 1
    ensures ValidDate(d) && 1 <= d.year && DayNumber(d) == n
  {
    if n == 1 {
      d := Date(1, 1, 1);
    } else {
      var before := EveryNumberIsADay(n - 1);
      NextDayNumber(before);
      d := NextDay(before);
    }
  }
}
