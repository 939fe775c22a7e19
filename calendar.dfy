/** Proleptic Gregorian calendar dates, as Python's datetime uses them. */
module Calendar {

  datatype Date = Date(year: int, month: int, day: int)

  predicate IsLeapYear(y: int) {
    y % 4 == 0 && (y % 100 != 0 || y % 400 == 0)
  }

  function DaysInMonth(y: int, m: int): int
    requires 1 <= m <= 12
  {
    if m == 2 then (if IsLeapYear(y) then 29 else 28)
    else if m == 4 || m == 6 || m == 9 || m == 11 then 30
    else 31
  }

  predicate IsValid(d: Date) {
    1 <= d.month <= 12 && 1 <= d.day <= DaysInMonth(d.year, d.month)
  }

  /** A date that exists on the calendar: what a successful `%Y-%m-%d` parse yields. */
  type CalendarDate = d: Date | IsValid(d) witness Date(1970, 1, 1)

  /** Offsets of Sakamoto's weekday method, one per month. */
  const MonthOffsets: seq<int> := [0, 3, 2, 5, 0, 3, 5, 1, 4, 6, 2, 4]

  /** English weekday names in the order of Python's `date.weekday()` (Monday is 0). */
  const DayNames: seq<string> :=
    ["Monday", "Tuesday", "Wednesday", "Thursday", "Friday", "Saturday", "Sunday"]

  /** Days contributed by the years before `y` to Sakamoto's weekday method. */
  function YearTerm(y: int): int {
    y + y / 4 - y / 100 + y / 400
  }

  /** Day of the week, 0 = Monday .. 6 = Sunday. */
  function Weekday(d: CalendarDate): (w: int)
    ensures 0 <= w < 7
  {
    var y := if d.month < 3 then d.year - 1 else d.year;
    // Sakamoto's method counts from Sunday; shift so that Monday is 0.
    (YearTerm(y) + MonthOffsets[d.month - 1] + d.day + 6) % 7
  }

  /** What pandas' `Series.dt.day_name()` gives for a date. */
  function DayName(d: CalendarDate): string {
    DayNames[Weekday(d)]
  }

  /** The calendar day after `d`. */
  function NextDay(d: CalendarDate): CalendarDate {
    if d.day < DaysInMonth(d.year, d.month) then Date(d.year, d.month, d.day + 1)
    else if d.month < 12 then Date(d.year, d.month + 1, 1)
    else Date(d.year + 1, 1, 1)
  }

  lemma Div4Step(y: int)
    ensures y / 4 - (y - 1) / 4 == if y % 4 == 0 then 1 else 0
  {
  }

  lemma Div100Step(y: int)
    ensures y / 100 - (y - 1) / 100 == if y % 100 == 0 then 1 else 0
  {
  }

  lemma Div400Step(y: int)
    ensures y / 400 - (y - 1) / 400 == if y % 400 == 0 then 1 else 0
  {
  }

  lemma MultipleOf4(m: int)
    ensures (4 * m) % 4 == 0
  {
  }

  lemma MultipleOf100(m: int)
    ensures (100 * m) % 100 == 0
  {
  }

  lemma DivisibilityChain(y: int)
    ensures y % 400 == 0 ==> y % 100 == 0
    ensures y % 100 == 0 ==> y % 4 == 0
  {
    if y % 400 == 0 {
      var k := y / 400;
      assert y == 100 * (4 * k);
      MultipleOf100(4 * k);
    }
    if y % 100 == 0 {
      var k := y / 100;
      assert y == 4 * (25 * k);
      MultipleOf4(25 * k);
    }
  }

  /** Across the end of February the year term grows by one day more in a leap year. */
  lemma YearTermStep(y: int)
    ensures YearTerm(y) - YearTerm(y - 1) == if IsLeapYear(y) then 2 else 1
  {
    Div4Step(y);
    Div100Step(y);
    Div400Step(y);
    DivisibilityChain(y);
  }

  lemma ModShift(before: int, after: int, k: int)
    requires after == before + 1 - 7 * k
    ensures after % 7 == (before % 7 + 1) % 7
  {
  }

  /** Weekdays follow one another day by day, so the formula agrees with the calendar everywhere. */
  lemma NextDayIsNextWeekday(d: CalendarDate)
    ensures Weekday(NextDay(d)) == (Weekday(d) + 1) % 7
  {
    var y := if d.month < 3 then d.year - 1 else d.year;
    var before := YearTerm(y) + MonthOffsets[d.month - 1] + d.day + 6;
    assert Weekday(d) == before % 7;
    var n := NextDay(d);
    var y' := if n.month < 3 then n.year - 1 else n.year;
    var after := YearTerm(y') + MonthOffsets[n.month - 1] + n.day + 6;
    assert Weekday(n) == after % 7;
    if d.day < DaysInMonth(d.year, d.month) {
      ModShift(before, after, 0);
    } else if d.month == 2 {
      YearTermStep(d.year);
      ModShift(before, after, 4);
    } else if d.month == 12 {
      ModShift(before, after, 5);
    } else {
      var k := (MonthOffsets[d.month - 1] - MonthOffsets[d.month] + DaysInMonth(d.year, d.month)) / 7;
      assert after == before + 1 - 7 * k by {
        assert y == y';
        assert d.month in {1, 3, 4, 5, 6, 7, 8, 9, 10, 11};
      }
      ModShift(before, after, k);
    }
  }

  /** 1 January 2024 was a Monday. */
  lemma NewYear2024IsMonday()
    ensures DayName(Date(2024, 1, 1)) == "Monday"
  {
  }
}
