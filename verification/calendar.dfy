/**
  The month grid of `src/components/cards/EventsCalendarCard.jsx`.

  Dates follow the proleptic Gregorian calendar of ECMA-262 (section 21.4.1),
  with months numbered 0 to 11 as in JavaScript and time of day left out.
  `DayNumber` counts days from 1970-01-01 by a closed formula that never
  consults the month-length table, so it serves as the independent reference
  for `DaysInMonth`, for the grid's leading blanks and for month navigation.
 */
module Calendar {
  predicate IsLeapYear(y: int) {
    y % 4 == 0 && (y % 100 != 0 || y % 400 == 0)
  }

  /** The length of month `m` (0 = January) of year `y`. */
  function DaysInMonth(y: int, m: int): (n: int)
    requires 0 <= m < 12
    ensures 28 <= n <= 31
    ensures m == 1 ==> (n == 29 <==> IsLeapYear(y))
  {
    if m == 1 then (if IsLeapYear(y) then 29 else 28)
    else if m == 3 || m == 5 || m == 8 || m == 10 then 30
    else 31
  }

  /** Days from March 1 of year 0 to March 1 of year `Y`, plus a constant. */
  function MarchStart(Y: int): int {
    365 * Y + Y / 4 - Y / 100 + Y / 400
  }

  /** Days from 1970-01-01 to day `d` of month `m` of year `y`. The year is
      taken to start in March, so that February, the only month of varying
      length, comes last and the month offsets are a fixed linear formula. */
  function DayNumber(y: int, m: int, d: int): int
    requires 0 <= m < 12
  {
    var Y := if m < 2 then y - 1 else y;
    var mp := if m < 2 then m + 10 else m - 2;
    MarchStart(Y) + MarchOffset(mp) + d - 1 - 719468
  }

  /** Days from March 1 to the first of the `mp`-th month counted from March. */
  function MarchOffset(mp: int): int {
    (153 * mp + 2) / 5
  }

  /** `getDay()`: 0 is Sunday; 1970-01-01 was a Thursday. */
  function Weekday(dayNumber: int): (w: int)
    ensures 0 <= w < 7
  {
    (dayNumber + 4) % 7
  }

  /** The month after `m` of year `y`. */
  function NextMonth(y: int, m: int): (r: (int, int))
    requires 0 <= m < 12
    ensures 0 <= r.1 < 12
    ensures 12 * r.0 + r.1 == 12 * y + m + 1
  {
    if m == 11 then (y + 1, 0) else (y, m + 1)
  }

  /** Dividing by 4 steps up by one exactly at the multiples of 4. */
  lemma FloorStep4(x: int)
    ensures (x + 1) / 4 - x / 4 == if (x + 1) % 4 == 0 then 1 else 0
  {
  }

  /** Dividing by 100 steps up by one exactly at the multiples of 100. */
  lemma FloorStep100(x: int)
    ensures (x + 1) / 100 - x / 100 == if (x + 1) % 100 == 0 then 1 else 0
  {
  }

  /** Dividing by 400 steps up by one exactly at the multiples of 400. */
  lemma FloorStep400(x: int)
    ensures (x + 1) / 400 - x / 400 == if (x + 1) % 400 == 0 then 1 else 0
  {
  }

  /** A multiple of 400 is a multiple of 100. */
  lemma MultipleOf400(x: int)
    ensures x % 400 == 0 ==> x % 100 == 0
  {
    if x % 400 == 0 {
      assert x == 100 * (4 * (x / 400)) + 0;
    }
  }

  /** A multiple of 100 is a multiple of 4. */
  lemma MultipleOf100(x: int)
    ensures x % 100 == 0 ==> x % 4 == 0
  {
    if x % 100 == 0 {
      assert x == 4 * (25 * (x / 100)) + 0;
    }
  }

  /** A March-to-March year has 366 days exactly when its February is a leap February. */
  lemma {:induction false} YearLength(Y: int)
    ensures MarchStart(Y + 1) - MarchStart(Y) == if IsLeapYear(Y + 1) then 366 else 365
  {
    FloorStep4(Y);
    FloorStep100(Y);
    FloorStep400(Y);
    MultipleOf400(Y + 1);
    MultipleOf100(Y + 1);
    var a := (Y + 1) / 4 - Y / 4;
    var b := (Y + 1) / 100 - Y / 100;
    var c := (Y + 1) / 400 - Y / 400;
    assert MarchStart(Y + 1) - MarchStart(Y) == 365 + a - b + c;
  }

  /** Consecutive March-based month offsets differ by the length of the
      earlier month: 31, 30, 31, 30, 31, 31, 30, 31, 30, 31, 31 from March on. */
  lemma OffsetStep(mp: int)
    requires 0 <= mp < 11
    ensures MarchOffset(mp + 1) - MarchOffset(mp) ==
            if mp == 1 || mp == 3 || mp == 6 || mp == 8 then 30 else 31
  {
    if mp == 0 {
    } else if mp == 1 {
    } else if mp == 2 {
    } else if mp == 3 {
    } else if mp == 4 {
    } else if mp == 5 {
    } else if mp == 6 {
    } else if mp == 7 {
    } else if mp == 8 {
    } else if mp == 9 {
    } else {
    }
  }

  /** The reference agrees with the table: the first of the next month is
      `DaysInMonth` days after the first of this one. */
  lemma {:induction false} MonthLength(y: int, m: int)
    requires 0 <= m < 12
    ensures var (ny, nm) := NextMonth(y, m);
            DayNumber(ny, nm, 1) - DayNumber(y, m, 1) == DaysInMonth(y, m)
  {
    if m == 0 {
      JanuaryLength(y);
    } else if m == 1 {
      FebruaryLength(y);
    } else if m == 11 {
      DecemberLength(y);
    } else {
      MidYearLength(y, m);
    }
  }

  /** January: both firsts fall in the same March-based year. */
  lemma {:induction false} JanuaryLength(y: int)
    ensures DayNumber(y, 1, 1) - DayNumber(y, 0, 1) == DaysInMonth(y, 0)
  {
    OffsetStep(10);
  }

  /** February: the March-based year turns over between the two firsts. */
  lemma {:induction false} FebruaryLength(y: int)
    ensures DayNumber(y, 2, 1) - DayNumber(y, 1, 1) == DaysInMonth(y, 1)
  {
    YearLength(y - 1);
    assert MarchOffset(11) == 337 && MarchOffset(0) == 0;
  }

  /** March to November: consecutive offsets within one March-based year. */
  lemma {:induction false} MidYearLength(y: int, m: int)
    requires 2 <= m < 11
    ensures DayNumber(y, m + 1, 1) - DayNumber(y, m, 1) == DaysInMonth(y, m)
  {
    OffsetStep(m - 2);
  }

  /** December: the calendar year turns over, the March-based year does not. */
  lemma {:induction false} DecemberLength(y: int)
    ensures DayNumber(y + 1, 0, 1) - DayNumber(y, 11, 1) == DaysInMonth(y, 11)
  {
    OffsetStep(9);
  }

  // ---------------------------------------------------------------------------
  // The Date constructor

  /** ECMA-262 MakeDay: the month is reduced modulo 12 into the year, and the
      day counts from the first of the resulting month, so `0` is the last day
      of the month before. */
  function MakeDay(y: int, m: int, d: int): int {
    DayNumber(y + m / 12, m % 12, 1) + d - 1
  }

  /** For a month in range, the first is `MakeDay(y, m, 1)` and day 0 of the
      following month is the day before the next month's first. */
  lemma {:induction false} MakeDayOfMonth(y: int, m: int)
    requires 0 <= m < 12
    ensures MakeDay(y, m, 1) == DayNumber(y, m, 1)
    ensures var (ny, nm) := NextMonth(y, m);
            MakeDay(y, m + 1, 0) == DayNumber(ny, nm, 1) - 1
  {
    assert m / 12 == 0 && m % 12 == m;
    if m == 11 {
      assert (m + 1) / 12 == 1 && (m + 1) % 12 == 0;
    } else {
      assert (m + 1) / 12 == 0 && (m + 1) % 12 == m + 1;
    }
  }

  /** The year rule of `new Date(year, month, …)`: a year from 0 to 99 means
      1900 plus that year. */
  function ConstructorYear(y: int): (r: int)
    ensures 0 <= y <= 99 ==> r == 1900 + y
    ensures !(0 <= y <= 99) ==> r == y
  {
    if 0 <= y <= 99 then 1900 + y else y
  }

  /** `new Date(year, month, day)`, as a day number. */
  function NewDate(year: int, month: int, day: int): (r: int)
    ensures 0 <= year <= 99 ==> r == MakeDay(1900 + year, month, day)
    ensures !(0 <= year <= 99) ==> r == MakeDay(year, month, day)
  {
    MakeDay(ConstructorYear(year), month, day)
  }

  // ---------------------------------------------------------------------------
  // getDaysInMonth

  /** A grid cell: `null` before the first, or a day of the month. */
  datatype Cell = Blank | Day(n: int)

  function Cells(blanks: nat, count: nat): seq<Cell> {
    seq(blanks, _ => Blank) + seq(count, k => Day(k + 1))
  }

  /** The grid the card should show for a month: one blank for each weekday
      before the first, then the days of the month by the table. */
  function MonthGrid(y: int, m: int): seq<Cell>
    requires 0 <= m < 12
  {
    Cells(Weekday(DayNumber(y, m, 1)), DaysInMonth(y, m))
  }

  /** The two loops of `getDaysInMonth`. */
  method Layout(startingDayOfWeek: nat, daysInMonth: int) returns (days: seq<Cell>)
    ensures days == Cells(startingDayOfWeek, if daysInMonth < 0 then 0 else daysInMonth)
  {
    days := [];
    var i := 0;
    while i < startingDayOfWeek
      invariant 0 <= i <= startingDayOfWeek
      invariant days == seq(i, _ => Blank)
    {
      days := days + [Blank];
      i := i + 1;
    }
    var day := 1;
    while day <= daysInMonth
      invariant 1 <= day && (daysInMonth >= 0 ==> day <= daysInMonth + 1)
      invariant daysInMonth < 0 ==> day == 1
      invariant days == seq(startingDayOfWeek, _ => Blank) + seq(day - 1, k => Day(k + 1))
    {
      days := days + [Day(day)];
      day := day + 1;
    }
  }

  /** `getDaysInMonth` as written: both dates go through the constructor, so
      a year from 0 to 99 is laid out as the year 1900 later. The day of the
      month of `lastDay`, the day before the next month's first, is its
      distance from `firstDay` plus one. */
  method GetDaysInMonthAsWritten(year: int, month: int) returns (days: seq<Cell>)
    requires 0 <= month < 12
    ensures days == MonthGrid(ConstructorYear(year), month)
  {
    var firstDay := NewDate(year, month, 1);
    var lastDay := NewDate(year, month + 1, 0);
    MakeDayOfMonth(ConstructorYear(year), month);
    MonthLength(ConstructorYear(year), month);
    var daysInMonth := lastDay - firstDay + 1;
    assert daysInMonth == DaysInMonth(ConstructorYear(year), month);
    days := Layout(Weekday(firstDay), daysInMonth);
  }

  /** `getDaysInMonth` with the dates built from the full year, as the
      displayed year intends: the grid of exactly that month. */
  method GetDaysInMonth(year: int, month: int) returns (days: seq<Cell>)
    requires 0 <= month < 12
    ensures days == MonthGrid(year, month)
  {
    var firstDay := MakeDay(year, month, 1);
    var lastDay := MakeDay(year, month + 1, 0);
    MakeDayOfMonth(year, month);
    MonthLength(year, month);
    var daysInMonth := lastDay - firstDay + 1;
    assert daysInMonth == DaysInMonth(year, month);
    days := Layout(Weekday(firstDay), daysInMonth);
  }

  lemma CellsAt(blanks: nat, count: nat, j: int)
    requires 0 <= j < blanks + count
    ensures |Cells(blanks, count)| == blanks + count
    ensures Cells(blanks, count)[j] == if j < blanks then Blank else Day(j - blanks + 1)
  {
    if j >= blanks {
      assert Cells(blanks, count)[j] == seq(count, k => Day(k + 1))[j - blanks];
    }
  }

  /** Shifting a day number shifts its weekday alike. */
  lemma WeekdayShift(n: int, k: nat)
    ensures (Weekday(n) + k) % 7 == Weekday(n + k)
  {
    var a := n + 4;
    assert a == 7 * (a / 7) + a % 7;
    assert a + k == 7 * (a / 7) + (a % 7 + k);
  }

  /** Every day of the month sits in the column of its own weekday, and the
      cells before the first are blank. */
  lemma {:induction false} GridColumns(y: int, m: int, d: int)
    requires 0 <= m < 12 && 1 <= d <= DaysInMonth(y, m)
    ensures var g := MonthGrid(y, m);
            var i := Weekday(DayNumber(y, m, 1)) + d - 1;
            && i < |g| && g[i] == Day(d)
            && i % 7 == Weekday(DayNumber(y, m, d))
            && (forall j :: 0 <= j < Weekday(DayNumber(y, m, 1)) ==> g[j] == Blank)
  {
    var w := Weekday(DayNumber(y, m, 1));
    var g := MonthGrid(y, m);
    CellsAt(w, DaysInMonth(y, m), w + d - 1);
    WeekdayShift(DayNumber(y, m, 1), d - 1);
    assert DayNumber(y, m, d) == DayNumber(y, m, 1) + (d - 1);
    forall j | 0 <= j < w
      ensures g[j] == Blank
    {
      CellsAt(w, DaysInMonth(y, m), j);
    }
  }

  /** `day === 10`: the one day with the "Record Media" marker. */
  predicate HasEvent(c: Cell) {
    c == Day(10)
  }

  /** Every month shows the marker exactly once, on the tenth. */
  lemma {:induction false} OneEventPerMonth(y: int, m: int)
    requires 0 <= m < 12
    ensures var g := MonthGrid(y, m);
            var i := Weekday(DayNumber(y, m, 1)) + 9;
            && i < |g| && HasEvent(g[i])
            && (forall j :: 0 <= j < |g| && HasEvent(g[j]) ==> j == i)
  {
    var w := Weekday(DayNumber(y, m, 1));
    var g := MonthGrid(y, m);
    CellsAt(w, DaysInMonth(y, m), w + 9);
    forall j | 0 <= j < |g| && HasEvent(g[j])
      ensures j == w + 9
    {
      CellsAt(w, DaysInMonth(y, m), j);
    }
  }

  // ---------------------------------------------------------------------------
  // navigateMonth

  datatype CalendarDate = CalendarDate(year: int, month: int, day: int)

  predicate ValidDate(dt: CalendarDate) {
    0 <= dt.month < 12 && 1 <= dt.day <= DaysInMonth(dt.year, dt.month)
  }

  /** The months counted from January of year 0. */
  function MonthIndex(dt: CalendarDate): int {
    12 * dt.year + dt.month
  }

  /** `new Date(2025, 6)`: July 1, 2025. */
  const InitialDate: CalendarDate := CalendarDate(2025, 6, 1)

  /** `setMonth(m)`: keep the year and the day of the month, take month `m`
      reduced into the year; a day past the end of that month runs over into
      the next one. The result is the date `MakeDay` denotes. */
  function SetMonth(dt: CalendarDate, m: int): (r: CalendarDate)
    requires ValidDate(dt)
    ensures ValidDate(r)
    ensures DayNumber(r.year, r.month, r.day) == MakeDay(dt.year, m, dt.day)
  {
    var y, mm := dt.year + m / 12, m % 12;
    var n := DaysInMonth(y, mm);
    assert MakeDay(dt.year, m, dt.day) == DayNumber(y, mm, 1) + dt.day - 1;
    if dt.day <= n then CalendarDate(y, mm, dt.day)
    else
      var (ny, nm) := NextMonth(y, mm);
      MonthLength(y, mm);
      assert DayNumber(ny, nm, dt.day - n) == DayNumber(ny, nm, 1) + dt.day - n - 1;
      CalendarDate(ny, nm, dt.day - n)
  }

  /** `navigateMonth(direction)`. */
  function NavigateMonth(dt: CalendarDate, direction: int): (r: CalendarDate)
    requires ValidDate(dt)
    ensures ValidDate(r)
  {
    SetMonth(dt, dt.month + direction)
  }

  /** From a first of the month, navigating moves by exactly `direction`
      months and lands on a first again. */
  lemma {:induction false} NavigateFromFirst(dt: CalendarDate, direction: int)
    requires ValidDate(dt) && dt.day == 1
    ensures var r := NavigateMonth(dt, direction);
            r.day == 1 && MonthIndex(r) == MonthIndex(dt) + direction
  {
  }

  /** Forward then back (or back then forward) returns to the same first. */
  lemma {:induction false} NavigateRoundTrip(dt: CalendarDate, direction: int)
    requires ValidDate(dt) && dt.day == 1
    ensures NavigateMonth(NavigateMonth(dt, direction), -direction) == dt
  {
    NavigateFromFirst(dt, direction);
    var r := NavigateMonth(dt, direction);
    NavigateFromFirst(r, -direction);
    FirstsByIndex(NavigateMonth(r, -direction), dt);
  }

  function Sum(s: seq<int>): int {
    if |s| == 0 then 0 else Sum(s[..|s| - 1]) + s[|s| - 1]
  }

  /** The card's date after a sequence of clicks: always the first of a month,
      offset from July 2025 by the sum of the directions. */
  function Browse(directions: seq<int>): (r: CalendarDate)
    ensures ValidDate(r) && r.day == 1
    ensures MonthIndex(r) == MonthIndex(InitialDate) + Sum(directions)
    decreases |directions|
  {
    if |directions| == 0 then InitialDate
    else
      var prev := Browse(directions[..|directions| - 1]);
      NavigateFromFirst(prev, directions[|directions| - 1]);
      NavigateMonth(prev, directions[|directions| - 1])
  }

  /** A first of a month is fixed by its month index. */
  lemma FirstsByIndex(a: CalendarDate, b: CalendarDate)
    requires 0 <= a.month < 12 && 0 <= b.month < 12 && a.day == 1 && b.day == 1
    requires MonthIndex(a) == MonthIndex(b)
    ensures a == b
  {
  }

  lemma {:induction false} SumOfBackSteps(n: nat)
    ensures Sum(seq(n, _ => -1)) == -(n as int)
  {
    if n > 0 {
      assert seq(n, _ => -1)[..n - 1] == seq(n - 1, _ => -1);
      SumOfBackSteps(n - 1);
    }
  }

  // ---------------------------------------------------------------------------
  // The two-digit year of the Date constructor

  /** 24305 clicks on the left arrow reach February of year 0; the header
      reads year 0 there, since `setMonth` keeps the full year. */
  lemma {:induction false} FebruaryOfYearZeroReachable()
    ensures Browse(seq(24305, _ => -1)) == CalendarDate(0, 1, 1)
  {
    SumOfBackSteps(24305);
    FirstsByIndex(Browse(seq(24305, _ => -1)), CalendarDate(0, 1, 1));
  }

  /** For February of year 0, a leap year, the as-written layout ends at the
      28th (the layout of February 1900) while the month has a 29th. */
  lemma {:induction false} LegacyFebruaryOfYearZero()
    ensures DaysInMonth(0, 1) == 29
    ensures var g := MonthGrid(ConstructorYear(0), 1);
            |g| > 0 && g[|g| - 1] == Day(28) && Day(29) !in g
    ensures var g := MonthGrid(0, 1);
            |g| > 0 && g[|g| - 1] == Day(29)
  {
    var w0 := Weekday(DayNumber(0, 1, 1));
    var w1900 := Weekday(DayNumber(1900, 1, 1));
    CellsAt(w1900, 28, w1900 + 27);
    CellsAt(w0, 29, w0 + 28);
    var g := MonthGrid(1900, 1);
    forall j | 0 <= j < |g|
      ensures g[j] != Day(29)
    {
      CellsAt(w1900, 28, j);
    }
  }

  /** The initial card: July 2025 starts on a Tuesday, so two blanks, then 1 to 31. */
  lemma InitialGrid()
    ensures MonthGrid(InitialDate.year, InitialDate.month) == Cells(2, 31)
  {
  }
}
