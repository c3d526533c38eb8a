/** Day numbers and calendar dates (crates/s2l-mail/src/date.rs and
    crates/s2l-notify/src/providers.rs), in the proleptic Gregorian calendar. */
module Calendar {
  datatype Date = Date(year: int, month: int, day: int)

  predicate Leap(y: int) {
    y % 4 == 0 && (y % 100 != 0 || y % 400 == 0)
  }

  function DaysInMonth(y: int, m: int): int {
    if m == 2 then (if Leap(y) then 29 else 28)
    else if m == 4 || m == 6 || m == 9 || m == 11 then 30
    else 31
  }

  predicate Valid(date: Date) {
    1 <= date.month <= 12 && 1 <= date.day <= DaysInMonth(date.year, date.month)
  }

  function NextDay(date: Date): Date {
    if date.day < DaysInMonth(date.year, date.month) then date.(day := date.day + 1)
    else if date.month < 12 then Date(date.year, date.month + 1, 1)
    else Date(date.year + 1, 1, 1)
  }

  /** Division that truncates toward zero, as on machine integers. */
  function Quot(a: int, b: int): int
    requires b > 0
  {
    if a >= 0 then a / b else -(-a / b)
  }

  function Rem(a: int, b: int): int
    requires b > 0
  {
    a - Quot(a, b) * b
  }

  /** The day number within an era of 400 years that starts in March. */
  function DaysInEra(era: int, yoe: int, mp: int, d: int): int {
    var doy := Quot(153 * mp + 2, 5) + d - 1;
    var doe := yoe * 365 + Quot(yoe, 4) - Quot(yoe, 100) + doy;
    era * 146097 + doe - 719468
  }

  function DaysFromCivil(year: int, m: int, d: int): int {
    var y := if m <= 2 then year - 1 else year;
    var era := Quot(if y >= 0 then y else y - 399, 400);
    DaysInEra(era, y - era * 400, Rem(m + 9, 12), d)
  }

  /** The date of a day of an era. */
  function CivilInEra(era: int, doe: int): Date {
    var yoe := Quot(doe - Quot(doe, 1460) + Quot(doe, 36524) - Quot(doe, 146096), 365);
    var y := yoe + era * 400;
    var doy := doe - (365 * yoe + Quot(yoe, 4) - Quot(yoe, 100));
    var mp := Quot(5 * doy + 2, 153);
    var d := doy - Quot(153 * mp + 2, 5) + 1;
    var m := if mp < 10 then mp + 3 else mp - 9;
    Date(if m <= 2 then y + 1 else y, m, d)
  }

  function CivilFromDays(days: int): Date {
    var z := days + 719468;
    var era := Quot(if z >= 0 then z else z - 146096, 146097);
    CivilInEra(era, z - era * 146097)
  }

  // ----- eras: the shift before the truncating division makes it a floor -----

  lemma FloorByShift(a: int, b: int)
    requires b > 0
    ensures Quot(if a >= 0 then a else a - (b - 1), b) == a / b
  {
    if a < 0 {
      var n := -(a - (b - 1));
      var q, r := n / b, n % b;
      assert n == q * b + r;
      assert a == (-q) * b + (b - 1 - r);
      DivUnique(a, b, -q, b - 1 - r);
    }
  }

  lemma MulAtLeast(k: int, b: int)
    requires k >= 1 && b > 0
    ensures k * b >= b
  {
  }

  lemma DivUnique(a: int, b: int, q: int, r: int)
    requires b > 0 && a == q * b + r && 0 <= r < b
    ensures a / b == q
  {
    var d := a / b - q;
    assert (a / b) * b + a % b == a;
    assert d * b == r - a % b && (-d) * b == a % b - r;
    if d >= 1 {
      MulAtLeast(d, b);
    } else if d <= -1 {
      MulAtLeast(-d, b);
    }
  }

  // ----- years of an era, counted from March -----

  /** Whether the year that starts in March of year-of-era `yoe` ends with a leap day. */
  predicate LongYear(yoe: int) {
    (yoe + 1) % 4 == 0 && ((yoe + 1) % 100 != 0 || (yoe + 1) % 400 == 0)
  }

  predicate InYear(yoe: int, doy: int) {
    0 <= yoe < 400 && 0 <= doy <= (if LongYear(yoe) then 365 else 364)
  }

  function DayOfEra(yoe: int, doy: int): int {
    yoe * 365 + yoe / 4 - yoe / 100 + doy
  }

  /** Century, four-year cycle and year within it. */
  lemma Cycles(yoe: int, c: int, q: int, r: int)
    requires 0 <= c < 4 && 0 <= q < 25 && 0 <= r < 4 && yoe == 100 * c + 4 * q + r
    ensures yoe / 4 == 25 * c + q && yoe / 100 == c
    ensures LongYear(yoe) <==> r == 3 && (q < 24 || c == 3)
  {
  }

  function YearOfEra(doe: int): int {
    (doe - doe / 1460 + doe / 36524 - doe / 146096) / 365
  }

  /** The year of a day of the era, found without a search. */
  lemma YearOfEraIs(yoe: int, doy: int)
    requires InYear(yoe, doy)
    ensures 0 <= DayOfEra(yoe, doy) < 146097
    ensures YearOfEra(DayOfEra(yoe, doy)) == yoe
  {
    var c, q, r := yoe / 100, yoe % 100 / 4, yoe % 4;
    Cycles(yoe, c, q, r);
    var doe := DayOfEra(yoe, doy);
    assert doe == 36524 * c + 1461 * q + 365 * r + doy;
    YearInCycles(c, q, r, doy);
  }

  lemma YearInCycles(c: int, q: int, r: int, doy: int)
    requires 0 <= c < 4 && 0 <= q < 25 && 0 <= r < 4
    requires 0 <= doy <= (if r == 3 && (q < 24 || c == 3) then 365 else 364)
    ensures var doe := 36524 * c + 1461 * q + 365 * r + doy;
      0 <= doe < 146097 && YearOfEra(doe) == 100 * c + 4 * q + r
  {
    var doe := 36524 * c + 1461 * q + 365 * r + doy;
    var y := 100 * c + 4 * q + r;
    var s := 24 * c + q + 365 * r + doy;
    var over := if s >= 1460 then 1 else 0;
    assert doe == 1460 * (25 * c + q + over) + (s - 1460 * over);
    assert doe / 1460 == 25 * c + q + over;
    assert doe / 36524 - doe / 146096 == c by {
      assert doe < 36524 * (c + 1) || doe == 146096;
    }
    assert doe - doe / 1460 + doe / 36524 - doe / 146096 == 365 * y + (doy - over);
  }

  /** Every day of an era is in exactly one year of it. */
  lemma EraSplits(doe: int) returns (yoe: int, doy: int)
    requires 0 <= doe < 146097
    ensures InYear(yoe, doy) && DayOfEra(yoe, doy) == doe
  {
    var c := if doe / 36524 < 4 then doe / 36524 else 3;
    var inCentury := doe - 36524 * c;
    var q := if inCentury / 1461 < 25 then inCentury / 1461 else 24;
    var inCycle := inCentury - 1461 * q;
    var r := if inCycle / 365 < 4 then inCycle / 365 else 3;
    yoe, doy := 100 * c + 4 * q + r, inCycle - 365 * r;
    Cycles(yoe, c, q, r);
  }

  // ----- months of a year that starts in March -----

  function MonthOf(mp: int): int {
    if mp < 10 then mp + 3 else mp - 9
  }

  function FirstOf(mp: int): int {
    (153 * mp + 2) / 5
  }

  /** The months of a March-based year tile its days. */
  lemma MonthOfDay(doy: int)
    requires 0 <= doy <= 365
    ensures var mp := (5 * doy + 2) / 153;
      0 <= mp <= 11 && FirstOf(mp) <= doy && (mp < 11 ==> doy < FirstOf(mp + 1))
  {
  }

  lemma DayOfMonth(mp: int, d: int)
    requires 0 <= mp <= 11 && 1 <= d <= (if mp < 11 then FirstOf(mp + 1) - FirstOf(mp) else 29)
    ensures (5 * (FirstOf(mp) + d - 1) + 2) / 153 == mp
  {
    assert mp == 0 || mp == 1 || mp == 2 || mp == 3 || mp == 4 || mp == 5 || mp == 6 || mp == 7 || mp == 8
           || mp == 9 || mp == 10 || mp == 11;
  }

  // ----- both conversions, era by era -----

  function MarchYear(date: Date): int {
    if date.month <= 2 then date.year - 1 else date.year
  }

  function MarchMonth(m: int): int {
    if m <= 2 then m + 9 else m - 3
  }

  function DayOfYear(date: Date): int {
    FirstOf(MarchMonth(date.month)) + date.day - 1
  }

  /** The date of day `doy` of a year counted from March. */
  function DateOf(y: int, doy: int): Date {
    var mp := (5 * doy + 2) / 153;
    Date(if MonthOf(mp) <= 2 then y + 1 else y, MonthOf(mp), doy - FirstOf(mp) + 1)
  }

  lemma LongYearIsLeap(era: int, yoe: int)
    ensures LongYear(yoe) <==> Leap(era * 400 + yoe + 1)
  {
    Mod4(100 * era, yoe + 1);
    Mod100(4 * era, yoe + 1);
    Mod400(era, yoe + 1);
  }

  lemma Mod4(a: int, m: int)
    ensures (4 * a + m) % 4 == m % 4
  {
  }

  lemma Mod100(a: int, m: int)
    ensures (100 * a + m) % 100 == m % 100
  {
  }

  lemma Mod400(a: int, m: int)
    ensures (400 * a + m) % 400 == m % 400
  {
  }

  lemma DateIsInYear(date: Date, era: int, yoe: int)
    requires Valid(date) && MarchYear(date) == era * 400 + yoe && 0 <= yoe < 400
    ensures InYear(yoe, DayOfYear(date)) && DateOf(era * 400 + yoe, DayOfYear(date)) == date
  {
    LongYearIsLeap(era, yoe);
    var m := date.month;
    assert m == 1 || m == 2 || m == 3 || m == 4 || m == 5 || m == 6 || m == 7 || m == 8 || m == 9 || m == 10
           || m == 11 || m == 12;
    DayOfMonth(MarchMonth(m), date.day);
  }

  lemma DateOfIsValid(era: int, yoe: int, doy: int)
    requires InYear(yoe, doy)
    ensures var date := DateOf(era * 400 + yoe, doy);
      Valid(date) && MarchYear(date) == era * 400 + yoe && DayOfYear(date) == doy
  {
    LongYearIsLeap(era, yoe);
    MonthOfDay(doy);
    var mp := (5 * doy + 2) / 153;
    assert mp == 0 || mp == 1 || mp == 2 || mp == 3 || mp == 4 || mp == 5 || mp == 6 || mp == 7 || mp == 8
           || mp == 9 || mp == 10 || mp == 11;
  }

  /** From a date to its number, when the era is known. */
  lemma DaysByEra(date: Date, era: int, yoe: int)
    requires Valid(date) && MarchYear(date) == era * 400 + yoe && 0 <= yoe < 400
    ensures DaysFromCivil(date.year, date.month, date.day) ==
            era * 146097 + DayOfEra(yoe, DayOfYear(date)) - 719468
  {
    var y := MarchYear(date);
    FloorByShift(y, 400);
    DivUnique(y, 400, era, yoe);
    assert Rem(date.month + 9, 12) == MarchMonth(date.month);
    assert DaysFromCivil(date.year, date.month, date.day) == DaysInEra(era, yoe, MarchMonth(date.month), date.day);
  }

  lemma CivilInEraIs(era: int, yoe: int, doy: int)
    requires InYear(yoe, doy)
    ensures CivilInEra(era, DayOfEra(yoe, doy)) == DateOf(era * 400 + yoe, doy)
  {
    var doe := DayOfEra(yoe, doy);
    YearOfEraIs(yoe, doy);
    MonthOfDay(doy);
    assert Quot(doe - Quot(doe, 1460) + Quot(doe, 36524) - Quot(doe, 146096), 365) == YearOfEra(doe);
    assert doe - (365 * yoe + Quot(yoe, 4) - Quot(yoe, 100)) == doy;
  }

  /** From a number to its date, when the era is known. */
  lemma CivilByEra(days: int, era: int, doe: int)
    requires days + 719468 == era * 146097 + doe && 0 <= doe < 146097
    ensures CivilFromDays(days) == CivilInEra(era, doe)
  {
    FloorByShift(days + 719468, 146097);
    DivUnique(days + 719468, 146097, era, doe);
  }

  lemma Euclid(a: int, b: int) returns (q: int, r: int)
    requires b > 0
    ensures a == q * b + r && 0 <= r < b
  {
    q, r := a / b, a % b;
  }

  /** Every day number has a date of the calendar, and the date gives the number back. */
  lemma DayRoundTrip(days: int)
    ensures var date := CivilFromDays(days);
      Valid(date) && DaysFromCivil(date.year, date.month, date.day) == days
  {
    var era, doe := Euclid(days + 719468, 146097);
    var yoe, doy := EraSplits(doe);
    CivilByEra(days, era, doe);
    CivilInEraIs(era, yoe, doy);
    DateOfIsValid(era, yoe, doy);
    DaysByEra(CivilFromDays(days), era, yoe);
  }

  /** Every date of the calendar has a day number that gives the date back. */
  lemma DateRoundTrip(date: Date)
    requires Valid(date)
    ensures CivilFromDays(DaysFromCivil(date.year, date.month, date.day)) == date
  {
    var era, yoe := Euclid(MarchYear(date), 400);
    var doy := DayOfYear(date);
    DateIsInYear(date, era, yoe);
    DaysByEra(date, era, yoe);
    YearOfEraIs(yoe, doy);
    CivilByEra(DaysFromCivil(date.year, date.month, date.day), era, DayOfEra(yoe, doy));
    CivilInEraIs(era, yoe, doy);
  }

  lemma YearLength(yoe: int)
    requires 0 <= yoe < 399
    ensures DayOfEra(yoe + 1, 0) == DayOfEra(yoe, 0) + (if LongYear(yoe) then 366 else 365)
  {
    var c, q, r := yoe / 100, yoe % 100 / 4, yoe % 4;
    Cycles(yoe, c, q, r);
  }

  /** The next day of the calendar has the next number. */
  lemma NextDayIsNextNumber(date: Date)
    requires Valid(date)
    ensures var next := NextDay(date);
      Valid(next) &&
      DaysFromCivil(next.year, next.month, next.day) == DaysFromCivil(date.year, date.month, date.day) + 1
  {
    var era, yoe := Euclid(MarchYear(date), 400);
    DaysByEra(date, era, yoe);
    if date.month == 2 && date.day == DaysInMonth(date.year, 2) {
      LastOfFebruary(date, era, yoe);
    } else {
      SameYear(date, era, yoe);
      DaysByEra(NextDay(date), era, yoe);
    }
  }

  lemma SameYear(date: Date, era: int, yoe: int)
    requires Valid(date) && MarchYear(date) == era * 400 + yoe
    requires !(date.month == 2 && date.day == DaysInMonth(date.year, 2))
    ensures var next := NextDay(date);
      Valid(next) && MarchYear(next) == MarchYear(date) && DayOfYear(next) == DayOfYear(date) + 1
  {
    var m := date.month;
    assert m == 1 || m == 2 || m == 3 || m == 4 || m == 5 || m == 6 || m == 7 || m == 8 || m == 9 || m == 10
           || m == 11 || m == 12;
  }

  /** The last day of February is followed by the first day of the next March year. */
  lemma LastOfFebruary(date: Date, era: int, yoe: int)
    requires Valid(date) && MarchYear(date) == era * 400 + yoe && 0 <= yoe < 400
    requires date.month == 2 && date.day == DaysInMonth(date.year, 2)
    ensures var next := NextDay(date);
      Valid(next) &&
      DaysFromCivil(next.year, next.month, next.day) == era * 146097 + DayOfEra(yoe, DayOfYear(date)) - 719468 + 1
  {
    var next := Date(date.year, 3, 1);
    assert NextDay(date) == next;
    LongYearIsLeap(era, yoe);
    assert DayOfYear(next) == 0 && MarchYear(next) == era * 400 + yoe + 1;
    assert DayOfYear(date) == if LongYear(yoe) then 365 else 364;
    if yoe < 399 {
      DaysByEra(next, era, yoe + 1);
      YearLength(yoe);
    } else {
      DaysByEra(next, era + 1, 0);
      assert DayOfEra(399, 365) == 146096 && DayOfEra(0, 0) == 0;
    }
  }

  lemma EpochNumber()
    ensures DaysFromCivil(1970, 1, 1) == 0
  {
    DaysByEra(Date(1970, 1, 1), 4, 369);
  }

  /** Day zero is the first of January 1970, which with the step above fixes every number. */
  lemma Epoch()
    ensures CivilFromDays(0) == Date(1970, 1, 1)
  {
    var first := Date(1970, 1, 1);
    EpochNumber();
    DateRoundTrip(first);
    assert DaysFromCivil(first.year, first.month, first.day) == 0;
  }
}
