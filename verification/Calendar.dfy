/** The quota guard's calendar: day numbers to Gregorian dates by era arithmetic, and the usage window's start. */
module Calendar {
  import opened Words

  datatype Date = Date(y: int, m: int, d: int)

  // ---- Era arithmetic ----

  /** Years before the day `doe` of a 400-year era that starts on a 1 March. */
  function YearOfEra(doe: int): int {
    (doe - doe / 1460 + doe / 36_524 - doe / 146_096) / 365
  }

  /** Days of an era before its year `yoe`. */
  function DaysBeforeYear(yoe: int): int {
    365 * yoe + yoe / 4 - yoe / 100
  }

  /** Days before month `mp`, counted from March as 0. */
  function DaysBeforeMonth(mp: int): int {
    (153 * mp + 2) / 5
  }

  /** The date of a March-based year, month and day. */
  function FromMarch(y: int, mp: int, d: int): Date {
    var m := if mp < 10 then mp + 3 else mp - 9;
    Date(y + (if m <= 2 then 1 else 0), m, d)
  }

  /** The date of day `doe` of an era. */
  function InEra(era: int, doe: int): Date {
    var yoe := YearOfEra(doe);
    var doy := doe - DaysBeforeYear(yoe);
    var mp := (5 * doy + 2) / 153;
    FromMarch(yoe + era * 400, mp, doy - DaysBeforeMonth(mp) + 1)
  }

  function CivilFromDays(z: int): Date {
    InEra((z + 719_468) / 146_097, (z + 719_468) % 146_097)
  }

  /** Days since the epoch before the first of a month, less one. */
  function BeforeMonthOf(y: int, m: int): int {
    var y' := y - (if m <= 2 then 1 else 0);
    var (era, yoe) := (y' / 400, y' % 400);
    var mp := if m > 2 then m - 3 else m + 9;
    era * 146_097 + DaysBeforeYear(yoe) + DaysBeforeMonth(mp) - 1 - 719_468
  }

  function DaysFromCivil(date: Date): int {
    BeforeMonthOf(date.y, date.m) + date.d
  }

  // ---- The Gregorian rules ----

  predicate IsLeap(y: int) {
    y % 4 == 0 && (y % 100 != 0 || y % 400 == 0)
  }

  function MonthDays(y: int, m: int): int {
    if m == 2 then (if IsLeap(y) then 29 else 28)
    else if m == 4 || m == 6 || m == 9 || m == 11 then 30
    else 31
  }

  predicate IsDate(date: Date) {
    1 <= date.m <= 12 && 1 <= date.d <= MonthDays(date.y, date.m)
  }

  function NextDate(date: Date): Date {
    if date.d < MonthDays(date.y, date.m) then Date(date.y, date.m, date.d + 1)
    else if date.m < 12 then Date(date.y, date.m + 1, 1)
    else Date(date.y + 1, 1, 1)
  }

  // ---- Days of an era ----

  /** Century, four-year cycle, year of the cycle, day of the year: the days an era really has. */
  predicate IsDay(c: int, q: int, t: int, u: int) {
    && 0 <= c <= 3 && 0 <= q <= 24 && 0 <= t <= 3 && 0 <= u <= 365
    && (u == 365 ==> t == 3 && (q == 24 ==> c == 3))
  }

  function DayOfEra(c: int, q: int, t: int, u: int): int {
    36_524 * c + 1461 * q + 365 * t + u
  }

  lemma {:induction false} BeforeYear(c: int, q: int, t: int)
    requires 0 <= q <= 24 && 0 <= t <= 3
    ensures DaysBeforeYear(100 * c + 4 * q + t) == DayOfEra(c, q, t, 0)
  {
    var yoe := 100 * c + 4 * q + t;
    assert yoe / 4 == 25 * c + q;
    assert yoe / 100 == c;
  }

  /** The year formula is exact on every day of an era. */
  lemma {:induction false} YearFormula(c: int, q: int, t: int, u: int)
    requires IsDay(c, q, t, u)
    ensures var doe := DayOfEra(c, q, t, u);
            0 <= doe < 146_097 && YearOfEra(doe) == 100 * c + 4 * q + t
  {
    var doe := DayOfEra(c, q, t, u);
    var over := 24 * c + q + 365 * t + u;
    assert doe == 1460 * (25 * c + q) + over;
    assert doe / 1460 == 25 * c + q + (if over < 1460 then 0 else 1);
    if doe == 146_096 {
      assert c == 3 && q == 24 && t == 3 && u == 365;
    } else {
      assert doe / 36_524 == c;
      assert doe / 146_096 == 0;
    }
  }

  lemma {:induction false} SplitDay(doe: int) returns (c: int, q: int, t: int, u: int)
    requires 0 <= doe < 146_097
    ensures IsDay(c, q, t, u) && doe == DayOfEra(c, q, t, u)
  {
    c := Min(doe / 36_524, 3);
    var r := doe - 36_524 * c;
    q := r / 1461;
    var s := r % 1461;
    t := Min(s / 365, 3);
    u := s - 365 * t;
  }

  /** Days of the March-based year `yoe`, which holds the February of year `yoe + 1`. */
  function YearDays(yoe: int): int {
    if IsLeap(yoe + 1) then 366 else 365
  }

  lemma {:induction false} LeapYear(c: int, q: int, t: int)
    requires 0 <= c <= 3 && 0 <= q <= 24 && 0 <= t <= 3
    ensures IsLeap(100 * c + 4 * q + t + 1) <==> t == 3 && (q == 24 ==> c == 3)
  {
    var y := 100 * c + 4 * q + t + 1;
    assert y % 4 == 0 <==> t == 3;
    assert y % 100 == 0 <==> t == 3 && q == 24;
    assert y % 400 == 0 <==> t == 3 && q == 24 && c == 3;
  }

  lemma {:induction false} Cycle4(y: int, era: int)
    ensures (y + era * 400) % 4 == y % 4
  {
    assert y + era * 400 == 4 * (y / 4 + 100 * era) + y % 4;
  }

  lemma {:induction false} Cycle100(y: int, era: int)
    ensures (y + era * 400) % 100 == y % 100
  {
    assert y + era * 400 == 100 * (y / 100 + 4 * era) + y % 100;
  }

  lemma {:induction false} Cycle400(y: int, era: int)
    ensures (y + era * 400) % 400 == y % 400
  {
    assert y + era * 400 == 400 * (y / 400 + era) + y % 400;
  }

  /** Leap years repeat every era. */
  lemma {:induction false} LeapCycle(y: int, era: int)
    ensures IsLeap(y + era * 400) == IsLeap(y)
  {
    Cycle4(y, era);
    Cycle100(y, era);
    Cycle400(y, era);
  }

  lemma {:induction false} SplitYear(yoe: int) returns (c: int, q: int, t: int)
    requires 0 <= yoe < 400
    ensures 0 <= c <= 3 && 0 <= q <= 24 && 0 <= t <= 3 && yoe == 100 * c + 4 * q + t
  {
    c, q, t := yoe / 100, yoe % 100 / 4, yoe % 4;
  }

  /** The year formula, in terms of years. */
  lemma {:induction false} YearOfDay(yoe: int, doy: int)
    requires 0 <= yoe < 400 && 0 <= doy < YearDays(yoe)
    ensures 0 <= DaysBeforeYear(yoe) + doy < 146_097
    ensures YearOfEra(DaysBeforeYear(yoe) + doy) == yoe
  {
    var c, q, t := SplitYear(yoe);
    BeforeYear(c, q, t);
    LeapYear(c, q, t);
    YearFormula(c, q, t, doy);
    assert DayOfEra(c, q, t, doy) == DaysBeforeYear(yoe) + doy;
  }

  lemma {:induction false} DayOfYear(doe: int)
    requires 0 <= doe < 146_097
    ensures var yoe := YearOfEra(doe); 0 <= yoe < 400 && 0 <= doe - DaysBeforeYear(yoe) < YearDays(yoe)
  {
    var c, q, t, u := SplitDay(doe);
    YearFormula(c, q, t, u);
    BeforeYear(c, q, t);
    LeapYear(c, q, t);
  }

  // ---- Months of a March-based year ----

  /** Days of month `mp` in a year of `days` days. */
  function MarchMonthDays(mp: int, days: int): int {
    if mp == 11 then days - 337 else DaysBeforeMonth(mp + 1) - DaysBeforeMonth(mp)
  }

  lemma {:induction false} MonthOfDay(mp: int, d: int)
    requires 0 <= mp <= 11 && 1 <= d <= MarchMonthDays(mp, 366)
    ensures var doy := DaysBeforeMonth(mp) + d - 1; 0 <= doy < 366 && (5 * doy + 2) / 153 == mp
  {
  }

  lemma {:induction false} DayOfMonth(doy: int)
    requires 0 <= doy < 366
    ensures var mp := (5 * doy + 2) / 153;
            0 <= mp <= 11 && 1 <= doy - DaysBeforeMonth(mp) + 1 <= MarchMonthDays(mp, 366)
            && (doy < 365 ==> doy - DaysBeforeMonth(mp) + 1 <= MarchMonthDays(mp, 365))
  {
  }

  lemma {:induction false} SameMonths(yoe: int, era: int, mp: int)
    requires 0 <= yoe < 400 && 0 <= mp <= 11
    ensures var date := FromMarch(yoe + era * 400, mp, 1);
            MonthDays(date.y, date.m) == MarchMonthDays(mp, YearDays(yoe))
  {
    LeapCycle(yoe + 1, era);
    assert yoe + 1 + era * 400 == yoe + era * 400 + 1;
  }

  predicate IsMarchDate(yoe: int, mp: int, d: int) {
    0 <= yoe < 400 && 0 <= mp <= 11 && 1 <= d <= MarchMonthDays(mp, YearDays(yoe))
  }

  /** The number of the day `d` of month `mp` of year `yoe` of an era. */
  function MarchNumber(era: int, yoe: int, mp: int, d: int): int {
    era * 146_097 + DaysBeforeYear(yoe) + DaysBeforeMonth(mp) + d - 1 - 719_468
  }

  /** A Gregorian date is a day of a March-based year. */
  lemma {:induction false} PartsOf(date: Date) returns (era: int, yoe: int, mp: int)
    requires IsDate(date)
    ensures IsMarchDate(yoe, mp, date.d) && date == FromMarch(yoe + era * 400, mp, date.d)
  {
    var y := date.y - (if date.m <= 2 then 1 else 0);
    era, yoe := y / 400, y % 400;
    mp := if date.m > 2 then date.m - 3 else date.m + 9;
    SameMonths(yoe, era, mp);
  }

  lemma {:induction false} FromMarchIsDate(era: int, yoe: int, mp: int, d: int)
    requires IsMarchDate(yoe, mp, d)
    ensures IsDate(FromMarch(yoe + era * 400, mp, d))
  {
    SameMonths(yoe, era, mp);
  }

  lemma {:induction false} EraOf(era: int, yoe: int)
    requires 0 <= yoe < 400
    ensures (yoe + era * 400) / 400 == era && (yoe + era * 400) % 400 == yoe
  {
  }

  lemma {:induction false} NumberOf(era: int, yoe: int, mp: int, d: int)
    requires IsMarchDate(yoe, mp, d)
    ensures DaysFromCivil(FromMarch(yoe + era * 400, mp, d)) == MarchNumber(era, yoe, mp, d)
  {
    EraOf(era, yoe);
  }

  lemma {:induction false} EraOfDay(era: int, doe: int)
    requires 0 <= doe < 146_097
    ensures (era * 146_097 + doe) / 146_097 == era && (era * 146_097 + doe) % 146_097 == doe
  {
  }

  // ---- The theorems ----

  lemma {:induction false} InEraOf(era: int, yoe: int, mp: int, d: int)
    requires IsMarchDate(yoe, mp, d)
    ensures var doe := DaysBeforeYear(yoe) + (DaysBeforeMonth(mp) + d - 1);
            0 <= doe < 146_097 && InEra(era, doe) == FromMarch(yoe + era * 400, mp, d)
  {
    MonthOfDay(mp, d);
    YearOfDay(yoe, DaysBeforeMonth(mp) + d - 1);
  }

  lemma {:induction false} CivilOf(era: int, yoe: int, mp: int, d: int)
    requires IsMarchDate(yoe, mp, d)
    ensures CivilFromDays(MarchNumber(era, yoe, mp, d)) == FromMarch(yoe + era * 400, mp, d)
  {
    var doe := DaysBeforeYear(yoe) + (DaysBeforeMonth(mp) + d - 1);
    InEraOf(era, yoe, mp, d);
    EraOfDay(era, doe);
    assert MarchNumber(era, yoe, mp, d) + 719_468 == era * 146_097 + doe;
  }

  lemma {:induction false} CivilAt(z: int, era: int, yoe: int, mp: int, d: int)
    requires IsMarchDate(yoe, mp, d) && z == MarchNumber(era, yoe, mp, d)
    ensures CivilFromDays(z) == FromMarch(yoe + era * 400, mp, d)
  {
    CivilOf(era, yoe, mp, d);
  }

  /** Every Gregorian date comes back from its day number. */
  lemma {:induction false} DateRoundTrip(date: Date)
    requires IsDate(date)
    ensures CivilFromDays(DaysFromCivil(date)) == date
  {
    var era, yoe, mp := PartsOf(date);
    NumberOf(era, yoe, mp, date.d);
    CivilOf(era, yoe, mp, date.d);
  }

  lemma {:induction false} PartsOfDay(z: int) returns (era: int, yoe: int, mp: int, d: int)
    ensures IsMarchDate(yoe, mp, d) && MarchNumber(era, yoe, mp, d) == z
  {
    era := (z + 719_468) / 146_097;
    var doe := (z + 719_468) % 146_097;
    yoe := YearOfEra(doe);
    DayOfYear(doe);
    var doy := doe - DaysBeforeYear(yoe);
    DayOfMonth(doy);
    mp := (5 * doy + 2) / 153;
    d := doy - DaysBeforeMonth(mp) + 1;
  }

  /** Every day number is a Gregorian date, and comes back from it. */
  lemma {:induction false} DayRoundTrip(z: int)
    ensures IsDate(CivilFromDays(z)) && DaysFromCivil(CivilFromDays(z)) == z
  {
    var era, yoe, mp, d := PartsOfDay(z);
    CivilOf(era, yoe, mp, d);
    FromMarchIsDate(era, yoe, mp, d);
    NumberOf(era, yoe, mp, d);
  }

  /** A year ends where the next one starts, and an era with its last year. */
  lemma {:induction false} YearsInOrder(yoe: int)
    requires 0 <= yoe < 400
    ensures DaysBeforeYear(yoe) + YearDays(yoe) == if yoe == 399 then 146_097 else DaysBeforeYear(yoe + 1)
  {
    var c, q, t := SplitYear(yoe);
    BeforeYear(c, q, t);
    LeapYear(c, q, t);
    if t < 3 {
      BeforeYear(c, q, t + 1);
    } else if q < 24 {
      BeforeYear(c, q + 1, 0);
    } else {
      BeforeYear(c + 1, 0, 0);
    }
  }

  /** The next date, in March-based parts. */
  lemma {:induction false} NextParts(era: int, yoe: int, mp: int, d: int)
    requires IsMarchDate(yoe, mp, d)
    ensures NextDate(FromMarch(yoe + era * 400, mp, d))
            == if d < MarchMonthDays(mp, YearDays(yoe)) then FromMarch(yoe + era * 400, mp, d + 1)
               else if mp < 11 then FromMarch(yoe + era * 400, mp + 1, 1)
               else FromMarch(yoe + era * 400 + 1, 0, 1)
  {
    SameMonths(yoe, era, mp);
  }

  lemma {:induction false} NextNumber(era: int, yoe: int, mp: int, d: int)
      returns (era': int, yoe': int, mp': int, d': int)
    requires IsMarchDate(yoe, mp, d)
    ensures IsMarchDate(yoe', mp', d') && MarchNumber(era', yoe', mp', d') == MarchNumber(era, yoe, mp, d) + 1
    ensures FromMarch(yoe' + era' * 400, mp', d') == NextDate(FromMarch(yoe + era * 400, mp, d))
  {
    NextParts(era, yoe, mp, d);
    era', yoe', mp', d' := era, yoe, mp, 1;
    if d < MarchMonthDays(mp, YearDays(yoe)) {
      d' := d + 1;
    } else if mp < 11 {
      mp' := mp + 1;
    } else {
      YearsInOrder(yoe);
      mp' := 0;
      if yoe < 399 {
        yoe' := yoe + 1;
      } else {
        era', yoe' := era + 1, 0;
      }
    }
  }

  /** Consecutive days are consecutive dates, by the Gregorian rules for months and leap years. */
  lemma {:induction false} DaysInOrder(z: int)
    ensures CivilFromDays(z + 1) == NextDate(CivilFromDays(z))
  {
    var era, yoe, mp, d := PartsOfDay(z);
    var era', yoe', mp', d' := NextNumber(era, yoe, mp, d);
    CivilAt(z, era, yoe, mp, d);
    CivilAt(z + 1, era', yoe', mp', d');
  }

  /** Day 0 is 1 January 1970. */
  lemma {:induction false} Epoch()
    ensures CivilFromDays(0) == Date(1970, 1, 1)
  {
    assert IsMarchDate(369, 10, 1) && MarchNumber(4, 369, 10, 1) == 0;
    CivilOf(4, 369, 10, 1);
  }

  // ---- The usage window ----

  const MS_PER_DAY: nat := 86_400_000

  datatype Window = Day | Month

  /** The number of the first day of the month of a day. */
  function FirstOfMonth(day: int): int {
    var today := CivilFromDays(day);
    DaysFromCivil(Date(today.y, today.m, 1))
  }

  /** The start of the current usage window, in milliseconds since the epoch. */
  function WindowStart(window: Window, now: nat): nat {
    var dayStart := now - now % MS_PER_DAY;
    match window
    case Day => dayStart
    case Month => Max(FirstOfMonth(dayStart / MS_PER_DAY), 0) * MS_PER_DAY
  }

  /** Midnight, of the first of a month when the window is a month. */
  predicate StartsWindow(window: Window, ms: nat) {
    ms % MS_PER_DAY == 0 && (window.Month? ==> CivilFromDays(ms / MS_PER_DAY).d == 1)
  }

  lemma {:induction false} DateOf(date: Date, z: int)
    requires IsDate(date) && z == DaysFromCivil(date)
    ensures CivilFromDays(z) == date
  {
    DateRoundTrip(date);
  }

  /** The month of `day` starts no earlier than day 0, and no later day up to `day` starts a month. */
  lemma {:induction false} MonthStart(day: nat, other: nat)
    requires other <= day
    ensures 0 <= FirstOfMonth(day) <= day && CivilFromDays(FirstOfMonth(day)).d == 1
    ensures FirstOfMonth(day) < other ==> CivilFromDays(other).d != 1
  {
    var (date, first) := (CivilFromDays(day), FirstOfMonth(day));
    DayRoundTrip(day);
    DateOf(Date(date.y, date.m, 1), first);
    if first < other {
      DateOf(Date(date.y, date.m, other - first + 1), other);
    }
    if first < 0 {
      Epoch();
      DateOf(Date(date.y, date.m, 1 - first), 0);
    }
  }

  lemma {:induction false} Midnight(day: nat)
    ensures day * MS_PER_DAY % MS_PER_DAY == 0 && day * MS_PER_DAY / MS_PER_DAY == day
  {
  }

  lemma {:induction false} DayStart(now: nat)
    ensures now - now % MS_PER_DAY == now / MS_PER_DAY * MS_PER_DAY <= now
    ensures (now - now % MS_PER_DAY) / MS_PER_DAY == now / MS_PER_DAY
  {
    Midnight(now / MS_PER_DAY);
  }

  lemma {:induction false} MonthWindowIs(now: nat)
    ensures 0 <= FirstOfMonth(now / MS_PER_DAY) <= now / MS_PER_DAY
    ensures WindowStart(Month, now) == FirstOfMonth(now / MS_PER_DAY) * MS_PER_DAY
  {
    DayStart(now);
    MonthStart(now / MS_PER_DAY, 0);
  }

  lemma {:induction false} MonthWindowStarts(now: nat)
    ensures WindowStart(Month, now) <= now && StartsWindow(Month, WindowStart(Month, now))
  {
    DayStart(now);
    MonthWindowIs(now);
    MonthStart(now / MS_PER_DAY, 0);
    Midnight(FirstOfMonth(now / MS_PER_DAY));
  }

  /** The window starts at the latest midnight, or first-of-month midnight, at or before now. */
  lemma {:induction false} WindowStartIsLatest(window: Window, now: nat)
    ensures var start := WindowStart(window, now);
            && start <= now && StartsWindow(window, start)
            && forall other: nat | StartsWindow(window, other) && other <= now :: other <= start
  {
    if window.Month? {
      MonthWindowStarts(now);
      forall other: nat | StartsWindow(window, other) && other <= now
        ensures other <= WindowStart(Month, now)
      {
        var (day, other') := (now / MS_PER_DAY, other / MS_PER_DAY);
        MonthWindowIs(now);
        MonthStart(day, other');
        MulMono(other', FirstOfMonth(day), MS_PER_DAY);
      }
    }
  }
}
