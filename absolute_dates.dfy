/** The static constructors of matter-of-time that build a date from
    today's: `MatterOfTime.month` (behind `january` ... `december`),
    `nthWeekdayOfMonth` (behind `first` ... `fifth`) and
    `lastWeekdayOfMonth` (behind `last.<day>.of`). The current time is the
    parameter `now`. These functions give the dates the steps of the
    library reach; the methods in module Mot take the steps themselves. */
module AbsoluteDates {
  import opened Wrappers
  import opened EcmaDate
  import CalendarMath
  import Weekdays

  /** `new Date(year, month, date)`: midnight of that day, with a year of 0
      to 99 read as 1900 to 1999. */
  function NewDate(year: int, month: int, date: int): (t: int)
    ensures TimeWithinDay(t) == 0
  {
    var y := ConstructorYear(year);
    DecodeDayTime(MakeDay(y, month, date), 0);
    MakeDate(MakeDay(y, month, date), 0)
  }

  /** The year the Date constructor uses for a year argument. */
  function ConstructorYear(year: int): (y: int)
    ensures 0 <= year <= 99 ==> y == 1900 + year
    ensures !(0 <= year <= 99) ==> y == year
  {
    if 0 <= year <= 99 then 1900 + year else year
  }

  /** A valid calendar date is built as given, in the constructor's year. */
  lemma NewDateFields(year: int, month: int, date: int)
    requires 0 <= month < 12 && 1 <= date <= DaysInMonth(ConstructorYear(year), month)
    ensures IsDate(NewDate(year, month, date), ConstructorYear(year), month, date)
    ensures Day(NewDate(year, month, date)) == MakeDay(ConstructorYear(year), month, date)
  {
    var y := ConstructorYear(year);
    var day := MakeDay(y, month, date);
    assert NewDate(year, month, date) == MakeDate(day, 0);
    DecodeDayTime(day, 0);
    DecodeMakeDay(y, month, date);
  }

  function Min(a: int, b: int): int { if a <= b then a else b }

  // ---------------------------------------------------------------------
  // MatterOfTime.month(index, date)

  /** The date `month(index, date)` returns: the date of month `index`
      (1 to 12) of this year, at midnight, capped by the last date of the
      month as the library's table gives it for the YEAR `date`. */
  function MonthValue(index: int, date: int, now: int): int {
    var year := YearFromTime(now);
    var month := index - 1;
    NewDate(year, month, Min(CalendarMath.LastDateOfMonth(month, date), date))
  }

  /** Outside February the table does not depend on the year. */
  lemma NotFebruaryLength(m: int, y: int, z: int)
    requires 0 <= m < 12 && m != 1
    ensures CalendarMath.LastDateOfMonth(m, z) == DaysInMonth(y, m)
  {
  }

  /** Outside February, `month(index, date)` is the date of that month of
      this year, capped at the month's length. */
  lemma MonthValueCaps(index: int, date: int, now: int)
    requires 1 <= index <= 12 && index != 2 && date >= 1
    ensures var y := ConstructorYear(YearFromTime(now));
      IsDate(MonthValue(index, date, now), y, index - 1, Min(date, DaysInMonth(y, index - 1)))
    ensures TimeWithinDay(MonthValue(index, date, now)) == 0
  {
    var y, m := ConstructorYear(YearFromTime(now)), index - 1;
    NotFebruaryLength(m, y, date);
    NewDateFields(YearFromTime(now), m, Min(date, DaysInMonth(y, m)));
  }

  /** In February the cap is taken from the table for the year `date`, so
      the 29th is capped to the 28th in every year, and a date up to 28 is
      kept. */
  lemma FebruaryValue(date: int, now: int)
    requires 1 <= date <= 29
    ensures IsDate(MonthValue(2, date, now), ConstructorYear(YearFromTime(now)), 1, Min(date, 28))
  {
    var d := Min(CalendarMath.LastDateOfMonth(1, date), date);
    assert d == Min(date, 28);
    NewDateFields(YearFromTime(now), 1, d);
  }

  /** The library's examples: `november(20)`, and `january(4)` and `may(1)`
      moved into a year with `in`. */
  lemma NovemberTwentieth(now: int)
    ensures IsDate(MonthValue(11, 20, now), ConstructorYear(YearFromTime(now)), 10, 20)
  {
    MonthValueCaps(11, 20, now);
  }

  lemma JanuaryFourthIn2020(now: int)
    ensures IsDate(CalendarMath.InValue(MonthValue(1, 4, now), 2020), 2020, 0, 4)
  {
    var t := MonthValue(1, 4, now);
    MonthValueCaps(1, 4, now);
    var c := 2020 - YearFromTime(t);
    assert CalendarMath.InValue(t, 2020) == CalendarMath.AddYearsValue(t, c, false);
    CalendarMath.AddYearsKeepsDate(t, c, false, 2020);
  }

  lemma MayFirstIn2015(now: int)
    ensures IsDate(CalendarMath.InValue(MonthValue(5, 1, now), 2015), 2015, 4, 1)
  {
    var t := MonthValue(5, 1, now);
    MonthValueCaps(5, 1, now);
    var c := 2015 - YearFromTime(t);
    assert CalendarMath.InValue(t, 2015) == CalendarMath.AddYearsValue(t, c, false);
    CalendarMath.AddYearsKeepsDate(t, c, false, 2015);
  }

  // ---------------------------------------------------------------------
  // nthWeekdayOfMonth(day, nth, month, year)

  /** The RangeErrors the two weekday constructors throw. */
  datatype RangeError = DayOutOfRange | NthNotPositive | NthAboveFive | MonthOutOfRange

  /** `if (year)`: an absent year and the year 0 are both skipped. */
  predicate Truthy(year: Option<int>) {
    year.Some? && year.value != 0
  }

  /** `new MatterOfTime(y, m, d)` of today's fields: today at midnight. */
  function Today(now: int): int {
    NewDate(YearFromTime(now), MonthFromTime(now), DateFromTime(now))
  }

  /** Where the walk of nthWeekdayOfMonth starts: the first of the month. */
  function NthStart(month: Option<int>, year: Option<int>, now: int): int {
    YearSet(MonthSet(SetDate(Today(now), 1), month), year)
  }

  /** `if (month !== undefined) mot.setMonth(month)` */
  function MonthSet(t: int, month: Option<int>): int {
    if month.Some? then SetMonth(t, month.value) else t
  }

  /** `if (year) mot.setFullYear(year)` */
  function YearSet(t: int, year: Option<int>): int {
    if Truthy(year) then SetFullYear(t, year.value) else t
  }

  /** The number of days from t to the first day strictly after it that
      falls on weekday `day`. */
  function DaysToNext(t: int, day: int): (k: int)
    ensures 1 <= k <= 7
  {
    (day - WeekDay(t) - 1) % 7 + 1
  }

  /** Where the walk ends: `nth` times, one day on and then on until the
      weekday is `day`. */
  function NthWalk(s: int, day: int, nth: int): int {
    Weekdays.DaysOn(s, NthOffset(s, day, nth))
  }

  /** The number of days the walk covers. */
  function NthOffset(s: int, day: int, nth: int): int {
    DaysToNext(s, day) + 7 * (nth - 1)
  }

  /** The result of nthWeekdayOfMonth: a RangeError, `undefined` (None) when
      the walk has left the month or no month was given, or the date. */
  function NthWeekdayValue(day: int, nth: int, month: Option<int>, year: Option<int>, now: int): Result<Option<int>, RangeError> {
    if day < 0 || day > 6 then Err(DayOutOfRange)
    else if nth <= 0 then Err(NthNotPositive)
    else if nth > 5 then Err(NthAboveFive)
    else if month.Some? && (month.value < 0 || month.value > 11) then Err(MonthOutOfRange)
    else
      var r := NthWalk(NthStart(month, year, now), day, nth);
      if month.None? || MonthFromTime(r) != month.value then Ok(None) else Ok(Some(r))
  }

  /** The number of days among the n days after s that fall on weekday
      `day`: the reference for "the nth such day". */
  function Occurrences(s: int, day: int, n: nat): nat {
    if n == 0 then 0
    else Occurrences(s, day, n - 1) + (if WeekDay(Weekdays.DaysOn(s, n)) == day then 1 else 0)
  }

  /** DaysToNext is the offset of `upcoming`. */
  lemma DaysToNextIsUpcoming(t: int, day: int)
    requires 0 <= day < 7
    ensures Weekdays.DaysOn(t, DaysToNext(t, day)) == Weekdays.UpcomingWeekday(t, day)
  {
    var w := WeekDay(t);
    if w >= day {
      Weekdays.NextWeekdayOffset(t, day, day - w + 7);
    } else {
      Weekdays.CurrentWeekdayOffset(t, day, day - w);
    }
    UpcomingOffset(w, day);
  }

  /** The offset of `upcoming` from weekday w, as one remainder. */
  lemma UpcomingOffset(w: int, day: int)
    requires 0 <= w < 7 && 0 <= day < 7
    ensures (day - w - 1) % 7 + 1 == if w >= day then day - w + 7 else day - w
  {
  }

  /** DaysToNext(t, day) days after t is the first day after t on weekday
      `day`. */
  lemma DaysToNextIsFirst(t: int, day: int)
    requires 0 <= day < 7
    ensures WeekDay(Weekdays.DaysOn(t, DaysToNext(t, day))) == day
    ensures forall j :: 1 <= j < DaysToNext(t, day) ==> WeekDay(Weekdays.DaysOn(t, j)) != day
  {
    DaysToNextIsUpcoming(t, day);
    Weekdays.UpcomingIsNextOccurrence(t, day);
  }

  /** No day before the first occurrence counts. */
  lemma {:induction false} OccurrencesBeforeFirst(s: int, day: int, n: nat)
    requires 0 <= day < 7 && n < DaysToNext(s, day)
    ensures Occurrences(s, day, n) == 0
  {
    if n > 0 {
      DaysToNextIsFirst(s, day);
      OccurrencesBeforeFirst(s, day, n - 1);
    }
  }

  /** Seven days on from a day on weekday `day` is that weekday again, and
      none of the six days between is. */
  lemma WeekLater(s: int, day: int, k: int, i: int)
    requires 0 <= day < 7 && WeekDay(Weekdays.DaysOn(s, k)) == day && 1 <= i <= 7
    ensures WeekDay(Weekdays.DaysOn(s, k + i)) == day <==> i == 7
  {
    var w := WeekDay(s);
    Weekdays.DaysOnFields(s, k);
    Weekdays.DaysOnFields(s, k + i);
    SameResidue(w + k, i, day);
  }

  lemma SameResidue(x: int, i: int, day: int)
    requires 0 <= day < 7 && x % 7 == day && 1 <= i <= 7
    ensures (x + i) % 7 == day <==> i == 7
  {
  }

  /** The days after an occurrence of `day` add nothing to the count for
      the rest of its week. */
  lemma {:induction false} OccurrencesGap(s: int, day: int, k: nat, i: nat)
    requires 0 <= day < 7 && WeekDay(Weekdays.DaysOn(s, k)) == day && i <= 6
    ensures Occurrences(s, day, k + i) == Occurrences(s, day, k)
  {
    if i > 0 {
      OccurrencesGap(s, day, k, i - 1);
      WeekLater(s, day, k, i);
    }
  }

  /** A week after an occurrence of `day` comes the next one. */
  lemma OccurrencesWeek(s: int, day: int, p: nat)
    requires 0 <= day < 7 && WeekDay(Weekdays.DaysOn(s, p)) == day
    ensures WeekDay(Weekdays.DaysOn(s, p + 7)) == day
    ensures Occurrences(s, day, p + 7) == Occurrences(s, day, p) + 1
  {
    OccurrencesGap(s, day, p, 6);
    WeekLater(s, day, p, 7);
  }

  /** The walk ends on the nth day after s that falls on weekday `day`. */
  lemma {:induction false} NthWalkIsNth(s: int, day: int, nth: int)
    requires 0 <= day < 7 && nth >= 1
    ensures WeekDay(NthWalk(s, day, nth)) == day
    ensures TimeWithinDay(NthWalk(s, day, nth)) == TimeWithinDay(s)
    ensures NthOffset(s, day, nth) >= 1
    ensures Occurrences(s, day, NthOffset(s, day, nth)) == nth
  {
    var k0 := DaysToNext(s, day);
    var k := NthOffset(s, day, nth);
    assert NthWalk(s, day, nth) == Weekdays.DaysOn(s, k);
    Weekdays.DaysOnFields(s, k);
    if nth == 1 {
      DaysToNextIsFirst(s, day);
      OccurrencesBeforeFirst(s, day, k0 - 1);
    } else {
      var p := k - 7;
      NthWalkIsNth(s, day, nth - 1);
      assert NthWalk(s, day, nth - 1) == Weekdays.DaysOn(s, p);
      OccurrencesWeek(s, day, p);
    }
  }

  /** The month and the year the walk of nthWeekdayOfMonth runs in: the
      ones given, or today's. */
  function StartMonth(month: Option<int>, now: int): int {
    if month.Some? then month.value else MonthFromTime(Today(now))
  }

  function StartYear(year: Option<int>, now: int): int {
    if Truthy(year) then year.value else YearFromTime(Today(now))
  }

  /** A day that starts on the first of month m of year y, at time w. */
  lemma AtFirst(t: int, y: int, m: int, w: int)
    requires Day(t) == MakeDay(y, m, 1) && TimeWithinDay(t) == w
    ensures t == MakeDate(MakeDay(y, m, 1), w)
  {
    DecodeDayTime(MakeDay(y, m, 1), w);
    SameDayAndTime(t, MakeDate(MakeDay(y, m, 1), w));
  }

  /** Each of the steps before the walk keeps the time on the first of a
      month, at midnight. */
  lemma FirstAfterSetMonth(t: int, y: int, m: int)
    requires YearFromTime(t) == y && DateFromTime(t) == 1
    ensures Day(SetMonth(t, m)) == MakeDay(y, m, 1)
    ensures TimeWithinDay(SetMonth(t, m)) == TimeWithinDay(t)
  {
    SetMonthFields(t, m);
  }

  lemma FirstAfterSetFullYear(t: int, y: int, m: int, year: int)
    requires 0 <= m < 12 && Day(t) == MakeDay(y, m, 1)
    ensures Day(SetFullYear(t, year)) == MakeDay(year, m, 1)
    ensures TimeWithinDay(SetFullYear(t, year)) == TimeWithinDay(t)
  {
    FirstFields(t, y, m);
    assert m % 12 == m;
    assert MonthFromTime(t) == m && DateFromTime(t) == 1;
    SetFullYearFields(t, year);
  }

  /** The walk of nthWeekdayOfMonth starts at midnight on the first of the
      month given (or this month), in the year given (or this year). */
  lemma NthStartIsFirst(month: Option<int>, year: Option<int>, now: int)
    requires month.Some? ==> 0 <= month.value < 12
    ensures NthStart(month, year, now) == MakeDate(MakeDay(StartYear(year, now), StartMonth(month, now), 1), 0)
  {
    var today := Today(now);
    var y0 := YearFromTime(today);
    var m := StartMonth(month, now);
    var t1 := MonthSet(SetDate(today, 1), month);
    MonthSetOnFirst(today, month, m);
    var y := StartYear(year, now);
    var t2 := YearSet(t1, year);
    if Truthy(year) {
      FirstAfterSetFullYear(t1, y0, m, year.value);
    }
    assert NthStart(month, year, now) == t2;
    AtFirst(t2, y, m, 0);
  }

  /** The date k days after the first of a month: in the month while the
      month lasts, and in the next month for four weeks after it. */
  lemma DayInMonth(y: int, m: int, k: int)
    requires 0 <= m < 12 && 0 <= k < DaysInMonth(y, m)
    ensures YearOfDay(MakeDay(y, m, 1) + k) == y
    ensures MonthOfDay(MakeDay(y, m, 1) + k) == m
    ensures DateOfDay(MakeDay(y, m, 1) + k) == 1 + k
  {
    MakeDayNormal(y, m, 1 + k, y, m);
    DecodeMakeDay(y, m, 1 + k);
  }

  lemma DayInNextMonth(y: int, m: int, k: int)
    requires 0 <= m < 12 && DaysInMonth(y, m) <= k < DaysInMonth(y, m) + 28
    ensures MonthOfDay(MakeDay(y, m, 1) + k) == (m + 1) % 12 != m
  {
    var n := DaysInMonth(y, m);
    var first := MakeDay(y, m, 1);
    NextMonthStart(y, m);
    var ny, nm := y + (m + 1) / 12, (m + 1) % 12;
    NextMonthIndex(m, nm);
    var j := k - n;
    MakeDayNormal(y, m + 1, 1 + j, ny, nm);
    MakeDayNormal(y, m + 1, 1, ny, nm);
    assert first + k == MakeDay(ny, nm, 1 + j);
    DecodeMakeDay(ny, nm, 1 + j);
  }

  lemma NextMonthIndex(m: int, nm: int)
    requires 0 <= m < 12 && nm == (m + 1) % 12
    ensures 0 <= nm < 12 && nm != m
  {
  }

  lemma NextMonthCases(m: int, ny: int, nm: int, y: int)
    requires 0 <= m < 12 && nm == (m + 1) % 12 && ny == y + (m + 1) / 12
    ensures m == 11 ==> nm == 0 && ny == y + 1
    ensures m < 11 ==> nm == m + 1 && ny == y
  {
  }

  /** nthWeekdayOfMonth with a month: the walk from the first of the month
      lands on weekday `day` at midnight, on the date 1 + k where k is the
      nth day after the first on that weekday (so never on the first
      itself), and the result is that date when it is still in the month
      and undefined when it is not. */
  lemma NthWeekdayInMonth(day: int, nth: int, m: int, year: Option<int>, now: int)
    requires 0 <= day < 7 && 1 <= nth <= 5 && 0 <= m < 12
    ensures NthWeekdayValue(day, nth, Some(m), year, now).Ok?
    ensures var v := NthWeekdayValue(day, nth, Some(m), year, now).value;
      var y := StartYear(year, now);
      var k := NthOffset(MakeDate(MakeDay(y, m, 1), 0), day, nth);
      && (v.Some? <==> 1 + k <= DaysInMonth(y, m))
      && (v.Some? ==> IsDate(v.value, y, m, 1 + k) && WeekDay(v.value) == day && TimeWithinDay(v.value) == 0)
  {
    var y := StartYear(year, now);
    var s := MakeDate(MakeDay(y, m, 1), 0);
    NthStartIsFirst(Some(m), year, now);
    assert StartMonth(Some(m), now) == m;
    var k := NthOffset(s, day, nth);
    NthWalkIsNth(s, day, nth);
    var r := NthWalk(s, day, nth);
    NthWeekdayWalks(day, nth, Some(m), year, now, s);
    assert r == Weekdays.DaysOn(s, k);
    DecodeDayTime(MakeDay(y, m, 1), 0);
    Weekdays.DaysOnFields(s, k);
    assert Day(r) == MakeDay(y, m, 1) + k;
    if 1 + k <= DaysInMonth(y, m) {
      DayInMonth(y, m, k);
      assert MonthFromTime(r) == m;
    } else {
      DayInNextMonth(y, m, k);
      assert MonthFromTime(r) == MonthOfDay(MakeDay(y, m, 1) + k) != m;
    }
  }

  /** Past its argument checks, nthWeekdayOfMonth gives the end of the walk
      from the start when a month is given and the walk is still in it, and
      undefined otherwise. */
  lemma NthWeekdayWalks(day: int, nth: int, month: Option<int>, year: Option<int>, now: int, s: int)
    requires 0 <= day <= 6 && 1 <= nth <= 5 && (month.Some? ==> 0 <= month.value <= 11)
    requires s == NthStart(month, year, now)
    ensures NthWeekdayValue(day, nth, month, year, now)
      == if month.None? || MonthFromTime(NthWalk(s, day, nth)) != month.value then Ok(None)
         else Ok(Some(NthWalk(s, day, nth)))
  {
  }

  /** Without a month, nthWeekdayOfMonth returns undefined or throws. */
  lemma NthWeekdayWithoutMonth(day: int, nth: int, year: Option<int>, now: int)
    ensures NthWeekdayValue(day, nth, None, year, now) != Ok(Some(now))
    ensures forall r :: NthWeekdayValue(day, nth, None, year, now) != Ok(Some(r))
  {
  }

  /** The RangeErrors, checked in the order day, nth, month. */
  lemma NthWeekdayErrors(day: int, nth: int, month: Option<int>, year: Option<int>, now: int)
    ensures NthWeekdayValue(day, nth, month, year, now).Err? <==>
      !(0 <= day <= 6) || nth < 1 || nth > 5 || (month.Some? && !(0 <= month.value <= 11))
    ensures !(0 <= day <= 6) ==> NthWeekdayValue(day, nth, month, year, now) == Err(DayOutOfRange)
    ensures 0 <= day <= 6 && 1 <= nth <= 5 && month.Some? && !(0 <= month.value <= 11) ==>
      NthWeekdayValue(day, nth, month, year, now) == Err(MonthOutOfRange)
  {
  }

  // The library's example `first.sunday.of.june(2018)`, the first Friday
  // of the same month, which starts on a Friday, and a fifth Friday that
  // February 2021 does not have.

  lemma JuneFirst2018()
    ensures var s := MakeDate(MakeDay(2018, 5, 1), 0);
      && WeekDay(s) == 5 && DaysInMonth(2018, 5) == 30
      && NthOffset(s, 0, 1) == 2 && NthOffset(s, 5, 1) == 7
  {
    June2018();
    var t := MakeDate(MakeDay(2018, 5, 1), 0);
    DecodeDayTime(17683, 0);
    assert Day(t) == 17683;
    assert WeekDay(t) == 5;
    assert DaysToNext(t, 0) == 2 && DaysToNext(t, 5) == 7;
  }

  /** June 2018 starts on day 17683 and has 30 days. */
  lemma June2018()
    ensures MakeDay(2018, 5, 1) == 17683 && DaysInMonth(2018, 5) == 30
  {
    MakeDayNormal(2018, 5, 1, 2018, 5);
    assert !InLeapYear(2018) && DayFromYear(2018) == 17532 && MonthStart(5, false) == 151;
  }

  lemma FirstSundayOfJune2018(now: int)
    ensures NthWeekdayValue(0, 1, Some(5), Some(2018), now).Ok?
    ensures var v := NthWeekdayValue(0, 1, Some(5), Some(2018), now).value;
      v.Some? && IsDate(v.value, 2018, 5, 3) && TimeWithinDay(v.value) == 0
  {
    NthWeekdayInMonth(0, 1, 5, Some(2018), now);
    JuneFirst2018();
    assert StartYear(Some(2018), now) == 2018;
  }

  lemma FirstFridayOfJune2018(now: int)
    ensures NthWeekdayValue(5, 1, Some(5), Some(2018), now).Ok?
    ensures var v := NthWeekdayValue(5, 1, Some(5), Some(2018), now).value;
      v.Some? && IsDate(v.value, 2018, 5, 8)
  {
    NthWeekdayInMonth(5, 1, 5, Some(2018), now);
    JuneFirst2018();
    assert StartYear(Some(2018), now) == 2018;
  }

  lemma FebruaryFirst2021()
    ensures var s := MakeDate(MakeDay(2021, 1, 1), 0);
      WeekDay(s) == 1 && DaysInMonth(2021, 1) == 28 && NthOffset(s, 5, 5) == 32
  {
    February2021();
    var t := MakeDate(MakeDay(2021, 1, 1), 0);
    DecodeDayTime(18659, 0);
    assert Day(t) == 18659;
    assert WeekDay(t) == 1;
    assert DaysToNext(t, 5) == 4;
  }

  /** February 2021 starts on day 18659 and has 28 days. */
  lemma February2021()
    ensures MakeDay(2021, 1, 1) == 18659 && DaysInMonth(2021, 1) == 28
  {
    MakeDayNormal(2021, 1, 1, 2021, 1);
    assert !InLeapYear(2021) && DayFromYear(2021) == 18628 && MonthStart(1, false) == 31;
    assert DaysInMonth(2021, 1) == MonthStart(2, false) - MonthStart(1, false);
  }

  lemma FifthFridayOfFebruary2021(now: int)
    ensures NthWeekdayValue(5, 5, Some(1), Some(2021), now) == Ok(None)
  {
    NthWeekdayInMonth(5, 5, 1, Some(2021), now);
    FebruaryFirst2021();
    assert StartYear(Some(2021), now) == 2021;
  }

  /** The first weekday of a month always exists: the walk ends within
      the first eight days. */
  lemma FirstWeekdayExists(day: int, m: int, year: Option<int>, now: int)
    requires 0 <= day < 7 && 0 <= m < 12
    ensures NthWeekdayValue(day, 1, Some(m), year, now).Ok?
    ensures NthWeekdayValue(day, 1, Some(m), year, now).value.Some?
  {
    NthWeekdayInMonth(day, 1, m, year, now);
  }

  // ---------------------------------------------------------------------
  // lastWeekdayOfMonth(day, month, year)

  /** Where the walk of lastWeekdayOfMonth starts: the first of the month
      after the one given (or this one), at the current time of day, with
      the year then set to the one given. */
  function LastStart(month: Option<int>, year: Option<int>, now: int): int {
    YearSet(MonthOn(MonthSet(SetDate(now, 1), month)), year)
  }

  /** `mot.setMonth(mot.getMonth() + 1)` */
  function MonthOn(t: int): int {
    SetMonth(t, MonthFromTime(t) + 1)
  }

  /** The number of days back from t to the last day strictly before it
      that falls on weekday `day`. */
  function DaysToPrevious(t: int, day: int): (k: int)
    ensures 1 <= k <= 7
  {
    (WeekDay(t) - day - 1) % 7 + 1
  }

  /** The time value k whole days before t. */
  function DaysBefore(t: int, k: int): int {
    Weekdays.DaysOn(t, -k)
  }

  /** The result of lastWeekdayOfMonth: a RangeError, or the date the walk
      back ends on. */
  function LastWeekdayValue(day: int, month: Option<int>, year: Option<int>, now: int): Result<int, RangeError> {
    if day < 0 || day > 6 then Err(DayOutOfRange)
    else if month.Some? && (month.value < 0 || month.value > 11) then Err(MonthOutOfRange)
    else
      var s := LastStart(month, year, now);
      Ok(DaysBefore(s, DaysToPrevious(s, day)))
  }

  /** The year whose month the walk back ends in. Setting the year after
      the month has been moved on means that for December the year given
      is the one of the following January, so the walk ends in December
      of the year before it. */
  function LastYear(m: int, year: Option<int>, now: int): int {
    if Truthy(year) then (if m == 11 then year.value - 1 else year.value) else YearFromTime(now)
  }

  /** DaysToPrevious(t, day) days before t is the last day before t on
      weekday `day`. */
  lemma DaysToPreviousIsLast(t: int, day: int)
    requires 0 <= day < 7
    ensures WeekDay(DaysBefore(t, DaysToPrevious(t, day))) == day
    ensures forall j :: 1 <= j < DaysToPrevious(t, day) ==> WeekDay(DaysBefore(t, j)) != day
  {
    var w := WeekDay(t);
    var k := DaysToPrevious(t, day);
    Weekdays.DaysOnFields(t, -k);
    BackIndex(w, k, day);
    forall j | 1 <= j < k
      ensures WeekDay(DaysBefore(t, j)) != day
    {
      Weekdays.DaysOnFields(t, -j);
      BackIndexMiss(w, k, j, day);
    }
  }

  lemma BackIndex(w: int, k: int, day: int)
    requires 0 <= w < 7 && 0 <= day < 7 && k == (w - day - 1) % 7 + 1
    ensures (w + -k) % 7 == day
  {
  }

  lemma BackIndexMiss(w: int, k: int, j: int, day: int)
    requires 0 <= w < 7 && 0 <= day < 7 && k == (w - day - 1) % 7 + 1 && 1 <= j < k
    ensures (w + -j) % 7 != day
  {
  }

  /** The walk of lastWeekdayOfMonth starts on the first of month m + 1
      of LastYear, at the current time of day. */
  lemma LastStartIsFirst(month: Option<int>, year: Option<int>, now: int, m: int)
    requires month.Some? ==> 0 <= month.value < 12
    requires m == if month.Some? then month.value else MonthFromTime(now)
    ensures LastStart(month, year, now) == MakeDate(MakeDay(LastYear(m, year, now), m + 1, 1), TimeWithinDay(now))
  {
    LastStartFields(month, year, now, m);
    AtFirst(LastStart(month, year, now), LastYear(m, year, now), m + 1, TimeWithinDay(now));
  }

  lemma LastStartFields(month: Option<int>, year: Option<int>, now: int, m: int)
    requires month.Some? ==> 0 <= month.value < 12
    requires m == if month.Some? then month.value else MonthFromTime(now)
    ensures Day(LastStart(month, year, now)) == MakeDay(LastYear(m, year, now), m + 1, 1)
    ensures TimeWithinDay(LastStart(month, year, now)) == TimeWithinDay(now)
  {
    var y0 := YearFromTime(now);
    var t1 := MonthSet(SetDate(now, 1), month);
    MonthSetOnFirst(now, month, m);
    var t2 := MonthOn(t1);
    MonthOnFirst(t1, y0, m);
    var t3 := YearSet(t2, year);
    assert LastStart(month, year, now) == t3;
    var ly := LastYear(m, year, now);
    if Truthy(year) {
      assert t3 == SetFullYear(t2, year.value);
      NextYearSet(t2, y0, m, year.value);
      assert ly == if m == 11 then year.value - 1 else year.value;
      assert Day(t3) == MakeDay(ly, m + 1, 1);
    } else {
      assert t3 == t2 && ly == y0;
      assert Day(t3) == MakeDay(ly, m + 1, 1);
    }
  }

  /** The first of month m of t's year, at t's time of day, after
      `setDate(1)` and the optional `setMonth(month)`. */
  lemma MonthSetOnFirst(t: int, month: Option<int>, m: int)
    requires month.Some? ==> 0 <= month.value < 12
    requires m == if month.Some? then month.value else MonthFromTime(t)
    ensures Day(MonthSet(SetDate(t, 1), month)) == MakeDay(YearFromTime(t), m, 1)
    ensures TimeWithinDay(MonthSet(SetDate(t, 1), month)) == TimeWithinDay(t)
  {
    var t0 := SetDate(t, 1);
    SetDateFields(t, 1);
    FirstOfSameMonth(t);
    if month.Some? {
      FirstAfterSetMonth(t0, YearFromTime(t), m);
    }
  }

  /** `setMonth(getMonth() + 1)` on the first of month m moves to the
      first of month m + 1. */
  lemma MonthOnFirst(t: int, y: int, m: int)
    requires 0 <= m < 12 && Day(t) == MakeDay(y, m, 1)
    ensures Day(MonthOn(t)) == MakeDay(y, m + 1, 1)
    ensures TimeWithinDay(MonthOn(t)) == TimeWithinDay(t)
  {
    var yt, mt := YearFromTime(t), MonthFromTime(t);
    FirstFields(t, y, m);
    SmallMonth(m);
    assert yt == y && mt == m;
    SetMonthFields(t, mt + 1);
  }

  /** Setting the year on the first of month m + 1 of year y, where m + 1
      may be 12, the January of the year after. */
  lemma NextYearSet(t: int, y: int, m: int, year: int)
    requires 0 <= m < 12 && Day(t) == MakeDay(y, m + 1, 1)
    ensures Day(SetFullYear(t, year)) == MakeDay(if m == 11 then year - 1 else year, m + 1, 1)
    ensures TimeWithinDay(SetFullYear(t, year)) == TimeWithinDay(t)
  {
    var ny, nm := y + (m + 1) / 12, (m + 1) % 12;
    NextMonthCases(m, ny, nm, y);
    MakeDayNormal(y, m + 1, 1, ny, nm);
    FirstAfterSetFullYear(t, ny, nm, year);
    if m == 11 {
      MakeDayCarry(year - 1, 0, 1, 1);
    }
  }

  /** lastWeekdayOfMonth with a month m: the walk back from the first of
      month m + 1 ends in month m of LastYear, on weekday `day`, at the
      current time of day, within the last seven days of the month, so on
      its last such weekday. */
  lemma LastWeekdayInMonth(day: int, m: int, year: Option<int>, now: int)
    requires 0 <= day < 7 && 0 <= m < 12
    ensures LastWeekdayValue(day, Some(m), year, now).Ok?
    ensures var r := LastWeekdayValue(day, Some(m), year, now).value;
      var y := LastYear(m, year, now);
      && YearFromTime(r) == y && MonthFromTime(r) == m
      && DaysInMonth(y, m) - 7 < DateFromTime(r)
      && WeekDay(r) == day
      && TimeWithinDay(r) == TimeWithinDay(now)
  {
    var y := LastYear(m, year, now);
    var w := TimeWithinDay(now);
    LastStartIsFirst(Some(m), year, now, m);
    var s := LastStart(Some(m), year, now);
    DecodeDayTime(MakeDay(y, m + 1, 1), w);
    var k := DaysToPrevious(s, day);
    var r := DaysBefore(s, k);
    assert LastWeekdayValue(day, Some(m), year, now) == Ok(r);
    DaysToPreviousIsLast(s, day);
    BackFromNextMonth(s, y, m, k);
  }

  /** One to seven days before the first of month m + 1 is in month m. */
  lemma BackFromNextMonth(s: int, y: int, m: int, k: int)
    requires 0 <= m < 12 && 1 <= k <= 7 && Day(s) == MakeDay(y, m + 1, 1)
    ensures YearFromTime(DaysBefore(s, k)) == y && MonthFromTime(DaysBefore(s, k)) == m
    ensures DateFromTime(DaysBefore(s, k)) == DaysInMonth(y, m) + 1 - k
    ensures TimeWithinDay(DaysBefore(s, k)) == TimeWithinDay(s)
  {
    NextMonthStart(y, m);
    Weekdays.DaysOnFields(s, -k);
    var n := DaysInMonth(y, m);
    var d := Day(DaysBefore(s, k));
    assert d == MakeDay(y, m, 1) + (n - k);
    DayInMonthAt(y, m, n - k, d);
  }

  lemma DayInMonthAt(y: int, m: int, k: int, d: int)
    requires 0 <= m < 12 && 0 <= k < DaysInMonth(y, m) && d == MakeDay(y, m, 1) + k
    ensures YearOfDay(d) == y && MonthOfDay(d) == m && DateOfDay(d) == 1 + k
  {
    DayInMonth(y, m, k);
  }

  /** For December with a year, the walk back ends in December of the
      year before the one given. */
  lemma LastWeekdayOfDecember(day: int, year: Option<int>, now: int)
    requires 0 <= day < 7 && Truthy(year)
    ensures LastWeekdayValue(day, Some(11), year, now).Ok?
    ensures var r := LastWeekdayValue(day, Some(11), year, now).value;
      YearFromTime(r) == year.value - 1 && MonthFromTime(r) == 11
  {
    LastWeekdayInMonth(day, 11, year, now);
  }

  /** Without a month, lastWeekdayOfMonth works in the current month. */
  lemma LastWeekdayWithoutMonth(day: int, year: Option<int>, now: int)
    ensures LastWeekdayValue(day, None, year, now) == LastWeekdayValue(day, Some(MonthFromTime(now)), year, now)
  {
    var m := MonthFromTime(now);
    LastStartIsFirst(None, year, now, m);
    LastStartIsFirst(Some(m), year, now, m);
    var s := LastStart(None, year, now);
    assert LastStart(Some(m), year, now) == s;
  }

  /** The RangeErrors, checked in the order day, month. */
  lemma LastWeekdayErrors(day: int, month: Option<int>, year: Option<int>, now: int)
    ensures LastWeekdayValue(day, month, year, now).Err? <==>
      !(0 <= day <= 6) || (month.Some? && !(0 <= month.value <= 11))
    ensures !(0 <= day <= 6) ==> LastWeekdayValue(day, month, year, now) == Err(DayOutOfRange)
  {
  }
}
