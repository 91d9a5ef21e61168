# matter-of-time in Dafny

A model of the matter-of-time microlibrary (`index.js`): a `Date` subclass
with calendar arithmetic. It covers:

- `addYears` and `addMonths` with their end-of-month policy and vanilla mode;
- `in(year)`, `isLastOfMonth` and the month-length table `getLastDateOfMonth`;
- the weekday helpers behind `current`, `next`, `last` and `upcoming`;
- `next`/`last` `week`, `month` and `year`;
- the time-of-day parser `at()`, its regular expression included;
- `from`, `tomorrow`, `yesterday` and the duration statics;
- `month(index, date)`;
- `nthWeekdayOfMonth` and `lastWeekdayOfMonth`, with their RangeErrors and
  their day-by-day loops.

A `Date` is its time value, an integer count of milliseconds, and every
calendar field is read in UTC.

Modules:

- `EcmaDate` (ecma_date.dfy): the `Date` primitives of ECMA-262, section
  21.4.1 (`Day`, `MakeDay`, `MakeDate`, `YearFromTime`, … and the
  `setX` built-ins as functions on time values), with the round trips
  between them (`DecodeMakeDay`, `EncodeDecode`, `DecodeMakeDate`,
  `SetDateShift`, …). These model the platform the library runs on, not the
  library, so they have no rows below.
- `JsNumber` (js_number.dfy): the truncating `%` and `Math.floor(a / b)` of
  JavaScript on integers.
- `Durations`, `CalendarMath`, `Weekdays`, `TimeOfDay`, `AbsoluteDates`: the
  library's logic as functions on time values, with what it promises proved
  as lemmas.
- `Mot` (matter_of_time.dfy): class `MatterOfTime`, whose field `time` the
  setters update in place. Its methods take the library's steps one setter
  call at a time, the two weekday loops included, and each method's
  `ensures` ties the result to the function the lemmas are about.

Where the library's own test suite (`test/test.js`) checks a value, a lemma
proves that value for the model; its row below cites the test's line.

## Model

| member | source | states |
|---|---|---|
| Mot.MatterOfTime.constructor | index.js:10-13 | a MatterOfTime built from a time value (or a copy of another) holds that time value |
| Mot.MatterOfTime.FromFields | index.js:605 | `new MatterOfTime(y, m, d)` holds midnight of that day, with the constructor's 0-99 year mapping |
| Mot.MatterOfTime.IsLastOfMonth | index.js:257-259 | true exactly when the date field equals the table's last date for the receiver's month and year |
| Mot.MatterOfTime.At | index.js:124-156 | the new time value and the error thrown are exactly those of `TimeOfDay.At`; when the fields are set before the am/pm check throws, they stay set |
| Mot.MatterOfTime.From | index.js:170-172 | a fresh date whose time value is the sum of the two |
| Mot.MatterOfTime.Tomorrow | index.js:181-183 | a fresh date one day (86400000 ms) later |
| Mot.MatterOfTime.Yesterday | index.js:192-194 | a fresh date one day earlier |
| Mot.MatterOfTime.AddYears | index.js:196-214 | a fresh copy holding `AddYearsValue`; the receiver is unchanged; the setter steps of both branches reach it |
| Mot.MatterOfTime.AddMonths | index.js:216-242 | a fresh copy holding `AddMonthsValue`; the four setter steps of the end-of-month branch reach it |
| Mot.MatterOfTime.In | index.js:249-251 | a fresh copy moved by `year - getFullYear()` years, non-vanilla |
| Mot.MatterOfTime.NextWeek | index.js:63-66 | `weeks(repeat).from(this)`, with a missing or sub-1 repeat read as 1 |
| Mot.MatterOfTime.LastWeek | index.js:92-95 | `weeks(-repeat).from(this)`, with a missing or sub-1 repeat read as 1 |
| Mot.MatterOfTime.NextMonth | index.js:67-70 | `addMonths(repeat, vanilla)` with the repeat defaulting to 1 |
| Mot.MatterOfTime.LastMonth | index.js:96-99 | `addMonths(-repeat, vanilla)` with the repeat defaulting to 1 |
| Mot.MatterOfTime.NextYear | index.js:71-74 | `addYears(repeat, vanilla)` with the repeat defaulting to 1 |
| Mot.MatterOfTime.LastYear | index.js:100-103 | `addYears(-repeat, vanilla)` with the repeat defaulting to 1 |
| Mot.MatterOfTime.CurrentWeekday | index.js:466-470 | a fresh date holding `Weekdays.CurrentWeekday`, reached by one `setDate` |
| Mot.MatterOfTime.NextWeekday | index.js:473-477 | a fresh date holding `Weekdays.NextWeekday` |
| Mot.MatterOfTime.LastWeekday | index.js:480-484 | a fresh date holding `Weekdays.LastWeekday` |
| Mot.MatterOfTime.UpcomingWeekday | index.js:488-491 | a fresh date holding `Weekdays.UpcomingWeekday` |
| Mot.RepeatOrOne | index.js:64 | the repeat used is at least 1, and is the given one whenever that is at least 1 |
| Mot.GroupDigits | index.js:128-131 | the groups `at()` hands to `parseInt` are digit strings, so none reads as NaN |
| Mot.YearOnFirst | index.js:204-205 | `setFullYear` on the first of a month keeps the month, the date 1 and the time of day |
| Mot.FirstMoved | index.js:204-205 | `setDate(1)` then `setFullYear(year)` gives the first of the same month in `year` |
| Mot.MonthThenLast | index.js:229-232 | `setMonth(tm)` on the first of a month, then `setDate(last)`, gives day `last` of month `tm`, carried as the primitive carries it |
| Mot.LastSet | index.js:206 | `setDate(last)` on a known year and month gives that day of the month |
| Mot.FebruaryEndValue | index.js:203-207 | proof step for `Mot.MatterOfTime.AddYears`: the end-of-February branch of addYears yields `AddYearsValue` |
| Mot.AddYearsElsewhere | index.js:209-211 | proof step for `Mot.MatterOfTime.AddYears`: the other branch, one `setFullYear`, yields `AddYearsValue` |
| Mot.MonthEndValue | index.js:224-233 | proof step for `Mot.MatterOfTime.AddMonths`: the end-of-month branch of addMonths yields `AddMonthsValue` |
| Mot.AddMonthsElsewhere | index.js:237-239 | proof step for `Mot.MatterOfTime.AddMonths`: the other branch, one `setMonth`, yields `AddMonthsValue` |
| Mot.MonthOf | index.js:501-505 | a fresh date holding `AbsoluteDates.MonthValue` |
| Mot.NthWeekdayOfMonth | index.js:598-624 | throws exactly when `NthWeekdayValue` is an error, and that same RangeError; otherwise returns undefined or a fresh date exactly as `NthWeekdayValue` says |
| Mot.LastWeekdayOfMonth | index.js:630-650 | throws exactly the RangeError of `LastWeekdayValue`, or returns a fresh date at its value |
| Mot.WalkNth | index.js:616-620 | the nested loops end on `NthWalk` of the start |
| Mot.OnToWeekday | index.js:617-619 | the do-while moves the date on to the first day strictly after it on weekday `day` |
| Mot.BackToWeekday | index.js:646-648 | the do-while moves the date back to the last day strictly before it on weekday `day` |
| Mot.StepOn | index.js:618 | `setDate(getDate() + 1)` moves exactly one day on, across month ends too |
| Mot.StepBack | index.js:647 | `setDate(getDate() - 1)` moves exactly one day back |
| Mot.WalkContinues | index.js:617-619 | while the weekday is not yet `day`, the forward walk has not reached its end |
| Mot.WalkArrives | index.js:617-619 | the forward walk stops at exactly the next `day` |
| Mot.BackContinues | index.js:646-648 | while the weekday is not yet `day`, the walk back has not reached its end |
| Mot.BackArrives | index.js:646-648 | the walk back stops at exactly the previous `day` |
| Mot.NthWalkNext | index.js:616-620 | one more round of the outer loop goes from the i-th occurrence to the (i+1)-th |
| JsNumber.Remainder | index.js:226 | JavaScript's `%`: the Euclidean remainder for a non-negative dividend; for a negative one 0 when b divides it and the Euclidean remainder minus b otherwise, in (-b, 0]; always the dividend minus b times the quotient truncated towards zero |
| JsNumber.RemainderTwelve | index.js:226 | corollary of `Remainder` at 12, the divisor addMonths uses: the truncating remainder of a negative number is the Euclidean one minus 12, unless it is 0 |
| JsNumber.FloorDiv | index.js:227 | `Math.floor(a / b)` is the q with q·b ≤ a < q·b + b |
| Durations.Milliseconds | index.js:334-336 | the time value of `milliseconds(v)`, v times 1; its ratios are stated by `UnitRatios` |
| Durations.Seconds | index.js:343-345 | the time value of `seconds(v)`, v times 1000; its ratios are stated by `UnitRatios` |
| Durations.Minutes | index.js:352-354 | the time value of `minutes(v)`, v times 60000; its ratios are stated by `UnitRatios` |
| Durations.Hours | index.js:361-363 | the time value of `hours(v)`, v times 3600000; its ratios are stated by `UnitRatios` |
| Durations.Days | index.js:370-372 | the time value of `days(v)`, v times 86400000; its ratios are stated by `UnitRatios` |
| Durations.Weeks | index.js:380-382 | the time value of `weeks(v)`, v times 7 days; its ratios are stated by `UnitRatios` |
| Durations.Fortnites | index.js:389-391 | the time value of `fortnites(v)`, v times 2 weeks; its ratios are stated by `UnitRatios` |
| Durations.Months | index.js:400-402 | the time value of `months(v)`, v times 30 days; its ratios are stated by `UnitRatios` |
| Durations.Trimester | index.js:409-411 | the time value of `trimester(v)`, v times 4 months; its ratios are stated by `UnitRatios` |
| Durations.Semester | index.js:418-420 | the time value of `semester(v)`, v times 6 months; its ratios are stated by `UnitRatios` |
| Durations.Years | index.js:429-431 | the time value of `years(v)`, v times 365 days; its ratios are stated by `UnitRatios` |
| Durations.Decades | index.js:438-440 | the time value of `decades(v)`, v times 10 years; its ratios are stated by `UnitRatios` |
| Durations.Centuries | index.js:447-449 | the time value of `centuries(v)`, v times 100 years; its ratios are stated by `UnitRatios` |
| Durations.Millenia | index.js:456-458 | the time value of `millenia(v)`, v times 1000 years; its ratios are stated by `UnitRatios` |
| Durations.From | index.js:170-172 | `from(other)` is `other` moved by exactly the duration |
| Durations.Tomorrow | index.js:181-183 | `days(1).from(this)`; `TomorrowIsNextDate`, `YesterdayOfTomorrow` and `TomorrowFromOctober15` state what it is |
| Durations.Yesterday | index.js:192-194 | `days(-1).from(this)`; `TomorrowIsNextDate`, `YesterdayOfTomorrow` and `YesterdayFromOctober15` state what it is |
| Durations.UnitRatios | index.js:334-458 | each duration unit is its stated multiple of the next smaller one: a month is 30 days, a year 365 days, … |
| Durations.FromDays | index.js:370-372 | a duration of k days moves the calendar day by k, keeps the time of day and turns the weekday on by k |
| Durations.TomorrowIsNextDate | index.js:181-194 | tomorrow() is `setDate(getDate() + 1)` and yesterday() is `setDate(getDate() - 1)` |
| Durations.YesterdayOfTomorrow | index.js:181-194 | yesterday() undoes tomorrow() and the other way round |
| Durations.WeekOnSameWeekday | index.js:63-66 | n weeks on is 7n days on, on the same weekday and at the same time of day |
| Durations.DaysFromOctober15 | index.js:370-372 | from October 15th 2018, k whole days within October land on date 15 + k |
| Durations.TomorrowFromOctober15 | test/test.js:32 | October 15th 2018, tomorrow, is October 16th |
| Durations.YesterdayFromOctober15 | test/test.js:33 | October 15th 2018, yesterday, is October 14th |
| Durations.NextWeekFromOctober15 | test/test.js:34 | October 15th 2018, a week on (`next.week()`, `weeks(1).from(this)`), is October 22nd |
| Durations.LastWeekFromOctober15 | test/test.js:35 | October 15th 2018, a week back (`last.week()`, `weeks(-1).from(this)`), is October 8th |
| CalendarMath.LastDateOfMonth | index.js:306-323 | 28 to 31; 29 exactly for February of a year divisible by 4; 30 for any index outside 0 to 11 |
| CalendarMath.LastDateIsMonthLength | index.js:306-323 | where the library's leap rule agrees with the Gregorian one, the table is the calendar's month length |
| CalendarMath.IsLastOfMonth | index.js:268-279 | true exactly when the date is the table's last date of that month and year |
| CalendarMath.IsLastOfMonthAtCalendar | index.js:257-259 | where the leap rules agree, isLastOfMonth() holds exactly on the last calendar day of the month |
| CalendarMath.AddYearsValue | index.js:196-214 | addYears as a function of the time value; its properties are `AddYearsFebruaryEnd`, `AddYearsKeepsDate`, `AddYearsVanillaLeapDay`, `AddYearsRoundTrip` and `AddYearsFromLeapFebruary28`, and `Mot.MatterOfTime.AddYears` is proved to compute it |
| CalendarMath.AddYearsFebruaryEnd | index.js:203-207 | from the last day of February, non-vanilla addYears lands on the last day of February of the target year, still last of month, at the same time of day |
| CalendarMath.AddYearsKeepsDate | index.js:209-211 | elsewhere, when the target year's month has the date, only the year changes |
| CalendarMath.AddYearsVanillaLeapDay | index.js:209-211 | in vanilla mode, February 29th goes to March 1st of a non-leap target year |
| CalendarMath.AddYearsRoundTrip | index.js:196-214 | `count` years on and `count` years back is the identity where the leap rules agree, except from February 28th of a leap year |
| CalendarMath.AddYearsFromLeapFebruary28 | index.js:203-207 | from February 28th of a leap year, a year on (into a non-leap year) and back gives February 29th |
| CalendarMath.AddYearsFebruary28Of2016 | index.js:203-207 | February 28th 2016, a year on and back, is February 29th 2016 |
| CalendarMath.InValue | index.js:249-251 | `in(year)` as a function of the time value; `InSetsYear` states its properties and `Mot.MatterOfTime.In` is proved to compute it |
| CalendarMath.InSetsYear | index.js:249-251 | `in(year)` lands in `year` in the same month at the same time of day |
| CalendarMath.TargetMonth | index.js:238 | the month index the primitive's `setMonth` ends in is in 0 to 11 |
| CalendarMath.AddMonthsEndOfMonth | index.js:224-233 | from a last-of-month date with a non-negative target index, addMonths lands on the last day of the target month, still last of month, at the same time of day |
| CalendarMath.AddMonthsOnLast | index.js:225-232 | in that case the table is asked about the target month and year themselves |
| CalendarMath.AddMonthsNegativeTarget | index.js:225-232 | with a negative target index that is not a multiple of 12, the result is day 30 counted from the first of the right month, one year early; for a February target that runs into March |
| CalendarMath.AddMonthsJanuary31MinusOne | index.js:225-232 | January 31st 2018 minus one month is December 30th 2016 as written |
| CalendarMath.AddMonthsJanuary31MinusEleven | index.js:225-232 | January 31st 2018 minus eleven months, a February target, is March 1st 2016 as written |
| CalendarMath.February30Of2016 | index.js:232 | day 30 counted from February 1st 2016 is March 1st 2016, the primitive's carry of `setDate(30)` in February |
| CalendarMath.AddMonthsNative | index.js:237-239 | vanilla or off month ends, the result is the receiver's date in the target month, carried as the primitive carries it, at the same time of day |
| CalendarMath.AddMonthsKeepsDate | index.js:237-239 | ... and when the target month has that date, the result is that date of the target month |
| CalendarMath.MonthCarryBack | index.js:238 | moving a month index forward and then back by the same count restores it, year carry included |
| CalendarMath.AddMonthsValue | index.js:216-242 | addMonths as a function of the time value; its properties are `AddMonthsEndOfMonth`, `AddMonthsOnLast`, `AddMonthsNegativeTarget`, `AddMonthsNative`, `AddMonthsKeepsDate`, `AddMonthsFromDate` and `AddMonthsRoundTrip`, and `Mot.MatterOfTime.AddMonths` is proved to compute it |
| CalendarMath.AddMonthsFromDate | index.js:224-239 | off month ends, the result is day d of month index m + repeat of year y |
| CalendarMath.AddMonthsRoundTrip | index.js:216-242 | away from month ends, `repeat` months on and back is the identity |
| CalendarMath.NextMonthFromOctober15 | test/test.js:37 | October 15th 2018, next month, is November 15th |
| CalendarMath.NextMonthFromOctober31 | test/test.js:38 | October 31st 2018, next month, is November 30th |
| CalendarMath.LastMonthFromNovember30 | test/test.js:39 | November 30th 2018, last month, is October 31st |
| CalendarMath.NextYearFromFebruary29 | index.js:203-207 | February 29th 2016, next year, is February 28th 2017 (the value test/test.js expects, there reached through `february(29).in(2016)`) |
| CalendarMath.LastYearFromFebruary28 | index.js:203-207 | February 28th 2017, last year, is February 29th 2016 (the value test/test.js expects) |
| CalendarMath.VanillaNextMonthFromFebruary28 | test/test.js:43 | February 28th 2018, next month in vanilla mode, is March 28th |
| CalendarMath.VanillaLastMonthFromMarch31 | test/test.js:44 | March 31st 2018, last month in vanilla mode, is March 3rd |
| Weekdays.DaysOnFields | index.js:468 | moving by k whole days moves the day by k, keeps the time of day and turns the weekday by k |
| Weekdays.SetDateBy | index.js:468 | `setDate(getDate() + k)` moves by exactly k days |
| Weekdays.CurrentWeekday | index.js:466-470 | `current.<day>` on a time value; `CurrentWeekdayOffset` and `CurrentWeekdaySameWeek` state where it lands |
| Weekdays.NextWeekday | index.js:473-477 | `next.<day>`; `NextWeekdayOffset` states where it lands |
| Weekdays.LastWeekday | index.js:480-484 | `last.<day>`; `LastWeekdayOffset` states where it lands |
| Weekdays.UpcomingWeekday | index.js:488-491 | `upcoming.<day>`, the current one when it is ahead and the next one otherwise; `UpcomingIsNextOccurrence` states that it is the next day on `day` after today |
| Weekdays.CurrentWeekdayOffset | index.js:466-470 | `current.<day>` moves by `day - getDay()` days, lands on weekday `day` and keeps the time of day |
| Weekdays.NextWeekdayOffset | index.js:473-477 | `next.<day>` moves by `day - getDay() + 7` days, lands on `day` and keeps the time of day |
| Weekdays.LastWeekdayOffset | index.js:480-484 | `last.<day>` moves by `day - getDay() - 7` days, lands on `day` and keeps the time of day |
| Weekdays.CurrentWeekdaySameWeek | index.js:466-470 | `current.<day>` is the day of that weekday in the receiver's Sunday-to-Saturday week |
| Weekdays.UpcomingIsNextOccurrence | index.js:488-491 | `upcoming.<day>` is 1 to 7 days ahead, on weekday `day`, and no day strictly between is on `day` |
| Weekdays.LandsOn | index.js:466-491 | a move of k days onto a day that MakeDay names has that year, month and date |
| Weekdays.FridayOctober12 | test/test.js:20 | October 12th 2018 is a Friday |
| Weekdays.CurrentMondayFromOctober12 | test/test.js:22 | its current Monday is October 8th |
| Weekdays.LastFridayFromOctober12 | test/test.js:23 | its last Friday is October 5th |
| Weekdays.NextWednesdayFromOctober12 | test/test.js:24 | its next Wednesday is October 17th |
| Weekdays.UpcomingSaturdayFromOctober12 | test/test.js:25 | its upcoming Saturday is October 13th |
| Weekdays.UpcomingTuesdayFromOctober12 | test/test.js:26 | its upcoming Tuesday is October 16th |
| Weekdays.UpcomingFridayFromOctober30 | test/test.js:28-29 | the upcoming Friday from October 30th 2018 is November 2nd |
| TimeOfDay.SpaceRun | index.js:125 | the length of the leading `\s*` run: all spaces, and the next character is not one |
| TimeOfDay.DigitRun | index.js:125 | the length of the leading digit run: all digits, and the next character is not one |
| TimeOfDay.Parse | index.js:125 | the regular expression of `at()` as a parser to a capture; `ParseSound` and `ParseComplete` state that it returns exactly the expression's matches |
| TimeOfDay.ParseSound | index.js:125 | every match `Parse` returns is well formed and renders back to the input string |
| TimeOfDay.ParseComplete | index.js:125 | every well-formed capture is what `Parse` returns on its rendering, so `Parse` finds exactly the expression's matches |
| TimeOfDay.SexagesimalSound | index.js:125 | the `:[0-5]\d` group read is well formed and re-renders to its input |
| TimeOfDay.FractionSound | index.js:125 | the `.(\d{1,3})` group read has a separator that is one code unit and no line terminator, then 1 to 3 digits, and re-renders to its input |
| TimeOfDay.SuffixSound | index.js:125 | the `\s*(am\|pm)` group read is spaces then am or pm, and re-renders to its input |
| TimeOfDay.FinishSound | index.js:125 | the end of a match keeps the groups before it and re-renders the suffix |
| TimeOfDay.ParseFractionSound | index.js:125 | after the seconds, the groups read are well formed and re-render their input |
| TimeOfDay.ParseSecondsSound | index.js:125 | after the minutes, the groups read are well formed and re-render their input |
| TimeOfDay.ParseTailSound | index.js:125 | everything after the hour is read into well-formed groups that re-render it |
| TimeOfDay.SpaceRunOf | index.js:125 | on spaces followed by a non-space, the run is exactly the spaces |
| TimeOfDay.DigitRunOf | index.js:125 | on digits followed by a non-digit, the run is exactly the digits |
| TimeOfDay.SuffixTextStart | index.js:125 | the am/pm suffix begins with neither a digit nor ':', so no group before it can absorb it |
| TimeOfDay.SexagesimalComplete | index.js:125 | a rendered `:[0-5]\d` group is read back as that group |
| TimeOfDay.FractionComplete | index.js:125 | a rendered fraction group is read back as that group |
| TimeOfDay.SuffixComplete | index.js:125 | a rendered suffix is read back as that suffix |
| TimeOfDay.FinishComplete | index.js:125 | the end of a rendered match is read back with its groups |
| TimeOfDay.ParseFractionComplete | index.js:125 | the groups after the seconds are read back from their rendering |
| TimeOfDay.ParseSecondsComplete | index.js:125 | the groups after the minutes are read back from their rendering |
| TimeOfDay.ParseTailComplete | index.js:125 | the groups after the hour are read back from their rendering |
| TimeOfDay.DigitsValue | index.js:128-131 | `parseInt` of n digits is below 10 to the n |
| TimeOfDay.FieldRanges | index.js:128-131 | the hour reads as 0 to 29, minutes and seconds as 0 to 59, the fraction as 0 to 999 |
| TimeOfDay.HourRange | index.js:128 | a `[0-2]?\d` hour reads as at most 29 |
| TimeOfDay.SexagesimalRange | index.js:129-130 | a `[0-5]\d` group reads as below 60 |
| TimeOfDay.SetFields | index.js:135-145 | the setter calls of `at()` on a capture; `SetFieldsClock` states the clock they set |
| TimeOfDay.ApplyMeridiem | index.js:149-152 | the am/pm step; `ApplyMeridiemClock` states the hour it gives |
| TimeOfDay.At | index.js:124-156 | `at()` as a function of the time value and the string; `AtOfMatch`, `AtOfRender` and `AtRejects` state its outcome on every string, and `Mot.MatterOfTime.At` is proved to compute it |
| TimeOfDay.SetFieldsClock | index.js:135-145 | the setters set the receiver's day to the hour given and each group present, and keep its own minutes, seconds and milliseconds where a group is absent |
| TimeOfDay.ApplyMeridiemClock | index.js:149-152 | the am/pm step turns an hour of at most 12 into the hour it stands for (12am is 0, pm adds 12) and keeps the other fields |
| TimeOfDay.AtOfMatch | index.js:124-156 | on a matching string, `at()` sets the fields; with am/pm after an hour above 12 it throws with the fields set; otherwise it applies am/pm |
| TimeOfDay.AtOfRender | index.js:124-156 | on a rendered well-formed capture, the result is the receiver's day at the clock reading that capture stands for, or the 24-hour error |
| TimeOfDay.AtRejects | index.js:125-126 | `at()` throws the format error exactly on the strings that are no rendering of a well-formed capture, and then leaves the date unchanged |
| TimeOfDay.ClockFieldsOf | index.js:135-153 | the clock `at()` sets reads back: same day, the hour given, and each group or the receiver's own field |
| TimeOfDay.MidnightFields | test/test.js:48 | a midnight time value has all clock fields 0 |
| TimeOfDay.AtTwelveAm | test/test.js:48 | "12am" at midnight is midnight |
| TimeOfDay.AtQuarterToFive | test/test.js:49 | "4:45am" is 04:45 of the same day |
| TimeOfDay.AtQuarterToFiveAndSeconds | test/test.js:50 | "4:45:32am" is 04:45:32 |
| TimeOfDay.AtAfternoonMeridiem | test/test.js:51 | "5:42:23.123 pm" is 17:42:23.123 of the receiver's day |
| TimeOfDay.AtAfternoon24Hour | test/test.js:52 | "17:42:23.123" is the same time |
| TimeOfDay.AtRejectsUpperCaseAndTrailingSpace | index.js:125-126 | "5PM" and "5pm " do not match and throw the format error |
| TimeOfDay.AtRejectsAstralSeparator | index.js:125-126 | a character above U+FFFF, two code units, cannot be the fraction's separator: "0:00:00😀1" throws the format error |
| TimeOfDay.AtMeridiemAfterTwelve | index.js:147-148 | "13:30pm" throws the 24-hour error with 13:30 already set |
| TimeOfDay.AtFractionIsMilliseconds | index.js:131 | ".5" is read as 5 milliseconds, not 500 |
| TimeOfDay.AtPastMidnight | index.js:125 | "25:00" matches and runs into 01:00 of the next day |
| AbsoluteDates.NewDate | index.js:605 | `new Date(y, m, d)` is at midnight |
| AbsoluteDates.ConstructorYear | index.js:605 | the constructor reads years 0 to 99 as 1900 to 1999 and any other year as given |
| AbsoluteDates.NewDateFields | index.js:605 | a valid calendar date is built as given |
| AbsoluteDates.NotFebruaryLength | index.js:504 | outside February the table does not depend on the year it is given |
| AbsoluteDates.MonthValueCaps | index.js:501-505 | outside February, `month(index, date)` is the date, capped at the month's length, of this year's month at midnight |
| AbsoluteDates.MonthValue | index.js:501-505 | `month(index, date)` as a function of the clock; `MonthValueCaps` and `FebruaryValue` state its value and `Mot.MonthOf` is proved to compute it |
| AbsoluteDates.FebruaryValue | index.js:504 | in February the cap comes from the table for the year `date`, so `february(date)` for a date from 1 to 29 is day min(date, 28): the 29th is never reached, even in a leap year |
| AbsoluteDates.NovemberTwentieth | test/test.js:8 | `november(20)` is November 20th of the current year |
| AbsoluteDates.JanuaryFourthIn2020 | test/test.js:9 | `january(4).in(2020)` is January 4th 2020 |
| AbsoluteDates.MayFirstIn2015 | test/test.js:10 | `may(1).in(2015)` is May 1st 2015 |
| AbsoluteDates.DaysToNext | index.js:617-619 | the walk covers 1 to 7 days |
| AbsoluteDates.DaysToNextIsUpcoming | index.js:617-619 | one do-while round lands where `upcoming.<day>` would |
| AbsoluteDates.DaysToNextIsFirst | index.js:617-619 | one do-while round stops on the first day after the start on weekday `day`, and no day before it is on `day` |
| AbsoluteDates.OccurrencesBeforeFirst | index.js:616-620 | before the first occurrence, no day on `day` is counted |
| AbsoluteDates.WeekLater | index.js:616-620 | from a day on `day`, the next day on `day` within a week is 7 days on |
| AbsoluteDates.OccurrencesGap | index.js:616-620 | the six days after an occurrence add nothing to the count |
| AbsoluteDates.OccurrencesWeek | index.js:616-620 | a week after an occurrence comes the next one |
| AbsoluteDates.NthWalkIsNth | index.js:616-620 | the walk ends on the nth day strictly after the start that is on weekday `day`, at the start's time of day |
| AbsoluteDates.NthWalk | index.js:616-620 | the outer loop of nthWeekdayOfMonth; `NthWalkIsNth` states where it ends and `Mot.WalkNth` is proved to compute it |
| AbsoluteDates.AtFirst | index.js:604-613 | a time value on the first of a month is that day at its time of day |
| AbsoluteDates.FirstAfterSetMonth | index.js:610 | `setMonth` on the first of a month gives the first of the new month |
| AbsoluteDates.FirstAfterSetFullYear | index.js:613 | `setFullYear` on the first of a month gives the first of that month in the new year |
| AbsoluteDates.NthStartIsFirst | index.js:604-613 | the walk starts at midnight on the first of the month and year chosen |
| AbsoluteDates.DayInMonth | index.js:622 | k days after the first, for k below the month length, is date 1 + k of that month |
| AbsoluteDates.DayInNextMonth | index.js:622 | up to 28 days past the month's end is in another month |
| AbsoluteDates.NextMonthIndex | index.js:641 | the month after m is a different index in 0 to 11 |
| AbsoluteDates.NextMonthCases | index.js:641 | the month after December is January of the next year, and otherwise m + 1 of the same year |
| AbsoluteDates.NthWeekdayInMonth | index.js:598-624 | with valid arguments and a month, the result is the date 1 + k, k the nth offset, on weekday `day` at midnight, returned exactly when it is still in the month, otherwise undefined |
| AbsoluteDates.NthWeekdayWalks | index.js:613-623 | past the argument checks, the result is the end of the walk from the start when a month is given and the walk stays in it, and undefined otherwise |
| AbsoluteDates.NthWeekdayValue | index.js:598-624 | nthWeekdayOfMonth as a function of the clock; `NthWeekdayInMonth`, `NthWeekdayWithoutMonth` and `NthWeekdayErrors` state its outcome and `Mot.NthWeekdayOfMonth` is proved to compute it |
| AbsoluteDates.NthWeekdayWithoutMonth | index.js:622 | without a month, nthWeekdayOfMonth never returns a date |
| AbsoluteDates.NthWeekdayErrors | index.js:599-601 | it throws exactly for a day outside 0 to 6, nth outside 1 to 5 or a month outside 0 to 11, in that order of checks |
| AbsoluteDates.JuneFirst2018 | test/test.js:16 | June 1st 2018 is a Friday, June has 30 days, and the walk to the first Sunday covers 2 days, to the first Friday 7 |
| AbsoluteDates.FirstSundayOfJune2018 | test/test.js:16 | the first Sunday of June 2018 is June 3rd |
| AbsoluteDates.FirstFridayOfJune2018 | index.js:616-620 | in a month that starts on a Friday, the "first Friday" is the 8th: the walk never looks at the 1st |
| AbsoluteDates.FifthFridayOfFebruary2021 | index.js:622-623 | February 2021 has no fifth Friday: undefined |
| AbsoluteDates.FirstWeekdayExists | test/test.js:13 | the first of any weekday of any month is found |
| AbsoluteDates.DaysToPrevious | index.js:646-648 | the walk back covers 1 to 7 days |
| AbsoluteDates.DaysToPreviousIsLast | index.js:646-648 | the walk back stops on the last day before its start on weekday `day`, and no day in between is on `day` |
| AbsoluteDates.LastStartIsFirst | index.js:634-643 | the walk back starts on the first of the month after the one chosen, at the current time of day |
| AbsoluteDates.LastStartFields | index.js:634-643 | the same, as its day and its time of day |
| AbsoluteDates.MonthSetOnFirst | index.js:635-640 | `setDate(1)` and an optional `setMonth` give the first of the chosen month of the current year |
| AbsoluteDates.MonthOnFirst | index.js:641 | `setMonth(getMonth() + 1)` on a first of month gives the first of the next month |
| AbsoluteDates.NextYearSet | index.js:643 | after the month has been moved on, `setFullYear(year)` puts December's walk into the year before `year` |
| AbsoluteDates.LastYear | index.js:641-643 | the year of month m, in which the walk back ends; for December with a year given this is the year before the one the walk starts in; `NextYearSet` and `LastWeekdayOfDecember` state it |
| AbsoluteDates.LastWeekdayInMonth | index.js:630-650 | with a valid day and month, the result is in that month, in its last 7 days, on weekday `day`, at the current time of day |
| AbsoluteDates.BackFromNextMonth | index.js:646-648 | one to seven days before the first of the next month is in the month, on date length + 1 - k |
| AbsoluteDates.LastWeekdayOfDecember | index.js:641-643 | for December with a year, the result is in December of the year before it |
| AbsoluteDates.LastWeekdayWithoutMonth | index.js:637-641 | without a month, the current month is used |
| AbsoluteDates.LastWeekdayErrors | index.js:631-638 | it throws exactly for a day outside 0 to 6 or a month outside 0 to 11, day first |
| AbsoluteDates.LastWeekdayValue | index.js:630-650 | lastWeekdayOfMonth as a function of the clock; `LastWeekdayInMonth`, `LastWeekdayOfDecember`, `LastWeekdayWithoutMonth` and `LastWeekdayErrors` state its outcome and `Mot.LastWeekdayOfMonth` is proved to compute it |

## Left out

- Clock reads (`new Date()`, `Date.now()`) become a parameter `now`. The static `now`, `tomorrow` and `yesterday` (index.js:286-298) only read the clock, so they are not modelled apart from the instance `tomorrow` and `yesterday`.
- A Dafny string is a sequence of Unicode scalar values, so a JavaScript string holding a lone surrogate has no counterpart. Any other string is modelled, with `.` in the regular expression matching only a character that is one UTF-16 code unit.
- Every field is read in UTC. Local time zones and daylight saving time are not modelled.
- NaN, TimeClip and non-integer arguments are not modelled: all arguments are integers. That leaves out the `typeof` checks that throw in addYears and addMonths (index.js:197, 217), a `month()` call without `date` (which yields NaN) and a fractional `day` in the two weekday walks (on which their loops never end).
- The constructor forms that parse strings or take all seven fields are out. Only the time-value, copy and (year, month, date) forms are in.
- The twelve named months (index.js:512-589) are `month.bind(MatterOfTime, k)` and are modelled only through `month` (`Mot.MonthOf`).
- The namespaces `first` … `fifth`.`<day>`.`of`.`<month>` and `last.<day>.of.<month>` (index.js:652-696) are bindings. They are modelled only through `nthWeekdayOfMonth` and `lastWeekdayOfMonth`.
- The per-instance objects `current`, `next`, `last` and `upcoming` (index.js:21-103) are modelled as the methods they forward to.
- CalendarMath.LastDateIsMonthLength, CalendarMath.IsLastOfMonthAtCalendar, CalendarMath.AddYearsFebruaryEnd, CalendarMath.AddYearsRoundTrip, CalendarMath.InSetsYear and CalendarMath.AddMonthsEndOfMonth are stated only for years where the library's every-fourth-year leap rule agrees with the Gregorian one, which `Date` uses. In a year such as 1900 or 2100 the table says February has 29 days and the calendar says 28; the functions model both rules as written.
- CalendarMath.AddMonthsEndOfMonth is stated for a non-negative target month index. The negative case is stated separately by CalendarMath.AddMonthsNegativeTarget.
- The source documents, rather than promises, these behaviours. The model follows the code:
  - `month(index, date)` passes `date` as the year to getLastDateOfMonth (index.js:504). So `february(29)` gives February 28th even in a leap year.
  - The range check on `index` (index.js:502) has an empty body and rejects nothing.
  - The regular expression has no `i` flag, so only lower-case am and pm match, and the `toLowerCase` at index.js:152 changes nothing.
  - at() sets the fields before it throws on am/pm after an hour above 12.
  - A negative target month in the end-of-month branch of addMonths gives day 30 counted from the first of the right month, one year early. For a February target that runs into March.
  - The walk of nthWeekdayOfMonth starts with a step, so it never returns the 1st of the month.
  - lastWeekdayOfMonth with December and a year ends in December of the year before.
  - Without a month, nthWeekdayOfMonth always returns undefined.
  - The twelve named months are documented (index.js:507-511) as taking one optional argument, a year, and as returning the 1st of the month. `month.bind(MatterOfTime, k)` passes that argument on as `date`, so `january(2020)` caps date 2020 at the month's length; `month` has no year parameter.
