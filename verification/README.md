# TimeLog core in Dafny

TimeLog is an Android work-time tracker. For each working day the user
punches up to four markers: arrival (`MORNING`), start of lunch (`LUNCH_START`),
end of lunch (`LUNCH_END`) and departure (`EVENING`). A day's punches are a
map from marker to `Time` (hour and minute). This project models the logic
behind that map:

- `Time` values and their equality, hash and ordering (module `Times`, `time.dfy`).
- The markers, their declaration order and their seed times (module `Markers`, `marker.dfy`).
- The incoherent-markers error and its texts (module `Errors`, `errors.dfy`).
- The coherency check of one day's punches (module `Validator`, `validator.dfy`).
  It has a pure function and a method that mirrors the source's two loops.
- The day and week totals (module `Calculator`, `calculator.dfy`).
  - The day total is the source's branch table over the shape of the map.
  - Java's truncating `/` and `%` are written out, since Dafny's operators are Euclidean.
  - The week total is a fold over the days in an unspecified order.
- The `%02d:%02d` display of a time (module `TimeFormat`, `time_format.dfy`),
  including negative fields.
- The arithmetic of the storage service (module `Storage`, `storage.dfy`):
  - which earlier days of the week `loadWeekWorklog` loads;
  - the `timeLog_yyyyMMdd` file name of a day.
- Two helper modules:
  - `Decimal` (`decimal.dfy`): decimal digits, zero padding and parsing;
  - `Sets` (`sets.dfy`): cardinality facts and an order-free sum over a set.
- `Wrappers` (`wrappers.dfy`) holds `Option`, `Result` and `Outcome`.
  A thrown `IncoherentMarkersException` is a `Failure`/`Fail` value.

Ambient inputs become parameters:
- The current time (`Calendar.getInstance()`) is a `Clock` argument.
- The day a total is computed for is a `Day` holding the year and day of year, the only fields `isToday` reads.
- Reading a day's worklog from storage is a function argument `loadDay`.
- Calendar days are consecutive integers, so "one day earlier" is subtraction.

Three behaviours of the code are easy to miss, and the model keeps them:
- The validator accepts equal times for successive markers, as its comment says (each value greater than or equal to the previous one).
- On a day other than today, three punches that include the morning session count only the morning session, whatever the third punch is.
- Every other shape of day counts 0:00.

`loadWeekWorklog` has a Monday branch that builds an empty map and discards it.
Its only effect comes from the day count, which is 0 on a Monday, so the model leaves the dead statement out.

## Model

| member | source | states |
|---|---|---|
| Times.Equals | timelog_app/src/main/java/eu/leneurone/timelog/model/Time.java:37-49 | two times are equal exactly when hour and minute both agree |
| Times.HashCode | timelog_app/src/main/java/eu/leneurone/timelog/model/Time.java:51-56 | a time whose minute lies in 0..30 is recovered from its hash, hour as quotient and minute as remainder by 31 |
| Times.HashCollision | timelog_app/src/main/java/eu/leneurone/timelog/model/Time.java:51-56 | the hash is not injective on clock times: 00:31 and 01:00 share a hash |
| Times.CompareTo | timelog_app/src/main/java/eu/leneurone/timelog/model/Time.java:58-78 | result is -1, 0 or 1; 0 exactly for equal times; negative exactly when the first is earlier (hour first, then minute); positive exactly when it is later |
| Times.EqualTimesHashEqually | timelog_app/src/main/java/eu/leneurone/timelog/model/Time.java:51-56 | equal times have equal hash codes, so hashing agrees with equals |
| Times.CompareAntisymmetric | timelog_app/src/main/java/eu/leneurone/timelog/model/Time.java:58-78 | swapping the operands negates the comparison |
| Times.CompareTransitive | timelog_app/src/main/java/eu/leneurone/timelog/model/Time.java:58-78 | "not after" and "strictly before" chain through a middle time, as the Comparable contract requires |
| Times.CompareTotal | timelog_app/src/main/java/eu/leneurone/timelog/model/Time.java:58-78 | any two times are ordered one way or the other |
| Markers.Rank | timelog_app/src/main/java/eu/leneurone/timelog/model/Marker.java:9-25 | each marker has a declaration position below four |
| Markers.DefaultHour | timelog_app/src/main/java/eu/leneurone/timelog/model/Marker.java:13-37 | every seed hour lies in 9..18, and it is before 13 exactly for arrival and lunch start |
| Markers.DefaultMinute | timelog_app/src/main/java/eu/leneurone/timelog/model/Marker.java:13-41 | every seed time is on the hour |
| Markers.Name | timelog_app/src/main/java/eu/leneurone/timelog/model/Marker.java:13-25 | a marker prints as a non-empty upper-case identifier with underscores, the form of its constant's name |
| Markers.AllMarkersInRankOrder | timelog_app/src/main/java/eu/leneurone/timelog/model/Marker.java:9-25 | `values()` lists exactly the four markers, each once, in declaration order |
| Markers.RankInjective | timelog_app/src/main/java/eu/leneurone/timelog/model/Marker.java:9-25 | the declaration position identifies the marker |
| Markers.DefaultSeedTimes | timelog_app/src/main/java/eu/leneurone/timelog/model/Marker.java:13-41 | the constants carry 09:00, 12:00, 13:00 and 18:00 |
| Markers.DefaultsAreClockTimes | timelog_app/src/main/java/eu/leneurone/timelog/model/Marker.java:13-41 | every seed is a valid hour of the day, on the hour |
| Markers.DefaultsStrictlyIncrease | timelog_app/src/main/java/eu/leneurone/timelog/model/Marker.java:13-41 | one marker is declared before another exactly when its seed time is earlier |
| Markers.NameInjective | timelog_app/src/main/java/eu/leneurone/timelog/model/Marker.java:13-25 | different markers print under different names |
| Errors.Message | timelog_app/src/main/java/eu/leneurone/timelog/exceptions/IncoherentMarkersException.java:26-33 | with a marker missing, the fixed generic text; otherwise the later marker's name is at a fixed position after the head and the message ends with the earlier marker's name |
| Errors.Render | timelog_app/src/main/java/eu/leneurone/timelog/exceptions/IncoherentMarkersException.java:35-41 | the text opens with the class name and `earliest=`, followed directly by the earlier marker's name or `null`; it closes with the later marker's name or `null` and a brace |
| Errors.MessageIdentifiesPair | timelog_app/src/main/java/eu/leneurone/timelog/exceptions/IncoherentMarkersException.java:26-33 | when both markers are set, the message determines the pair |
| Errors.RenderIdentifiesPair | timelog_app/src/main/java/eu/leneurone/timelog/exceptions/IncoherentMarkersException.java:35-41 | the `toString` text determines the pair, missing markers included |
| Errors.NameOrNullInjective | timelog_app/src/main/java/eu/leneurone/timelog/exceptions/IncoherentMarkersException.java:35-41 | a missing marker prints as `null`, which differs from every marker name |
| Validator.KeepPresent | app/src/main/java/eu/leneurone/timelog/validators/TimesValidator.java:33-39 | keeps exactly the markers present in the map, preserving declaration order |
| Validator.OrderedMarkers | app/src/main/java/eu/leneurone/timelog/validators/TimesValidator.java:29-39 | the collected list holds exactly the present markers, in strictly increasing declaration order |
| Validator.Scan | app/src/main/java/eu/leneurone/timelog/validators/TimesValidator.java:41-46 | the scan passes exactly when no adjacent pair from the start index on decreases |
| Validator.ScanFailsAtFirstDescent | app/src/main/java/eu/leneurone/timelog/validators/TimesValidator.java:41-46 | a failed scan reports the first decreasing adjacent pair as (earlier, later) |
| Validator.Validate | app/src/main/java/eu/leneurone/timelog/validators/TimesValidator.java:28-48 | validation passes exactly when, for every two present markers, the later-declared one's time is not before the earlier one's |
| Validator.AdjacentIffCoherent | app/src/main/java/eu/leneurone/timelog/validators/TimesValidator.java:40-47 | checking adjacent present markers is equivalent to checking all pairs |
| Validator.FailureIsFirstDescent | app/src/main/java/eu/leneurone/timelog/validators/TimesValidator.java:41-46 | the reported pair is present, correctly ordered, adjacent among present markers, really decreasing, and preceded only by coherent pairs |
| Validator.AtMostOneMarkerIsCoherent | app/src/main/java/eu/leneurone/timelog/validators/TimesValidator.java:41 | zero or one punch always passes |
| Validator.DefaultSeedsAreCoherent | app/src/main/java/eu/leneurone/timelog/validators/TimesValidator.java:28-48 | any subset of markers holding their seed times passes |
| Validator.EqualTimesAreCoherent | app/src/main/java/eu/leneurone/timelog/validators/TimesValidator.java:43 | equal times never fail, since only a strict decrease fails |
| Validator.CollectPresent | app/src/main/java/eu/leneurone/timelog/validators/TimesValidator.java:29-39 | the first loop collects exactly the ordered present markers, each paired with its own time |
| Validator.ValidateMarkersCoherency | app/src/main/java/eu/leneurone/timelog/validators/TimesValidator.java:28-48 | the two loops compute the pure validation, so they pass exactly on coherent maps |
| Calculator.TruncRem | timelog_app/src/main/java/eu/leneurone/timelog/math/TotalCalculator.java:147-150 | Java's `/` and `%`: quotient times divisor plus remainder gives the number back; the remainder has the number's sign and is smaller than the divisor |
| Calculator.TruncDiv | timelog_app/src/main/java/eu/leneurone/timelog/math/TotalCalculator.java:146-150 | Java's `/` by a positive divisor rounds toward zero: for a non-negative number the quotient times the divisor is at most the number and within one divisor of it; for a negative number, at least it and within one divisor |
| Calculator.FromMinutes | timelog_app/src/main/java/eu/leneurone/timelog/math/TotalCalculator.java:146-150 | the time has exactly the given number of minutes, with hour and minute of the same sign and the minute within the hour |
| Calculator.FromMinutesInverse | timelog_app/src/main/java/eu/leneurone/timelog/math/TotalCalculator.java:141-150 | converting a time to minutes and back gives it again exactly when its fields are in that form |
| Calculator.Minutes | timelog_app/src/main/java/eu/leneurone/timelog/math/TotalCalculator.java:141-144 | for a minute within the hour, the result lies within the named hour's sixty minutes, and a time of day gives a value within one day |
| Calculator.Diff | timelog_app/src/main/java/eu/leneurone/timelog/math/TotalCalculator.java:136-139 | the difference takes the earlier time's minutes to the later's; between clock readings it is negative exactly when `later` is the earlier time, and zero exactly when they are equal |
| Calculator.IsToday | timelog_app/src/main/java/eu/leneurone/timelog/math/TotalCalculator.java:126-129 | a day is today exactly when it is the clock's own calendar day |
| Calculator.ClockTime | timelog_app/src/main/java/eu/leneurone/timelog/math/TotalCalculator.java:131-134 | the time read off the clock has the clock's minutes since midnight, within one day for a valid clock |
| Calculator.Sum | timelog_app/src/main/java/eu/leneurone/timelog/math/TotalCalculator.java:116-124 | the sum's minutes are the operands' minutes added; a non-negative sum has its minute within 0..59 |
| Calculator.CalculateTotalTime | timelog_app/src/main/java/eu/leneurone/timelog/math/TotalCalculator.java:34-41 | no punch gives 00:00; it fails exactly on a non-empty incoherent day, with the validator's own error |
| Calculator.WorkedMinutes | timelog_app/src/main/java/eu/leneurone/timelog/math/TotalCalculator.java:43-95 | nothing counts without an arrival punch, nor, on a day other than today, without a lunch-start or departure punch; the shape lemmas below give each counted value |
| Calculator.FullDayTotal | timelog_app/src/main/java/eu/leneurone/timelog/math/TotalCalculator.java:47-53 | four punches give morning session plus afternoon session |
| Calculator.NoLunchPunchesTotal | timelog_app/src/main/java/eu/leneurone/timelog/math/TotalCalculator.java:54-59 | arrival and departure only give the span minus 60 minutes |
| Calculator.MorningSessionTotal | timelog_app/src/main/java/eu/leneurone/timelog/math/TotalCalculator.java:60-64 | arrival and lunch start only give the morning session |
| Calculator.PastDayThreePunchesTotal | timelog_app/src/main/java/eu/leneurone/timelog/math/TotalCalculator.java:65-71 | on another day, three punches including the morning session give just that session |
| Calculator.PastDayThirdPunchIgnored | timelog_app/src/main/java/eu/leneurone/timelog/math/TotalCalculator.java:65-71 | on another day, the third punch does not affect the total |
| Calculator.TodayArrivalOnlyTotal | timelog_app/src/main/java/eu/leneurone/timelog/math/TotalCalculator.java:72-82 | today, arrival alone gives the time since arrival, minus 60 minutes from 13:00 on |
| Calculator.TodayAfterLunchTotal | timelog_app/src/main/java/eu/leneurone/timelog/math/TotalCalculator.java:83-93 | today, three punches through lunch end give the morning session plus the time since lunch ended |
| Calculator.OtherShapesCountNothing | timelog_app/src/main/java/eu/leneurone/timelog/math/TotalCalculator.java:43-95 | every coherent day outside the counted shapes totals 00:00 |
| Calculator.BeforeIsFewerMinutes | timelog_app/src/main/java/eu/leneurone/timelog/math/TotalCalculator.java:141-144 | for clock minutes, being earlier means fewer minutes since midnight |
| Calculator.CoherentFullDayIsNonNegative | timelog_app/src/main/java/eu/leneurone/timelog/math/TotalCalculator.java:47-53 | a coherent full day of clock readings totals a non-negative hours-and-minutes value |
| Calculator.ShortDayWithoutLunchIsNegative | timelog_app/src/main/java/eu/leneurone/timelog/math/TotalCalculator.java:54-59 | arrival and departure less than an hour apart give a negative total, with hour and minute both at most 0 |
| Calculator.SumTimesIsTotalMinutes | timelog_app/src/main/java/eu/leneurone/timelog/math/TotalCalculator.java:108-124 | adding times one by one with `sum` from 00:00 equals converting their total minutes once |
| Calculator.SumTimes | timelog_app/src/main/java/eu/leneurone/timelog/math/TotalCalculator.java:108-114 | the running total of `sum` holds all the minutes of the times added, in the form `minutesToTime` produces |
| Calculator.SumDayMinutes | timelog_app/src/main/java/eu/leneurone/timelog/math/TotalCalculator.java:108-114 | the loop succeeds exactly when every day succeeds; a failure carries some day's error; success gives the order-free sum of the days' minutes |
| Calculator.EmptyWeekIsZero | timelog_app/src/main/java/eu/leneurone/timelog/math/TotalCalculator.java:108-114 | a week without days sums to zero minutes |
| Calculator.CalculateWeekTotal | timelog_app/src/main/java/eu/leneurone/timelog/math/TotalCalculator.java:108-114 | no day gives 00:00; it succeeds exactly when every day's total does; a failure carries an incoherent day's error; success gives the sum of the day totals |
| Calculator.TotalMinutesIsSumOver | timelog_app/src/main/java/eu/leneurone/timelog/math/TotalCalculator.java:110-112 | summing along any duplicate-free listing of the days gives the order-free sum |
| Calculator.WeekTotalInAnyOrder | timelog_app/src/main/java/eu/leneurone/timelog/math/TotalCalculator.java:108-114 | whatever order the map yields its days in, the fold with `sum` gives the same week total |
| Decimal.ZeroPad | timelog_app/src/main/java/eu/leneurone/timelog/utils/TimeUtils.java:20 | The padded text is as long as the requested width or the number's own digit count, whichever is larger, contains only digits, and reads back as the number. |
| Decimal.ParseDigitsInverse | timelog_app/src/main/java/eu/leneurone/timelog/utils/TimeUtils.java:20 | decimal digits read back as the number they render |
| Decimal.NoLeadingZero | timelog_app/src/main/java/eu/leneurone/timelog/utils/TimeUtils.java:20 | the plain rendering starts with 0 only for zero itself |
| Decimal.ZeroPadInjective | timelog_app/src/main/java/eu/leneurone/timelog/services/impl/StorageServiceImpl.java:101-104 | different numbers pad to different texts |
| TimeFormat.Field | timelog_app/src/main/java/eu/leneurone/timelog/utils/TimeUtils.java:20 | a `%02d` field is at least two characters long and never contains a colon |
| TimeFormat.FormatTime | timelog_app/src/main/java/eu/leneurone/timelog/utils/TimeUtils.java:19-21 | the display is at least five characters long and reads back as the same time, negative fields included; ClockLayout gives its exact `hh:mm` shape for fields within 0..99 |
| TimeFormat.FormatTimeInjective | timelog_app/src/main/java/eu/leneurone/timelog/utils/TimeUtils.java:19-21 | different times are displayed differently |
| TimeFormat.ClockLayout | timelog_app/src/main/java/eu/leneurone/timelog/utils/TimeUtils.java:19-21 | fields within 0..99 give five characters `hh:mm`; a field below ten gets exactly one leading zero |
| TimeFormat.WideFieldUnpadded | timelog_app/src/main/java/eu/leneurone/timelog/utils/TimeUtils.java:20 | a field of 100 or more is printed in full |
| TimeFormat.ShortNegativeTotalLayout | timelog_app/src/main/java/eu/leneurone/timelog/utils/TimeUtils.java:20 | a negative total under an hour shows as `00:-` and the minutes |
| Storage.DaysToLoad | timelog_app/src/main/java/eu/leneurone/timelog/services/impl/StorageServiceImpl.java:70-89 | between 0 and 6 days are loaded, and none exactly on a Monday |
| Storage.LoadedDaysAreTheWeekSoFar | timelog_app/src/main/java/eu/leneurone/timelog/services/impl/StorageServiceImpl.java:77-89 | the loaded days hold no Sunday; the earliest is the Monday and no other is; the next day back is the previous Sunday |
| Storage.LoadWeekWorklog | timelog_app/src/main/java/eu/leneurone/timelog/services/impl/StorageServiceImpl.java:69-99 | the map's days are exactly those from the Monday to the day before the given day, each with its loaded worklog, and there are as many entries as days to load |
| Storage.BuildFilename | timelog_app/src/main/java/eu/leneurone/timelog/services/impl/StorageServiceImpl.java:101-104 | the name starts with `timeLog_` and continues with at least eight characters, every one of them a decimal digit |
| Storage.FilenameRoundTrip | timelog_app/src/main/java/eu/leneurone/timelog/services/impl/StorageServiceImpl.java:101-104 | the file name reads back as its date |
| Storage.FilenameIdentifiesDate | timelog_app/src/main/java/eu/leneurone/timelog/services/impl/StorageServiceImpl.java:101-104 | different dates are stored under different file names |
| Storage.FilenameLength | timelog_app/src/main/java/eu/leneurone/timelog/services/impl/StorageServiceImpl.java:101-104 | the name is sixteen characters exactly for years below 10000 |

## Left out

- Reading and writing worklog files: `storeDayWorklog`, `loadDayWorklog`, object streams, I/O errors and the error dialog are device I/O. Loading a day is the `loadDay` parameter.
- Calendar arithmetic:
  - how `Calendar` derives `YEAR`, `DAY_OF_YEAR`, `DAY_OF_WEEK` and the `yyyyMMdd` fields from an instant;
  - time zones and locales.
  Days are day numbers; a day of the week and a date are inputs.
- Java `int` overflow: all integers are unbounded, since day and week totals stay far from 2^31 minutes.
- `Time.toString` and the `Serializable` markers: neither affects any computed value.
- Week keys are calendar days rather than instants. The source keys the week map by `Calendar` objects, which are equal only at the same millisecond, so two entries for one date at different instants would be two summands there; the model cannot express such a map.
- Which error surfaces when several days of a week are incoherent: `HashMap` iteration order is unspecified. The week total on success is proved independent of that order.
- The earlier duplicate of `IncoherentMarkersException` under `app/` (`soonerMarker`/`laterMarker`). It builds the same message from the same pair of markers, so only the `timelog_app/` version is modelled.
- Activities, fragments and the `StorageService` interfaces: user interface and wiring, outside the computational core.
- Calculator.CalculateWeekTotal: keeps the running total in minutes and converts once at the end, where the source adds each day's total with `sum`. `SumTimesIsTotalMinutes` proves the two give the same time.
- Markers.Name: Java's enum `toString` is taken to be the constant's declared name. No enum overrides it.
