/**
 * Worked time of one day, and of several days, from the recorded punches.
 * All arithmetic is in minutes; results are converted back to an
 * (hour, minute) pair without wrapping at 24 hours and without clamping
 * negative totals. The wall clock is an explicit `Clock` parameter.
 */
module Calculator {
  import opened Wrappers
  import opened Times
  import opened Markers
  import opened Errors
  import opened Validator
  import Sets

  /** The current instant, reduced to the fields the calculator reads. */
  datatype Clock = Clock(year: int, dayOfYear: int, hour: int, minute: int)

  /** A calendar day, reduced to the fields the "today" test reads. */
  datatype Day = Day(year: int, dayOfYear: int)

  /** Standard lunch break deducted when no lunch punches exist. */
  const LunchBreakMinutes: int := 60

  /** Current hour from which a running day is assumed to include lunch. */
  const AfternoonHour: int := 13

  const Midnight: Time := Time(0, 0)

  /** Java `/` on `int` with a positive divisor: the quotient is truncated toward zero. */
  function TruncDiv(n: int, d: int): (q: int)
    requires d > 0
    ensures n >= 0 ==> q >= 0 && q * d <= n < q * d + d
    ensures n <= 0 ==> q <= 0 && q * d - d < n <= q * d
  {
    if n >= 0 then n / d else -((-n) / d)
  }

  /** Java `%` on `int` with a positive divisor: the remainder takes the sign of the dividend. */
  function TruncRem(n: int, d: int): (r: int)
    requires d > 0
    ensures TruncDiv(n, d) * d + r == n
    ensures n >= 0 ==> 0 <= r < d
    ensures n < 0 ==> -d < r <= 0
  {
    if n >= 0 then n % d else -((-n) % d)
  }

  /** Minutes as read from a clock: the minute field lies within the hour. */
  predicate ClockMinute(t: Time)
  {
    0 <= t.minute < 60
  }

  /**
   * `timeToMinutesFromMidnight`: for a clock reading, the result lies within
   * the hour it names (so the hour is the result divided by 60), and a time of
   * day stays within one day's minutes.
   */
  function Minutes(t: Time): (m: int)
    ensures ClockMinute(t) ==> t.hour * 60 <= m < t.hour * 60 + 60
    ensures ClockMinute(t) && 0 <= t.hour < 24 ==> 0 <= m < 24 * 60
  {
    t.hour * 60 + t.minute
  }

  /**
   * `diffInMinutes(later, earlier)`: the minutes that take `earlier` to
   * `later`; between clock readings it is negative exactly when `later` is in
   * fact the earlier time, and zero exactly when the two are equal.
   */
  function Diff(later: Time, earlier: Time): (d: int)
    ensures Minutes(earlier) + d == Minutes(later)
    ensures ClockMinute(later) && ClockMinute(earlier) ==>
              (d < 0 <==> Before(later, earlier)) && (d == 0 <==> later == earlier)
  {
    Minutes(later) - Minutes(earlier)
  }

  /**
   * The shape `minutesToTime` produces: minute strictly within an hour, with
   * hour and minute carrying the same sign as the total.
   */
  predicate Truncated(t: Time)
  {
    (t.hour >= 0 && 0 <= t.minute < 60) || (t.hour <= 0 && -60 < t.minute <= 0)
  }

  /** `minutesToTime`: hour and minute by truncating division by 60. */
  function FromMinutes(m: int): (t: Time)
    ensures Minutes(t) == m
    ensures Truncated(t)
  {
    Time(TruncDiv(m, 60), TruncRem(m, 60))
  }

  /** Converting back and forth is the identity exactly on truncated times. */
  lemma FromMinutesInverse(t: Time)
    ensures FromMinutes(Minutes(t)) == t <==> Truncated(t)
  {
    var m := Minutes(t);
    if Truncated(t) {
      if m >= 0 {
        assert t.hour >= 0;
        assert m / 60 == t.hour;
      } else {
        assert t.hour <= 0;
        assert (-m) / 60 == -t.hour;
      }
    }
  }

  /** `sum`: adds the two durations minute-wise, with no wrap at 24 hours. */
  function Sum(a: Time, b: Time): (r: Time)
    ensures Minutes(r) == Minutes(a) + Minutes(b)
    ensures Truncated(r)
    ensures Minutes(a) + Minutes(b) >= 0 ==> 0 <= r.minute < 60 && r.hour * 60 <= Minutes(a) + Minutes(b)
  {
    FromMinutes(Minutes(a) + Minutes(b))
  }

  /** The calendar day the clock is on. */
  function Today(now: Clock): Day
  {
    Day(now.year, now.dayOfYear)
  }

  /** `isToday`: the day is the clock's own calendar day, compared by year and day of the year. */
  function IsToday(now: Clock, day: Day): (r: bool)
    ensures r <==> day == Today(now)
  {
    day.year == now.year && day.dayOfYear == now.dayOfYear
  }

  /**
   * `calendarToTime`: the clock's hour of day and minute, so its minutes since
   * midnight are the clock's; a valid clock gives a time within the day.
   */
  function ClockTime(now: Clock): (t: Time)
    ensures Minutes(t) == now.hour * 60 + now.minute
    ensures 0 <= now.hour < 24 && 0 <= now.minute < 60 ==> ClockMinute(t) && 0 <= Minutes(t) < 24 * 60
  {
    Time(now.hour, now.minute)
  }

  /** Four punches recorded means every marker is present. */
  lemma FourMarkersAreAll(times: MarkerTimes)
    requires |times| == 4
    ensures Morning in times && LunchStart in times && LunchEnd in times && Evening in times
  {
    WithinAllMarkers(times.Keys);
    Sets.SubsetCard(times.Keys, AllMarkerSet);
  }

  /**
   * The branch table of `calculateTotalTime`, in minutes, evaluated top to
   * bottom with the first matching shape winning. Nothing is counted
   * without an arrival punch, nor, on another day than today, without a
   * lunch-start or departure punch.
   */
  function WorkedMinutes(now: Clock, day: Day, times: MarkerTimes): (m: int)
    ensures Morning !in times ==> m == 0
    ensures !IsToday(now, day) && LunchStart !in times && Evening !in times ==> m == 0
  {
    if |times| == 4 then
      FourMarkersAreAll(times);
      Diff(times[LunchStart], times[Morning]) + Diff(times[Evening], times[LunchEnd])
    else if |times| == 2 && Morning in times && Evening in times then
      Diff(times[Evening], times[Morning]) - LunchBreakMinutes
    else if |times| == 2 && Morning in times && LunchStart in times then
      Diff(times[LunchStart], times[Morning])
    else if |times| == 3 && Morning in times && LunchStart in times && !IsToday(now, day) then
      Diff(times[LunchStart], times[Morning])
    else if IsToday(now, day) then
      if |times| == 1 && Morning in times then
        if now.hour < AfternoonHour then
          Diff(ClockTime(now), times[Morning])
        else
          Diff(ClockTime(now), times[Morning]) - LunchBreakMinutes
      else if |times| == 3 && Morning in times && LunchStart in times && LunchEnd in times then
        Diff(times[LunchStart], times[Morning]) + Diff(ClockTime(now), times[LunchEnd])
      else
        0
    else
      0
  }

  /**
   * `calculateTotalTime(theDay, times)`: no punch gives 0:00 before any
   * validation; otherwise an incoherent day raises the validator's error
   * unchanged, and a coherent one yields the branch table's total.
   */
  function CalculateTotalTime(now: Clock, day: Day, times: MarkerTimes): (r: Result<Time, IncoherentMarkers>)
    ensures |times| == 0 ==> r == Success(Midnight)
    ensures r.Failure? <==> |times| > 0 && !Coherent(times)
    ensures r.Failure? ==> Validate(times) == Fail(r.error)
    ensures r.Success? ==> Truncated(r.value)
  {
    if |times| == 0 then
      Success(Midnight)
    else
      match Validate(times)
      case Fail(e) => Failure(e)
      case Pass => Success(FromMinutes(WorkedMinutes(now, day, times)))
  }

  /** A coherent non-empty day yields the branch table's total. */
  lemma CoherentDayTotal(now: Clock, day: Day, times: MarkerTimes)
    requires |times| > 0 && Coherent(times)
    ensures CalculateTotalTime(now, day, times) == Success(FromMinutes(WorkedMinutes(now, day, times)))
  {
  }

  /** All four punches: morning session plus afternoon session, whatever the day. */
  lemma FullDayTotal(now: Clock, day: Day, times: MarkerTimes)
    requires times.Keys == {Morning, LunchStart, LunchEnd, Evening}
    requires Coherent(times)
    ensures CalculateTotalTime(now, day, times)
            == Success(FromMinutes(Diff(times[LunchStart], times[Morning]) + Diff(times[Evening], times[LunchEnd])))
  {
    assert |times| == |times.Keys| == 4;
    CoherentDayTotal(now, day, times);
  }

  /** Only arrival and departure: the span minus a standard hour of lunch, whatever the day. */
  lemma NoLunchPunchesTotal(now: Clock, day: Day, times: MarkerTimes)
    requires times.Keys == {Morning, Evening}
    requires Coherent(times)
    ensures CalculateTotalTime(now, day, times)
            == Success(FromMinutes(Diff(times[Evening], times[Morning]) - LunchBreakMinutes))
  {
    assert |times| == |times.Keys| == 2;
    CoherentDayTotal(now, day, times);
  }

  /** Only the morning session: its length, whatever the day. */
  lemma MorningSessionTotal(now: Clock, day: Day, times: MarkerTimes)
    requires times.Keys == {Morning, LunchStart}
    requires Coherent(times)
    ensures CalculateTotalTime(now, day, times)
            == Success(FromMinutes(Diff(times[LunchStart], times[Morning])))
  {
    assert |times| == |times.Keys| == 2;
    CoherentDayTotal(now, day, times);
  }

  /**
   * Three punches including the morning session, on a day other than today:
   * only the morning session counts, whichever third marker is present.
   */
  lemma PastDayThreePunchesTotal(now: Clock, day: Day, times: MarkerTimes)
    requires !IsToday(now, day)
    requires |times| == 3 && Morning in times && LunchStart in times
    requires Coherent(times)
    ensures CalculateTotalTime(now, day, times)
            == Success(FromMinutes(Diff(times[LunchStart], times[Morning])))
  {
    CoherentDayTotal(now, day, times);
  }

  /** On such a day, the third punch's marker and time have no effect on the total. */
  lemma PastDayThirdPunchIgnored(now: Clock, day: Day, t1: MarkerTimes, t2: MarkerTimes)
    requires !IsToday(now, day)
    requires |t1| == 3 && |t2| == 3
    requires Morning in t1 && LunchStart in t1 && Morning in t2 && LunchStart in t2
    requires t1[Morning] == t2[Morning] && t1[LunchStart] == t2[LunchStart]
    requires Coherent(t1) && Coherent(t2)
    ensures CalculateTotalTime(now, day, t1) == CalculateTotalTime(now, day, t2)
  {
    PastDayThreePunchesTotal(now, day, t1);
    PastDayThreePunchesTotal(now, day, t2);
  }

  /**
   * Today, with only the arrival punched: time elapsed since arrival, minus a
   * standard lunch hour once the clock reaches 13:00.
   */
  lemma TodayArrivalOnlyTotal(now: Clock, day: Day, times: MarkerTimes)
    requires IsToday(now, day)
    requires times.Keys == {Morning}
    ensures CalculateTotalTime(now, day, times)
            == Success(FromMinutes(
                 if now.hour < AfternoonHour then Diff(ClockTime(now), times[Morning])
                 else Diff(ClockTime(now), times[Morning]) - LunchBreakMinutes))
  {
    assert |times| == |times.Keys| == 1;
    AtMostOneMarkerIsCoherent(times);
    CoherentDayTotal(now, day, times);
  }

  /** Today, back from lunch: morning session plus time elapsed since the end of lunch. */
  lemma TodayAfterLunchTotal(now: Clock, day: Day, times: MarkerTimes)
    requires IsToday(now, day)
    requires times.Keys == {Morning, LunchStart, LunchEnd}
    requires Coherent(times)
    ensures CalculateTotalTime(now, day, times)
            == Success(FromMinutes(Diff(times[LunchStart], times[Morning]) + Diff(ClockTime(now), times[LunchEnd])))
  {
    TodayAfterLunchMinutes(now, day, times);
    CoherentDayTotal(now, day, times);
    assert FromMinutes(WorkedMinutes(now, day, times))
           == FromMinutes(Diff(times[LunchStart], times[Morning]) + Diff(ClockTime(now), times[LunchEnd]));
  }

  /** The branch table's value for that shape. */
  lemma TodayAfterLunchMinutes(now: Clock, day: Day, times: MarkerTimes)
    requires IsToday(now, day)
    requires times.Keys == {Morning, LunchStart, LunchEnd}
    ensures |times| == 3
    ensures WorkedMinutes(now, day, times)
            == Diff(times[LunchStart], times[Morning]) + Diff(ClockTime(now), times[LunchEnd])
  {
    assert |times| == 3 by { assert |times| == |times.Keys|; }
  }

  /** The shapes for which the branch table computes something. */
  predicate Counted(now: Clock, day: Day, keys: set<Marker>)
  {
    || keys == {Morning, LunchStart, LunchEnd, Evening}
    || keys == {Morning, Evening}
    || keys == {Morning, LunchStart}
    || (|keys| == 3 && Morning in keys && LunchStart in keys && !IsToday(now, day))
    || (IsToday(now, day) && keys == {Morning})
    || (IsToday(now, day) && keys == {Morning, LunchStart, LunchEnd})
  }

  /**
   * Every other coherent day counts 0:00: a lone marker other than the
   * arrival, days without an arrival, the arrival alone on another day, and
   * so on.
   */
  lemma {:induction false} OtherShapesCountNothing(now: Clock, day: Day, times: MarkerTimes)
    requires Coherent(times)
    requires !Counted(now, day, times.Keys)
    ensures CalculateTotalTime(now, day, times) == Success(Midnight)
  {
    if |times| == 0 {
      return;
    }
    CoherentDayTotal(now, day, times);
    WithinAllMarkers(times.Keys);
    if |times| == 4 {
      Sets.SubsetCard(times.Keys, AllMarkerSet);
    } else if |times| == 2 && Morning in times && Evening in times {
      Sets.SubsetCard({Morning, Evening}, times.Keys);
    } else if |times| == 2 && Morning in times && LunchStart in times {
      Sets.SubsetCard({Morning, LunchStart}, times.Keys);
    } else if |times| == 1 && Morning in times && IsToday(now, day) {
      Sets.SubsetCard({Morning}, times.Keys);
    } else if |times| == 3 && Morning in times && LunchStart in times && LunchEnd in times && IsToday(now, day) {
      Sets.SubsetCard({Morning, LunchStart, LunchEnd}, times.Keys);
    }
  }

  /** On such times the lexicographic order is the order of minutes since midnight. */
  lemma BeforeIsFewerMinutes(a: Time, b: Time)
    requires ClockMinute(a) && ClockMinute(b)
    ensures Before(a, b) <==> Minutes(a) < Minutes(b)
  {
  }

  /**
   * A complete coherent day of clock readings yields a non-negative total in
   * the usual hours-and-minutes form.
   */
  lemma CoherentFullDayIsNonNegative(now: Clock, day: Day, times: MarkerTimes)
    requires times.Keys == {Morning, LunchStart, LunchEnd, Evening}
    requires forall m :: m in times ==> ClockMinute(times[m])
    requires Coherent(times)
    ensures var r := CalculateTotalTime(now, day, times);
            r.Success? && r.value.hour >= 0 && 0 <= r.value.minute < 60
  {
    FullDayTotal(now, day, times);
    assert Rank(Morning) < Rank(LunchStart) && Rank(LunchEnd) < Rank(Evening);
    BeforeIsFewerMinutes(times[LunchStart], times[Morning]);
    BeforeIsFewerMinutes(times[Evening], times[LunchEnd]);
  }

  /**
   * Without lunch punches, a coherent day shorter than the standard lunch
   * break yields a negative total: hour and minute are then both at most 0.
   */
  lemma ShortDayWithoutLunchIsNegative(now: Clock, day: Day, times: MarkerTimes)
    requires times.Keys == {Morning, Evening}
    requires Coherent(times)
    requires Diff(times[Evening], times[Morning]) < LunchBreakMinutes
    ensures var r := CalculateTotalTime(now, day, times);
            r.Success? && Minutes(r.value) < 0 && r.value.hour <= 0 && r.value.minute <= 0
  {
    NoLunchPunchesTotal(now, day, times);
  }

  /** Each day's result, as the single-day calculation gives it. */
  function DayResults(now: Clock, data: map<Day, MarkerTimes>): (results: map<Day, Result<Time, IncoherentMarkers>>)
    ensures results.Keys == data.Keys
  {
    map d | d in data :: CalculateTotalTime(now, d, data[d])
  }

  /** The minutes of each successful result, 0 elsewhere. */
  function ResultMinutes(results: map<Day, Result<Time, IncoherentMarkers>>): Day -> int
  {
    d => if d in results && results[d].Success? then Minutes(results[d].value) else 0
  }

  /** Sum of the day totals of a week, independent of the order of summation. */
  ghost function WeekMinutes(now: Clock, data: map<Day, MarkerTimes>): int
  {
    Sets.SumOver(ResultMinutes(DayResults(now, data)), data.Keys)
  }

  /** A week without recorded days sums to no minutes. */
  lemma EmptyWeekIsZero(now: Clock, data: map<Day, MarkerTimes>)
    requires data.Keys == {}
    ensures WeekMinutes(now, data) == 0
  {
  }

  /**
   * The running total of `calculateTotalTime(data)`: times added one by one
   * with `sum`, from midnight. The total carries all the minutes of the
   * times added, in the form `minutesToTime` produces.
   */
  function SumTimes(ts: seq<Time>): (total: Time)
    ensures Minutes(total) == TotalMinutes(ts)
    ensures Truncated(total)
  {
    if |ts| == 0 then Midnight else Sum(SumTimes(ts[..|ts| - 1]), ts[|ts| - 1])
  }

  /** Total minutes of a sequence of times. */
  function TotalMinutes(ts: seq<Time>): int
  {
    if |ts| == 0 then 0 else TotalMinutes(ts[..|ts| - 1]) + Minutes(ts[|ts| - 1])
  }

  /**
   * Adding times one by one with `sum` is the same as converting the sum of
   * their minutes once: the intermediate truncations lose nothing.
   */
  lemma SumTimesIsTotalMinutes(ts: seq<Time>)
    ensures SumTimes(ts) == FromMinutes(TotalMinutes(ts))
  {
    FromMinutesInverse(SumTimes(ts));
  }

  /**
   * The loop of `calculateTotalTime(data)`, counted in minutes: visits the
   * days in an unspecified order and stops at the first failed day it meets.
   */
  method SumDayMinutes(results: map<Day, Result<Time, IncoherentMarkers>>) returns (r: Result<int, IncoherentMarkers>)
    ensures r.Success? <==> forall d :: d in results ==> results[d].Success?
    ensures r.Failure? ==> exists d :: d in results && results[d] == Failure(r.error)
    ensures r.Success? ==> r.value == Sets.SumOver(ResultMinutes(results), results.Keys)
  {
    var total := 0;
    var remaining := results.Keys;
    ghost var done: set<Day> := {};
    ghost var minutes := ResultMinutes(results);
    while remaining != {}
      invariant done + remaining == results.Keys && done !! remaining
      invariant forall d :: d in done ==> results[d].Success?
      invariant total == Sets.SumOver(minutes, done)
      decreases remaining
    {
      var d :| d in remaining;
      if results[d].Failure? {
        return Failure(results[d].error);
      }
      Sets.SumOverAdd(minutes, done, d);
      total := total + Minutes(results[d].value);
      remaining := remaining - {d};
      done := done + {d};
    }
    assert done == results.Keys;
    return Success(total);
  }

  /**
   * `calculateTotalTime(data)`: the sum of the days' totals, without wrapping
   * at 24 hours, or the error of an incoherent day. The running total is kept
   * in minutes and converted once at the end, which by
   * `SumTimesIsTotalMinutes` is the same as adding the day totals one by one
   * with `sum`; `WeekTotalInAnyOrder` shows the visiting order does not
   * matter. Which error surfaces when several days are incoherent is left
   * open.
   */
  method CalculateWeekTotal(now: Clock, data: map<Day, MarkerTimes>) returns (r: Result<Time, IncoherentMarkers>)
    ensures data == map[] ==> r == Success(Midnight)
    ensures r.Success? <==> forall d :: d in data ==> CalculateTotalTime(now, d, data[d]).Success?
    ensures r.Failure? ==> exists d :: d in data && CalculateTotalTime(now, d, data[d]) == Failure(r.error)
    ensures r.Success? ==> r.value == FromMinutes(WeekMinutes(now, data))
  {
    var results := DayResults(now, data);
    var total := SumDayMinutes(results);
    if data == map[] {
      EmptyWeekIsZero(now, data);
    }
    if total.Failure? {
      ghost var d :| d in results && results[d] == Failure(total.error);
      DayResultIsDayTotal(now, data, d);
      return Failure(total.error);
    }
    AllDayResultsSucceed(now, data);
    return Success(FromMinutes(total.value));
  }

  /** The week's per-day results are the single-day calculation's results. */
  lemma DayResultIsDayTotal(now: Clock, data: map<Day, MarkerTimes>, d: Day)
    requires d in data
    ensures DayResults(now, data)[d] == CalculateTotalTime(now, d, data[d])
  {
  }

  /** Every per-day result succeeding means every day's calculation succeeds. */
  lemma AllDayResultsSucceed(now: Clock, data: map<Day, MarkerTimes>)
    requires forall d :: d in DayResults(now, data) ==> DayResults(now, data)[d].Success?
    ensures forall d :: d in data ==> CalculateTotalTime(now, d, data[d]).Success?
  {
    forall d | d in data
      ensures CalculateTotalTime(now, d, data[d]).Success?
    {
      DayResultIsDayTotal(now, data, d);
    }
  }

  /** The days of `days` are pairwise different. */
  predicate Distinct(days: seq<Day>)
  {
    forall i, j :: 0 <= i < j < |days| ==> days[i] != days[j]
  }

  /** Summing minutes along a sequence of distinct days gives the order-free sum over their set. */
  lemma {:induction false} TotalMinutesIsSumOver(f: Day -> int, days: seq<Day>, ts: seq<Time>)
    requires |ts| == |days| && Distinct(days)
    requires forall i :: 0 <= i < |days| ==> Minutes(ts[i]) == f(days[i])
    ensures TotalMinutes(ts) == Sets.SumOver(f, set d | d in days)
  {
    if |days| == 0 {
      assert (set d | d in days) == {};
    } else {
      var n := |days| - 1;
      var earlier, last := days[..n], days[n];
      assert forall i :: 0 <= i < n ==> ts[..n][i] == ts[i] && earlier[i] == days[i];
      TotalMinutesIsSumOver(f, earlier, ts[..n]);
      var all := set d | d in days;
      assert all - {last} == set d | d in earlier by {
        forall d | d in all - {last}
          ensures d in earlier
        {
          var i :| 0 <= i < |days| && days[i] == d;
          assert i < n;
        }
      }
      Sets.SumOverRemove(f, all, last);
    }
  }

  /**
   * Whatever order the week's days are visited in, adding their totals one
   * by one with `sum` gives the order-free week total.
   */
  lemma WeekTotalInAnyOrder(now: Clock, data: map<Day, MarkerTimes>, days: seq<Day>)
    requires Distinct(days) && (set d | d in days) == data.Keys
    requires forall d :: d in data ==> CalculateTotalTime(now, d, data[d]).Success?
    ensures SumTimes(seq(|days|, i requires 0 <= i < |days| => CalculateTotalTime(now, days[i], data[days[i]]).value))
            == FromMinutes(WeekMinutes(now, data))
  {
    var ts := seq(|days|, i requires 0 <= i < |days| => CalculateTotalTime(now, days[i], data[days[i]]).value);
    var f := ResultMinutes(DayResults(now, data));
    SumTimesIsTotalMinutes(ts);
    TotalMinutesIsSumOver(f, days, ts);
  }
}
