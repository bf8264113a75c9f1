/**
 * The arithmetic of `StorageServiceImpl`: which days `loadWeekWorklog`
 * loads for a given day, and the file name `buildFilename` gives a day.
 * Days are consecutive integers (a day number), so "one day earlier" is
 * subtraction; reading and writing the files is the `loadDay` parameter.
 */
module Storage {
  import opened Wrappers
  import opened Decimal
  import Validator

  /** `Calendar.DAY_OF_WEEK` values: Sunday is 1, Monday 2, ..., Saturday 7. */
  const Sunday := 1
  const Monday := 2
  const Saturday := 7

  predicate IsDayOfWeek(dayOfWeek: int)
  {
    Sunday <= dayOfWeek <= Saturday
  }

  /**
   * `nbOfDaysToRemove`: how many days before the given day belong to its
   * week, the week starting on Monday. Sunday is counted as day 8 so that
   * it comes after Saturday.
   */
  function DaysToLoad(dayOfWeek: int): (n: int)
    requires IsDayOfWeek(dayOfWeek)
    ensures 0 <= n <= 6
    ensures n == 0 <==> dayOfWeek == Monday
  {
    var position := if dayOfWeek == Sunday then 8 else dayOfWeek;
    position - Monday
  }

  /** The `Calendar.DAY_OF_WEEK` of the day `k` days before a day whose value is `dayOfWeek`. */
  function WeekdayBefore(dayOfWeek: int, k: int): (w: int)
    ensures IsDayOfWeek(w)
  {
    (dayOfWeek - 1 - k) % 7 + 1
  }

  /**
   * The days loaded are exactly the rest of the week so far: none of them is
   * a Sunday, the earliest is the Monday and no other is, and the first day
   * not loaded is the Sunday that ended the previous week.
   */
  lemma LoadedDaysAreTheWeekSoFar(dayOfWeek: int)
    requires IsDayOfWeek(dayOfWeek)
    ensures forall k :: 1 <= k <= DaysToLoad(dayOfWeek) ==> WeekdayBefore(dayOfWeek, k) != Sunday
    ensures forall k :: 1 <= k < DaysToLoad(dayOfWeek) ==> WeekdayBefore(dayOfWeek, k) != Monday
    ensures DaysToLoad(dayOfWeek) > 0 ==> WeekdayBefore(dayOfWeek, DaysToLoad(dayOfWeek)) == Monday
    ensures WeekdayBefore(dayOfWeek, DaysToLoad(dayOfWeek) + 1) == Sunday
  {
  }

  /**
   * `loadWeekWorklog(givenDay)`: the worklog of each day from the Monday of
   * the given day's week up to the day before it, each loaded with `loadDay`.
   */
  method LoadWeekWorklog(givenDay: int, dayOfWeek: int, loadDay: int -> Validator.MarkerTimes)
    returns (data: map<int, Validator.MarkerTimes>)
    requires IsDayOfWeek(dayOfWeek)
    ensures forall d :: d in data <==> givenDay - DaysToLoad(dayOfWeek) <= d < givenDay
    ensures forall d :: d in data ==> data[d] == loadDay(d)
    ensures |data| == DaysToLoad(dayOfWeek)
  {
    var givenDayOfWeek := dayOfWeek;
    if givenDayOfWeek == Sunday {
      givenDayOfWeek := 8;
    }
    var nbOfDaysToRemove := givenDayOfWeek - Monday;
    data := map[];
    var i := 1;
    while i <= nbOfDaysToRemove
      invariant 1 <= i <= nbOfDaysToRemove + 1
      invariant forall d :: d in data <==> givenDay - (i - 1) <= d < givenDay
      invariant forall d :: d in data ==> data[d] == loadDay(d)
      invariant |data| == i - 1
    {
      var computeDay := givenDay - i;
      assert computeDay !in data;
      data := data[computeDay := loadDay(computeDay)];
      i := i + 1;
    }
  }

  /** A calendar date as `SimpleDateFormat` reads it: era year, month 1..12, day of month. */
  datatype Date = Date(year: nat, month: nat, day: nat)

  predicate IsDate(date: Date)
  {
    date.year >= 1 && 1 <= date.month <= 12 && 1 <= date.day <= 31
  }

  const FilenamePrefix := "timeLog_"

  /**
   * `buildFilename(date)`: the prefix and the date formatted as `yyyyMMdd`,
   * so every character after the prefix is a decimal digit.
   */
  function BuildFilename(date: Date): (name: seq<char>)
    requires IsDate(date)
    ensures |name| >= |FilenamePrefix| + 8
    ensures name[..|FilenamePrefix|] == FilenamePrefix
    ensures forall i :: |FilenamePrefix| <= i < |name| ==> IsDigit(name[i])
  {
    var digits := ZeroPad(date.year, 4) + ZeroPad(date.month, 2) + ZeroPad(date.day, 2);
    assert forall i :: 0 <= i < |digits| ==> IsDigit(digits[i]);
    FilenamePrefix + digits
  }

  /** Reads a file name back: the year is everything between the prefix and the last four digits. */
  function ParseFilename(name: seq<char>): Option<Date>
  {
    var p := |FilenamePrefix|;
    if |name| < p + 8 || name[..p] != FilenamePrefix then None
    else Some(Date(ParseDigits(name[p..|name| - 4]),
                   ParseDigits(name[|name| - 4..|name| - 2]),
                   ParseDigits(name[|name| - 2..])))
  }

  /** The pieces of a name made of a prefix, a year and two two-character fields. */
  lemma NamePieces(p: seq<char>, y: seq<char>, m: seq<char>, d: seq<char>)
    requires |m| == 2 && |d| == 2
    ensures var s := p + y + m + d;
            s[..|p|] == p && s[|p|..|s| - 4] == y && s[|s| - 4..|s| - 2] == m && s[|s| - 2..] == d
  {
    var s := p + y + m + d;
    assert s == (p + y) + (m + d);
    assert s[..|p| + |y|] == p + y;
    assert s[|p| + |y|..] == m + d;
  }

  /** A name laid out as prefix, year, month and day reads back as those three fields. */
  lemma ParsePieces(y: seq<char>, m: seq<char>, d: seq<char>)
    requires |y| >= 4 && |m| == 2 && |d| == 2
    ensures ParseFilename(FilenamePrefix + y + m + d) == Some(Date(ParseDigits(y), ParseDigits(m), ParseDigits(d)))
  {
    NamePieces(FilenamePrefix, y, m, d);
  }

  /** A built name is laid out as prefix, padded year, padded month and padded day. */
  lemma FilenameLayout(date: Date)
    requires IsDate(date)
    ensures BuildFilename(date) == FilenamePrefix + ZeroPad(date.year, 4) + ZeroPad(date.month, 2) + ZeroPad(date.day, 2)
  {
  }

  /** A file name reads back as the date it was built from. */
  lemma FilenameRoundTrip(date: Date)
    requires IsDate(date)
    ensures ParseFilename(BuildFilename(date)) == Some(date)
  {
    DigitCount(date.month);
    DigitCount(date.day);
    FilenameLayout(date);
    ParsePieces(ZeroPad(date.year, 4), ZeroPad(date.month, 2), ZeroPad(date.day, 2));
  }

  /** Different days are stored in different files. */
  lemma FilenameIdentifiesDate(a: Date, b: Date)
    requires IsDate(a) && IsDate(b)
    ensures BuildFilename(a) == BuildFilename(b) <==> a == b
  {
    FilenameRoundTrip(a);
    FilenameRoundTrip(b);
  }

  /** Up to year 9999 a file name has the fixed length of sixteen characters. */
  lemma FilenameLength(date: Date)
    requires IsDate(date)
    ensures date.year < 10000 <==> |BuildFilename(date)| == 16
  {
    DigitCount(date.year);
    DigitCount(date.month);
    DigitCount(date.day);
  }
}
