/**
 * The four punches of a working day. Their declaration order is the
 * chronological order the validator and the calculator rely on; it is made
 * explicit here as `Rank`.
 */
module Markers {
  import opened Times

  datatype Marker = Morning | LunchStart | LunchEnd | Evening

  /** Position of the marker in declaration order (Java `ordinal()`). */
  function Rank(m: Marker): (r: nat)
    ensures r < 4
  {
    match m
    case Morning => 0
    case LunchStart => 1
    case LunchEnd => 2
    case Evening => 3
  }

  /** `Marker.values()`: every marker, in declaration order. */
  const AllMarkers: seq<Marker> := [Morning, LunchStart, LunchEnd, Evening]

  /** The set of all markers. */
  const AllMarkerSet: set<Marker> := {Morning, LunchStart, LunchEnd, Evening}

  /** Every set of markers is drawn from the four markers. */
  lemma WithinAllMarkers(s: set<Marker>)
    ensures s <= AllMarkerSet && |AllMarkerSet| == 4
  {
    forall m | m in s
      ensures m in AllMarkerSet
    {
      match m
      case Morning =>
      case LunchStart =>
      case LunchEnd =>
      case Evening =>
    }
  }

  /**
   * Hour of the time used to seed the picker for this marker (`getHour`):
   * within the working day, before one o'clock exactly for the two markers
   * that precede lunch's end.
   */
  function DefaultHour(m: Marker): (h: int)
    ensures 9 <= h <= 18
    ensures h < 13 <==> Rank(m) < 2
  {
    match m
    case Morning => 9
    case LunchStart => 12
    case LunchEnd => 13
    case Evening => 18
  }

  /** Minute of the seed time (`getMinute`): always on the hour. */
  function DefaultMinute(m: Marker): (minute: int)
    ensures minute == 0
  {
    0
  }

  function DefaultTime(m: Marker): Time
  {
    Time(DefaultHour(m), DefaultMinute(m))
  }

  /**
   * The enum constant's name, as Java's `toString` renders it: a non-empty
   * upper-case identifier, words joined by underscores.
   */
  function Name(m: Marker): (s: string)
    ensures |s| > 0
    ensures forall i :: 0 <= i < |s| ==> 'A' <= s[i] <= 'Z' || s[i] == '_'
  {
    match m
    case Morning => "MORNING"
    case LunchStart => "LUNCH_START"
    case LunchEnd => "LUNCH_END"
    case Evening => "EVENING"
  }

  /** There are exactly four markers, listed once each, in rank order. */
  lemma AllMarkersInRankOrder()
    ensures |AllMarkers| == 4
    ensures forall i :: 0 <= i < |AllMarkers| ==> Rank(AllMarkers[i]) == i
    ensures forall m: Marker :: AllMarkers[Rank(m)] == m
    ensures forall m: Marker :: m in AllMarkers
  {
    forall m: Marker
      ensures m in AllMarkers
    {
      assert AllMarkers[Rank(m)] == m;
    }
  }

  /** Rank determines the marker. */
  lemma RankInjective(a: Marker, b: Marker)
    ensures Rank(a) == Rank(b) <==> a == b
  {
  }

  /** The seed times declared by the enum constants. */
  lemma DefaultSeedTimes()
    ensures DefaultTime(Morning) == Time(9, 0)
    ensures DefaultTime(LunchStart) == Time(12, 0)
    ensures DefaultTime(LunchEnd) == Time(13, 0)
    ensures DefaultTime(Evening) == Time(18, 0)
  {
  }

  /** Every seed is a valid clock time on the hour. */
  lemma DefaultsAreClockTimes(m: Marker)
    ensures 0 <= DefaultTime(m).hour <= 23 && DefaultTime(m).minute == 0
  {
  }

  /** Seed times strictly increase in declaration order. */
  lemma DefaultsStrictlyIncrease(a: Marker, b: Marker)
    ensures Rank(a) < Rank(b) <==> Before(DefaultTime(a), DefaultTime(b))
  {
  }

  /** Distinct markers have distinct names. */
  lemma NameInjective(a: Marker, b: Marker)
    ensures Name(a) == Name(b) <==> a == b
  {
  }
}
