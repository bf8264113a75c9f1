/**
 * Coherency of one day's punches: taken in the markers' chronological order,
 * the recorded times must never go backwards. The scan reports the first
 * adjacent pair of present markers whose times decrease.
 */
module Validator {
  import opened Wrappers
  import opened Times
  import opened Markers
  import opened Errors
  import Sets

  /** One day's punches: the time recorded for each marker that was set. */
  type MarkerTimes = map<Marker, Time>

  /** Markers listed with strictly increasing rank (hence without repetition). */
  predicate StrictlyRanked(ms: seq<Marker>)
  {
    forall i, j :: 0 <= i < j < |ms| ==> Rank(ms[i]) < Rank(ms[j])
  }

  /** The markers of `ms` that are present in `times`, in the order of `ms`. */
  function KeepPresent(ms: seq<Marker>, times: MarkerTimes): (kept: seq<Marker>)
    ensures forall m :: m in kept <==> m in ms && m in times
    ensures StrictlyRanked(ms) ==> StrictlyRanked(kept)
    ensures |kept| <= |ms|
  {
    if |ms| == 0 then []
    else
      var init := KeepPresent(ms[..|ms| - 1], times);
      var last := ms[|ms| - 1];
      assert forall m :: m in ms <==> m in ms[..|ms| - 1] || m == last;
      if last in times then
        RankedAppend(ms, init, last);
        init + [last]
      else init
  }

  /** Appending the last entry of a ranked list to a selection of its other entries keeps it ranked. */
  lemma RankedAppend(ms: seq<Marker>, init: seq<Marker>, last: Marker)
    requires |ms| > 0 && last == ms[|ms| - 1]
    requires forall m :: m in init ==> m in ms[..|ms| - 1]
    requires StrictlyRanked(ms) ==> StrictlyRanked(init)
    ensures StrictlyRanked(ms) ==> StrictlyRanked(init + [last])
  {
    if StrictlyRanked(ms) {
      forall m | m in init
        ensures Rank(m) < Rank(last)
      {
        var k := IndexOf(ms[..|ms| - 1], m);
        assert ms[k] == m;
      }
    }
  }

  /** A position at which `m` occurs in `ms`. */
  lemma IndexOf(ms: seq<Marker>, m: Marker) returns (k: nat)
    requires m in ms
    ensures k < |ms| && ms[k] == m
  {
    k :| k < |ms| && ms[k] == m;
  }

  /** The present markers in chronological order (the first loop of the source). */
  function OrderedMarkers(times: MarkerTimes): (ms: seq<Marker>)
    ensures forall m :: m in ms <==> m in times
    ensures StrictlyRanked(ms)
  {
    AllMarkersInRankOrder();
    KeepPresent(AllMarkers, times)
  }

  /** Adjacent entries `j - 1` and `j` of `ms` have decreasing times. */
  predicate DescentAt(times: MarkerTimes, ms: seq<Marker>, j: int)
    requires forall m :: m in ms ==> m in times
  {
    1 <= j < |ms| && CompareTo(times[ms[j]], times[ms[j - 1]]) < 0
  }

  /**
   * Scan the adjacent pairs of `ms` from index `i` on and fail on the first
   * whose later time is strictly before its earlier time.
   */
  function Scan(times: MarkerTimes, ms: seq<Marker>, i: nat): (r: Outcome<IncoherentMarkers>)
    requires 1 <= i
    requires forall m :: m in ms ==> m in times
    ensures r.Pass? <==> forall j :: i <= j < |ms| ==> !DescentAt(times, ms, j)
    decreases |ms| - i
  {
    if i >= |ms| then Pass
    else if CompareTo(times[ms[i]], times[ms[i - 1]]) < 0 then
      assert DescentAt(times, ms, i);
      Fail(IncoherentMarkers(Some(ms[i - 1]), Some(ms[i])))
    else
      assert !DescentAt(times, ms, i);
      Scan(times, ms, i + 1)
  }

  /** A failed scan reports the first descent at or after `i`. */
  lemma {:induction false} ScanFailsAtFirstDescent(times: MarkerTimes, ms: seq<Marker>, i: nat) returns (j: nat)
    requires 1 <= i
    requires forall m :: m in ms ==> m in times
    requires Scan(times, ms, i).Fail?
    ensures i <= j < |ms| && DescentAt(times, ms, j)
    ensures forall k :: i <= k < j ==> !DescentAt(times, ms, k)
    ensures Scan(times, ms, i).error == IncoherentMarkers(Some(ms[j - 1]), Some(ms[j]))
    decreases |ms| - i
  {
    if DescentAt(times, ms, i) {
      j := i;
    } else {
      j := ScanFailsAtFirstDescent(times, ms, i + 1);
    }
  }

  /**
   * The present times never go backwards in chronological order: for any two
   * present markers, the later one's time is not before the earlier one's.
   */
  predicate Coherent(times: MarkerTimes)
  {
    forall a, b :: a in times && b in times && Rank(a) < Rank(b) ==>
      CompareTo(times[b], times[a]) >= 0
  }

  /** `validateMarkersCoherency` as a pure function. */
  function Validate(times: MarkerTimes): (r: Outcome<IncoherentMarkers>)
    ensures r.Pass? <==> Coherent(times)
  {
    var ms := OrderedMarkers(times);
    var r := Scan(times, ms, 1);
    AdjacentIffCoherent(times);
    r
  }

  /** Checking adjacent present markers is the same as checking all pairs. */
  lemma {:induction false} AdjacentIffCoherent(times: MarkerTimes)
    ensures (forall j :: 1 <= j < |OrderedMarkers(times)| ==> !DescentAt(times, OrderedMarkers(times), j))
            <==> Coherent(times)
  {
    var ms := OrderedMarkers(times);
    if forall j :: 1 <= j < |ms| ==> !DescentAt(times, ms, j) {
      forall a, b | a in times && b in times && Rank(a) < Rank(b)
        ensures CompareTo(times[b], times[a]) >= 0
      {
        var i := IndexOf(ms, a);
        var j := IndexOf(ms, b);
        RankOrderIsIndexOrder(ms, i, j);
        ChainNotDescending(times, ms, i, j);
      }
    }
    if Coherent(times) {
      forall j | 1 <= j < |ms|
        ensures !DescentAt(times, ms, j)
      {
        assert Rank(ms[j - 1]) < Rank(ms[j]);
      }
    }
  }

  /** Without adjacent descents, no later entry is before an earlier one. */
  lemma {:induction false} ChainNotDescending(times: MarkerTimes, ms: seq<Marker>, i: nat, j: nat)
    requires forall m :: m in ms ==> m in times
    requires forall k :: 1 <= k < |ms| ==> !DescentAt(times, ms, k)
    requires i <= j < |ms|
    ensures CompareTo(times[ms[j]], times[ms[i]]) >= 0
    decreases j - i
  {
    if i < j {
      ChainNotDescending(times, ms, i, j - 1);
      assert !DescentAt(times, ms, j);
      CompareTransitive(times[ms[i]], times[ms[j - 1]], times[ms[j]]);
    }
  }

  /** In a ranked list, rank order and position order agree. */
  lemma RankOrderIsIndexOrder(ms: seq<Marker>, i: nat, j: nat)
    requires StrictlyRanked(ms) && i < |ms| && j < |ms|
    ensures Rank(ms[i]) < Rank(ms[j]) <==> i < j
  {
  }

  /** The position in the ordered markers of the pair a failed validation reports. */
  lemma FirstDescentIndex(times: MarkerTimes) returns (j: nat)
    requires Validate(times).Fail?
    ensures 1 <= j < |OrderedMarkers(times)|
    ensures DescentAt(times, OrderedMarkers(times), j)
    ensures forall k :: 1 <= k < j ==> !DescentAt(times, OrderedMarkers(times), k)
    ensures Validate(times).error
            == IncoherentMarkers(Some(OrderedMarkers(times)[j - 1]), Some(OrderedMarkers(times)[j]))
  {
    j := ScanFailsAtFirstDescent(times, OrderedMarkers(times), 1);
  }

  /** No present marker ranks strictly between two adjacent ordered markers. */
  lemma NothingBetween(times: MarkerTimes, j: nat)
    requires 1 <= j < |OrderedMarkers(times)|
    ensures forall m :: m in times ==>
              !(Rank(OrderedMarkers(times)[j - 1]) < Rank(m) < Rank(OrderedMarkers(times)[j]))
  {
    var ms := OrderedMarkers(times);
    forall m | m in times
      ensures !(Rank(ms[j - 1]) < Rank(m) < Rank(ms[j]))
    {
      var k := IndexOf(ms, m);
      RankOrderIsIndexOrder(ms, j - 1, k);
      RankOrderIsIndexOrder(ms, k, j);
    }
  }

  /** Before the first descent, all present markers are pairwise coherent. */
  lemma {:induction false} CoherentBeforeDescent(times: MarkerTimes, j: nat)
    requires 1 <= j < |OrderedMarkers(times)|
    requires forall k :: 1 <= k < j ==> !DescentAt(times, OrderedMarkers(times), k)
    ensures forall a, b :: a in times && b in times && Rank(a) < Rank(b) <= Rank(OrderedMarkers(times)[j - 1])
              ==> CompareTo(times[b], times[a]) >= 0
  {
    var ms := OrderedMarkers(times);
    var prefix := ms[..j];
    forall k | 1 <= k < |prefix|
      ensures !DescentAt(times, prefix, k)
    {
      assert !DescentAt(times, ms, k);
    }
    forall a, b | a in times && b in times && Rank(a) < Rank(b) <= Rank(ms[j - 1])
      ensures CompareTo(times[b], times[a]) >= 0
    {
      var ia := IndexOf(ms, a);
      var ib := IndexOf(ms, b);
      RankOrderIsIndexOrder(ms, ia, ib);
      RankOrderIsIndexOrder(ms, ib, j - 1);
      if ib != j - 1 {
        RankOrderIsIndexOrder(ms, j - 1, ib);
      }
      assert prefix[ia] == a && prefix[ib] == b;
      ChainNotDescending(times, prefix, ia, ib);
    }
  }

  /**
   * The reported pair is the first descent: both markers are present, the
   * earlier marker ranks lower, no present marker lies between them, the later
   * marker's time is strictly before the earlier's, and every pair of present
   * markers up to the earlier one is coherent.
   */
  lemma {:induction false} FailureIsFirstDescent(times: MarkerTimes)
    requires Validate(times).Fail?
    ensures var e := Validate(times).error;
            && e.earliest.Some? && e.latest.Some?
            && e.earliest.value in times && e.latest.value in times
            && Rank(e.earliest.value) < Rank(e.latest.value)
            && (forall m :: m in times ==> !(Rank(e.earliest.value) < Rank(m) < Rank(e.latest.value)))
            && Before(times[e.latest.value], times[e.earliest.value])
            && (forall a, b :: a in times && b in times && Rank(a) < Rank(b) <= Rank(e.earliest.value)
                  ==> CompareTo(times[b], times[a]) >= 0)
  {
    var j := FirstDescentIndex(times);
    NothingBetween(times, j);
    CoherentBeforeDescent(times, j);
  }

  /** With no marker, or a single one, there is nothing to compare. */
  lemma AtMostOneMarkerIsCoherent(times: MarkerTimes)
    requires |times| <= 1
    ensures Validate(times) == Pass
  {
    forall a, b | a in times && b in times
      ensures !(Rank(a) < Rank(b))
    {
      Sets.AtMostOneElement(times.Keys, a, b);
    }
  }

  /** Markers filled with their seed times are always coherent. */
  lemma DefaultSeedsAreCoherent(present: set<Marker>)
    ensures Validate(map m | m in present :: DefaultTime(m)) == Pass
  {
    var times := map m | m in present :: DefaultTime(m);
    forall a, b | a in times && b in times && Rank(a) < Rank(b)
      ensures CompareTo(times[b], times[a]) >= 0
    {
      DefaultsStrictlyIncrease(a, b);
    }
  }

  /** Present markers that all carry the same time are coherent: ties are accepted. */
  lemma EqualTimesAreCoherent(times: MarkerTimes, t: Time)
    requires forall m :: m in times ==> times[m] == t
    ensures Validate(times) == Pass
  {
  }

  /**
   * The first loop of the source's method: walks `Marker.values()` in
   * declaration order and collects each present marker with its time.
   */
  method CollectPresent(times: MarkerTimes) returns (orderedData: seq<Time>, orderedMarkers: seq<Marker>)
    ensures orderedMarkers == OrderedMarkers(times)
    ensures |orderedData| == |orderedMarkers|
    ensures forall k :: 0 <= k < |orderedData| ==> orderedData[k] == times[orderedMarkers[k]]
  {
    orderedData := [];
    orderedMarkers := [];
    var n := 0;
    while n < |AllMarkers|
      invariant 0 <= n <= |AllMarkers|
      invariant orderedMarkers == KeepPresent(AllMarkers[..n], times)
      invariant |orderedData| == |orderedMarkers|
      invariant forall k :: 0 <= k < |orderedData| ==> orderedMarkers[k] in times && orderedData[k] == times[orderedMarkers[k]]
    {
      var marker := AllMarkers[n];
      assert AllMarkers[..n + 1][..n] == AllMarkers[..n];
      if marker in times {
        orderedData := orderedData + [times[marker]];
        orderedMarkers := orderedMarkers + [marker];
      }
      n := n + 1;
    }
    assert AllMarkers[..n] == AllMarkers;
  }

  /**
   * The source's method: collects the present markers and their times in
   * declaration order, then compares each time with the previous one and
   * stops at the first decrease.
   */
  method ValidateMarkersCoherency(times: MarkerTimes) returns (r: Outcome<IncoherentMarkers>)
    ensures r == Validate(times)
    ensures r.Pass? <==> Coherent(times)
  {
    var orderedData, orderedMarkers := CollectPresent(times);
    var i := 1;
    while i < |orderedData|
      invariant 1 <= i
      invariant Scan(times, orderedMarkers, i) == Scan(times, orderedMarkers, 1)
    {
      if CompareTo(orderedData[i], orderedData[i - 1]) < 0 {
        return Fail(IncoherentMarkers(Some(orderedMarkers[i - 1]), Some(orderedMarkers[i])));
      }
      i := i + 1;
    }
    return Pass;
  }
}
