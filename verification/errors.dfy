/**
 * The single error of the core: two markers whose recorded times contradict
 * their chronological order. Either marker may be absent (Java `null`) in a
 * degenerate construction.
 */
module Errors {
  import opened Wrappers
  import opened Markers

  datatype IncoherentMarkers = IncoherentMarkers(earliest: Option<Marker>, latest: Option<Marker>)

  const MessageHead: string := "Value of marker "
  const MessageMiddle: string := " is sooner than the value of marker "
  const GenericMessage: string :=
    "Values of markers are incoherent (a later marker has a sooner value than a sooner marker)"

  const RenderHead: string := "IncoherentMarkersException{earliest="
  const RenderMiddle: string := ", latest="

  /** Java string conversion of a possibly-null marker. */
  function NameOrNull(m: Option<Marker>): string
  {
    match m
    case None => "null"
    case Some(x) => Name(x)
  }

  /** True when `c` occurs nowhere in `s`. */
  predicate Free(s: string, c: char)
  {
    forall i :: 0 <= i < |s| ==> s[i] != c
  }

  /**
   * The user-facing message: names the later marker first and the earlier one
   * second, or falls back to a fixed text when either marker is missing.
   */
  function Message(e: IncoherentMarkers): (msg: string)
    ensures e.earliest.None? || e.latest.None? ==> msg == GenericMessage
    ensures e.earliest.Some? && e.latest.Some? ==>
              var later := Name(e.latest.value);
              var earlier := Name(e.earliest.value);
              && |msg| == |MessageHead| + |later| + |MessageMiddle| + |earlier|
              && msg[|MessageHead|..|MessageHead| + |later|] == later
              && msg[|msg| - |earlier|..] == earlier
  {
    if e.latest.Some? && e.earliest.Some? then
      MessageHead + (Name(e.latest.value) + (MessageMiddle + Name(e.earliest.value)))
    else
      GenericMessage
  }

  /**
   * The debug rendering: the earliest marker's name (or `null`) follows the
   * head directly, and the latest marker's name (or `null`) closes the text
   * before the final brace.
   */
  function Render(e: IncoherentMarkers): (s: string)
    ensures var earliest, latest := NameOrNull(e.earliest), NameOrNull(e.latest);
            && |s| == |RenderHead| + |earliest| + |RenderMiddle| + |latest| + 1
            && s[..|RenderHead|] == RenderHead
            && s[|RenderHead|..|RenderHead| + |earliest|] == earliest
            && s[|s| - 1 - |latest|..|s| - 1] == latest
            && s[|s| - 1] == '}'
  {
    RenderHead + (NameOrNull(e.earliest) + (RenderMiddle + (NameOrNull(e.latest) + "}")))
  }

  /**
   * If two concatenations agree and the separator `c` is absent from both
   * left parts but opens both right parts, the parts agree.
   */
  lemma SplitAtSeparator(a: string, b: string, x: string, y: string, c: char)
    requires Free(a, c) && Free(x, c)
    requires |b| > 0 && b[0] == c && |y| > 0 && y[0] == c
    requires a + b == x + y
    ensures a == x && b == y
  {
    SeparatorPosition(a, b, c);
    SeparatorPosition(x, y, c);
    if |a| != |x| {
      assert false;
    } else {
      assert a == (a + b)[..|a|];
      assert x == (x + y)[..|x|];
    }
  }

  /** In `a + b`, the first occurrence of `c` is where `b` starts. */
  lemma SeparatorPosition(a: string, b: string, c: char)
    requires Free(a, c) && |b| > 0 && b[0] == c
    ensures (a + b)[|a|] == c
    ensures forall i :: 0 <= i < |a| ==> (a + b)[i] != c
  {
  }

  lemma NameOrNullInjective(a: Option<Marker>, b: Option<Marker>)
    ensures NameOrNull(a) == NameOrNull(b) <==> a == b
  {
  }

  lemma NamesFree(m: Option<Marker>)
    ensures Free(NameOrNull(m), ',') && Free(NameOrNull(m), ' ')
  {
  }

  /** Equal strings with a common prefix have equal remainders. */
  lemma StripPrefix(p: string, s1: string, s2: string)
    requires p + s1 == p + s2
    ensures s1 == s2
  {
    assert s1 == (p + s1)[|p|..];
    assert s2 == (p + s2)[|p|..];
  }

  /** Equal strings with a common suffix have equal remainders. */
  lemma StripSuffix(s1: string, s2: string, q: string)
    requires s1 + q == s2 + q
    ensures s1 == s2
  {
    assert s1 == (s1 + q)[..|s1|];
    assert s2 == (s2 + q)[..|s2|];
  }

  /** The rendering identifies the error: it determines both markers. */
  lemma {:induction false} RenderIdentifiesPair(e1: IncoherentMarkers, e2: IncoherentMarkers)
    ensures Render(e1) == Render(e2) <==> e1 == e2
  {
    if Render(e1) == Render(e2) {
      var n1, n2 := NameOrNull(e1.earliest), NameOrNull(e2.earliest);
      var l1, l2 := NameOrNull(e1.latest) + "}", NameOrNull(e2.latest) + "}";
      StripPrefix(RenderHead, n1 + (RenderMiddle + l1), n2 + (RenderMiddle + l2));
      NamesFree(e1.earliest);
      NamesFree(e2.earliest);
      SplitAtSeparator(n1, RenderMiddle + l1, n2, RenderMiddle + l2, ',');
      NameOrNullInjective(e1.earliest, e2.earliest);
      StripPrefix(RenderMiddle, l1, l2);
      StripSuffix(NameOrNull(e1.latest), NameOrNull(e2.latest), "}");
      NameOrNullInjective(e1.latest, e2.latest);
    }
  }

  /** A message naming both markers determines both markers. */
  lemma {:induction false} MessageIdentifiesPair(e1: IncoherentMarkers, e2: IncoherentMarkers)
    requires e1.earliest.Some? && e1.latest.Some?
    requires e2.earliest.Some? && e2.latest.Some?
    ensures Message(e1) == Message(e2) <==> e1 == e2
  {
    if Message(e1) == Message(e2) {
      var l1, l2 := Name(e1.latest.value), Name(e2.latest.value);
      var r1, r2 := Name(e1.earliest.value), Name(e2.earliest.value);
      StripPrefix(MessageHead, l1 + (MessageMiddle + r1), l2 + (MessageMiddle + r2));
      NamesFree(e1.latest);
      NamesFree(e2.latest);
      SplitAtSeparator(l1, MessageMiddle + r1, l2, MessageMiddle + r2, ' ');
      NameInjective(e1.latest.value, e2.latest.value);
      StripPrefix(MessageMiddle, r1, r2);
      NameInjective(e1.earliest.value, e2.earliest.value);
    }
  }
}
