/**
 * `TimeUtils.formatTime`: a time rendered as `%02d:%02d`, each field a
 * decimal integer of at least two characters, zero-padded after the sign.
 */
module TimeFormat {
  import opened Wrappers
  import opened Times
  import opened Decimal
  import Calculator

  /**
   * One `%02d` field: a non-negative value padded with zeros to two digits; a
   * negative value is its sign followed by the digits of its magnitude, which
   * already fills the width of two.
   */
  function Field(n: int): (s: seq<char>)
    ensures |s| >= 2
    ensures ':' !in s
  {
    var digits := if n >= 0 then ZeroPad(n, 2) else ZeroPad(-n, 1);
    assert forall i :: 0 <= i < |digits| ==> digits[i] != ':';
    if n >= 0 then digits else "-" + digits
  }

  /**
   * `formatTime(time)`: the two fields joined by a colon. The display loses
   * nothing: it reads back as the same time, negative fields included.
   */
  function FormatTime(t: Time): (s: seq<char>)
    ensures |s| >= 5
    ensures ParseTime(s) == Some(t)
  {
    FieldsReadBack(t.hour, t.minute);
    Field(t.hour) + ":" + Field(t.minute)
  }

  /** Reads back one field: an optional minus sign followed by digits. */
  function ParseField(s: seq<char>): int
  {
    if |s| > 0 && s[0] == '-' then 0 - ParseDigits(s[1..]) else ParseDigits(s)
  }

  /** Index of the first ':' in `s`, or `|s|` when there is none. */
  function ColonIndex(s: seq<char>): (k: nat)
    ensures k <= |s|
    ensures k < |s| ==> s[k] == ':'
    ensures forall i :: 0 <= i < k ==> s[i] != ':'
  {
    if |s| == 0 then 0 else if s[0] == ':' then 0 else 1 + ColonIndex(s[1..])
  }

  /** Reads back a rendered time: the fields before and after the first ':'. */
  function ParseTime(s: seq<char>): Option<Time>
  {
    var k := ColonIndex(s);
    if k == |s| then None else Some(Time(ParseField(s[..k]), ParseField(s[k + 1..])))
  }

  lemma ParseFieldInverse(n: int)
    ensures ParseField(Field(n)) == n
  {
    if n < 0 {
      assert Field(n)[1..] == ZeroPad(-n, 1);
      assert Field(n)[0] == '-';
    }
  }

  /** The colon that `formatTime` writes is the first one in the text. */
  lemma {:induction false} ColonAfterField(a: seq<char>, b: seq<char>)
    requires ':' !in a
    ensures ColonIndex(a + ":" + b) == |a|
  {
    if |a| > 0 {
      assert (a + ":" + b)[1..] == a[1..] + ":" + b;
      ColonAfterField(a[1..], b);
    }
  }

  /** Two fields joined by a colon read back as the pair of values. */
  lemma FieldsReadBack(hour: int, minute: int)
    ensures ParseTime(Field(hour) + ":" + Field(minute)) == Some(Time(hour, minute))
  {
    var h, m := Field(hour), Field(minute);
    var s := h + ":" + m;
    ColonAfterField(h, m);
    assert s[..|h|] == h;
    assert s[|h| + 1..] == m;
    ParseFieldInverse(hour);
    ParseFieldInverse(minute);
  }

  /** Different times are rendered differently. */
  lemma FormatTimeInjective(a: Time, b: Time)
    ensures FormatTime(a) == FormatTime(b) <==> a == b
  {
  }

  /** A field within 0..99 is its two-digit padding, with a leading zero exactly below ten. */
  lemma ClockField(n: int)
    requires 0 <= n < 100
    ensures Field(n) == ZeroPad(n, 2) && |Field(n)| == 2
    ensures n < 10 <==> Field(n)[0] == '0'
  {
    DigitCount(n);
    NoLeadingZero(n);
  }

  /**
   * Times whose fields lie in 0..99 render as the five characters `hh:mm`;
   * a single-digit field gets exactly one leading zero.
   */
  lemma ClockLayout(t: Time)
    requires 0 <= t.hour < 100 && 0 <= t.minute < 100
    ensures |FormatTime(t)| == 5 && FormatTime(t)[2] == ':'
    ensures FormatTime(t)[..2] == ZeroPad(t.hour, 2) && FormatTime(t)[3..] == ZeroPad(t.minute, 2)
    ensures t.hour < 10 <==> FormatTime(t)[0] == '0'
    ensures t.minute < 10 <==> FormatTime(t)[3] == '0'
  {
    ClockField(t.hour);
    ClockField(t.minute);
    var h, m := Field(t.hour), Field(t.minute);
    var s := FormatTime(t);
    assert s == h + ":" + m;
    assert s[..2] == h && s[3..] == m;
  }

  /** A field of a hundred or more, such as a long week's hours, is printed in full, unpadded. */
  lemma WideFieldUnpadded(n: int)
    requires n >= 100
    ensures Field(n) == Digits(n)
  {
    DigitCount(n);
  }

  /**
   * A negative total under an hour, as a short day yields, has hour 0 and a
   * negative minute field, so it renders as "00:-" followed by the minutes.
   */
  lemma ShortNegativeTotalLayout(m: int)
    requires -60 < m < 0
    ensures FormatTime(Calculator.FromMinutes(m)) == "00" + ":" + "-" + Digits(-m)
  {
    var t := Calculator.FromMinutes(m);
    assert t.hour == 0 && t.minute == m;
    DigitCount(-m);
    assert Field(0) == "00";
    assert Field(m) == "-" + Digits(-m);
    assert FormatTime(t) == Field(0) + ":" + Field(m);
  }
}
