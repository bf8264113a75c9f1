/**
 * A time of day as recorded by the user, or a duration computed from such
 * times. The constructor stores both fields unchanged: hours of 24 or more,
 * and negative fields, are representable (week totals rely on the former).
 */
module Times {

  datatype Time = Time(hour: int, minute: int)

  /** Value equality: two times are equal exactly when both fields are. */
  function Equals(a: Time, b: Time): (r: bool)
    ensures r <==> a.hour == b.hour && a.minute == b.minute
  {
    a == b
  }

  /**
   * The Java hash code `31 * hour + minute` (Integer.hashCode is the
   * identity). Distinct times can collide, but a time whose minute is below
   * 31 can be read back from its hash.
   */
  function HashCode(t: Time): (h: int)
    ensures 0 <= t.minute < 31 ==> h / 31 == t.hour && h % 31 == t.minute
  {
    31 * t.hour + t.minute
  }

  /** Lexicographic "strictly earlier": by hour first, then by minute. */
  predicate Before(a: Time, b: Time)
  {
    a.hour < b.hour || (a.hour == b.hour && a.minute < b.minute)
  }

  /**
   * The three-way comparison of the source: 0 on equal values, otherwise the
   * sign of the hour difference, or of the minute difference on equal hours.
   */
  function CompareTo(a: Time, b: Time): (r: int)
    ensures r == -1 || r == 0 || r == 1
    ensures r == 0 <==> a == b
    ensures r < 0 <==> Before(a, b)
    ensures r > 0 <==> Before(b, a)
  {
    if Equals(a, b) then 0
    else if a.hour > b.hour then 1
    else if a.hour < b.hour then -1
    else if a.minute > b.minute then 1
    else -1
  }

  /** Equal times have equal hash codes, as `hashCode` must agree with `equals`. */
  lemma EqualTimesHashEqually(a: Time, b: Time)
    requires Equals(a, b)
    ensures HashCode(a) == HashCode(b)
  {
  }

  /** The hash is not injective on clock times: 00:31 and 01:00 collide. */
  lemma HashCollision()
    ensures HashCode(Time(0, 31)) == HashCode(Time(1, 0)) && Time(0, 31) != Time(1, 0)
  {
  }

  /** Swapping the operands flips the sign of the comparison. */
  lemma CompareAntisymmetric(a: Time, b: Time)
    ensures CompareTo(a, b) == -CompareTo(b, a)
  {
  }

  /** "Not after" is transitive, and so is "strictly before". */
  lemma CompareTransitive(a: Time, b: Time, c: Time)
    ensures CompareTo(a, b) <= 0 && CompareTo(b, c) <= 0 ==> CompareTo(a, c) <= 0
    ensures CompareTo(a, b) < 0 && CompareTo(b, c) <= 0 ==> CompareTo(a, c) < 0
  {
  }

  /** Any two times are comparable. */
  lemma CompareTotal(a: Time, b: Time)
    ensures CompareTo(a, b) <= 0 || CompareTo(b, a) <= 0
  {
  }
}
