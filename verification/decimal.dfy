/**
 * Decimal rendering of non-negative integers, as `String.format`'s `%d` and
 * `SimpleDateFormat`'s numeric fields produce it, and the matching parser
 * used to state round trips.
 */
module Decimal {

  /** The character of a single decimal digit. */
  function DigitChar(d: nat): (c: char)
    requires d < 10
    ensures '0' <= c <= '9'
    ensures c as int - '0' as int == d
  {
    ('0' as int + d) as char
  }

  predicate IsDigit(c: char)
  {
    '0' <= c <= '9'
  }

  /** The digits of `n` in base ten, most significant first, without leading zeros. */
  function Digits(n: nat): (s: seq<char>)
    ensures |s| >= 1
    ensures forall i :: 0 <= i < |s| ==> IsDigit(s[i])
  {
    if n < 10 then [DigitChar(n)] else Digits(n / 10) + [DigitChar(n % 10)]
  }

  /**
   * The value of a string of decimal digits; the empty string reads as 0.
   * This is not a parser of user input: a character that is not a digit
   * silently counts as 0. It serves only to state that rendered numbers
   * read back as themselves, where every character is a digit.
   */
  function ParseDigits(s: seq<char>): nat
  {
    if |s| == 0 then 0
    else 10 * ParseDigits(s[..|s| - 1]) + (if IsDigit(s[|s| - 1]) then s[|s| - 1] as int - '0' as int else 0)
  }

  /** Reading back what `Digits` writes gives the number again. */
  lemma {:induction false} ParseDigitsInverse(n: nat)
    ensures ParseDigits(Digits(n)) == n
  {
    var s := Digits(n);
    if n >= 10 {
      ParseDigitsInverse(n / 10);
      assert s[..|s| - 1] == Digits(n / 10);
    }
  }

  /** Only zero is written with a leading zero, and then as the single digit "0". */
  lemma {:induction false} NoLeadingZero(n: nat)
    ensures Digits(n)[0] == '0' <==> n == 0
  {
    if n >= 10 {
      NoLeadingZero(n / 10);
    }
  }

  /** The digit count: one digit below ten, at most two below a hundred, and so on up to four. */
  lemma {:induction false} DigitCount(n: nat)
    ensures n < 10 <==> |Digits(n)| == 1
    ensures n < 100 <==> |Digits(n)| <= 2
    ensures n < 1000 <==> |Digits(n)| <= 3
    ensures n < 10000 <==> |Digits(n)| <= 4
  {
    if n >= 10 {
      DigitCount(n / 10);
    }
  }

  function Zeros(k: nat): (s: seq<char>)
    ensures |s| == k
    ensures forall i :: 0 <= i < k ==> s[i] == '0'
  {
    if k == 0 then [] else Zeros(k - 1) + ['0']
  }

  /** Leading zeros do not change the value read back. */
  lemma {:induction false} ParseZerosPrefix(k: nat, s: seq<char>)
    ensures ParseDigits(Zeros(k) + s) == ParseDigits(s)
    decreases |s|, k
  {
    if |s| == 0 {
      assert Zeros(k) + s == Zeros(k);
      if k > 0 {
        assert Zeros(k)[..k - 1] == Zeros(k - 1);
        ParseZerosPrefix(k - 1, []);
        assert Zeros(k - 1) + [] == Zeros(k - 1);
      }
    } else {
      var t := Zeros(k) + s;
      assert t[..|t| - 1] == Zeros(k) + s[..|s| - 1];
      ParseZerosPrefix(k, s[..|s| - 1]);
    }
  }

  /**
   * `n` written with at least `width` digits, padded with leading zeros: exactly
   * `width` characters when the number fits, the plain digits otherwise; the
   * text holds only digits and reads back as the number.
   */
  function ZeroPad(n: nat, width: nat): (s: seq<char>)
    ensures |s| == if |Digits(n)| >= width then |Digits(n)| else width
    ensures forall i :: 0 <= i < |s| ==> IsDigit(s[i])
    ensures ParseDigits(s) == n
  {
    var digits := Digits(n);
    ParseDigitsInverse(n);
    if |digits| >= width then digits
    else
      ParseZerosPrefix(width - |digits|, digits);
      Zeros(width - |digits|) + digits
  }

  /** Padded renderings of different numbers differ. */
  lemma ZeroPadInjective(a: nat, b: nat, width: nat)
    ensures ZeroPad(a, width) == ZeroPad(b, width) <==> a == b
  {
  }
}
