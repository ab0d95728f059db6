/**
 * The unsigned-integer conversions the tool formats numbers with ("%u",
 * "%X" and "%04u"), together with the reading of a digit string that they
 * are proved against.
 */
module Format {

  /** The character of digit `d`: '0' to '9', then upper-case 'A' to 'F' as "%X" prints them. */
  function DigitChar(d: nat): char
    requires d < 16
  {
    if d < 10 then ('0' as int + d) as char else ('A' as int + d - 10) as char
  }

  /** The value of a digit character in `base`, or -1 when it is not one. */
  function DigitValue(c: char, base: nat): int
  {
    if '0' <= c <= '9' && (c as int - '0' as int) < base then c as int - '0' as int
    else if 'A' <= c <= 'F' && (c as int - 'A' as int + 10) < base then c as int - 'A' as int + 10
    else -1
  }

  lemma DigitCharValue(d: nat, base: nat)
    requires (base == 10 || base == 16) && d < base
    ensures DigitValue(DigitChar(d), base) == d
  {
  }

  /** Every character of `s` is a digit of `base`. */
  predicate IsDigits(s: string, base: nat)
  {
    forall i :: 0 <= i < |s| ==> DigitValue(s[i], base) >= 0
  }

  /** The number a digit string stands for, most significant digit first. */
  function FromDigits(s: string, base: nat): int
  {
    if s == [] then 0
    else FromDigits(s[..|s| - 1], base) * base + DigitValue(s[|s| - 1], base)
  }

  /** `n` in `base` without leading zeros, as "%u" (base 10) and "%X" (base 16) print it. */
  function ToDigits(n: nat, base: nat): (s: string)
    requires base == 10 || base == 16
    ensures |s| >= 1
    ensures n == 0 ==> s == "0"
    ensures n > 0 ==> s[0] != '0'
    decreases n
  {
    if n < base then [DigitChar(n)]
    else ToDigits(n / base, base) + [DigitChar(n % base)]
  }

  /** Appending a digit multiplies by the base and adds the digit. */
  lemma FromDigitsSnoc(s: string, d: nat, base: nat)
    requires (base == 10 || base == 16) && d < base
    ensures FromDigits(s + [DigitChar(d)], base) == FromDigits(s, base) * base + d
  {
    DigitCharValue(d, base);
    var t := s + [DigitChar(d)];
    assert t[..|t| - 1] == s;
  }

  /** Reading the printed digits gives the number back. */
  lemma {:induction false} ToDigitsRoundTrip(n: nat, base: nat)
    requires base == 10 || base == 16
    ensures FromDigits(ToDigits(n, base), base) == n
    decreases n
  {
    if n < base {
      FromDigitsSnoc([], n, base);
      assert [] + [DigitChar(n)] == ToDigits(n, base);
    } else {
      var q, d := n / base, n % base;
      ToDigitsRoundTrip(q, base);
      FromDigitsSnoc(ToDigits(q, base), d, base);
    }
  }

  /** Every printed character is a digit of the base. */
  lemma {:induction false} ToDigitsAreDigits(n: nat, base: nat)
    requires base == 10 || base == 16
    ensures IsDigits(ToDigits(n, base), base)
    decreases n
  {
    DigitCharValue(n % base, base);
    if n >= base {
      ToDigitsAreDigits(n / base, base);
      var s := ToDigits(n, base);
      assert s == ToDigits(n / base, base) + [DigitChar(n % base)];
    }
  }

  function Power(base: nat, k: nat): nat
  {
    if k == 0 then 1 else base * Power(base, k - 1)
  }

  /** A number below base^k, k >= 1, prints in at most k digits. */
  lemma {:induction false} ToDigitsLength(n: nat, base: nat, k: nat)
    requires (base == 10 || base == 16) && 1 <= k
    requires n < Power(base, k)
    ensures |ToDigits(n, base)| <= k
    decreases k
  {
    if n >= base {
      assert k > 1;
      ToDigitsLength(n / base, base, k - 1);
    }
  }

  /**
   * "%04u": decimal digits, padded on the left with zeros to at least four
   * characters, and no longer than that unless the number needs it (a text
   * longer than four characters has no leading zero).
   */
  function ZeroPad4(n: nat): (s: string)
    ensures |s| >= 4
    ensures IsDigits(s, 10)
    ensures FromDigits(s, 10) == n
    ensures |s| > 4 ==> s[0] != '0'
  {
    var digits := ToDigits(n, 10);
    ToDigitsRoundTrip(n, 10);
    ToDigitsAreDigits(n, 10);
    var zeros := seq(if |digits| < 4 then 4 - |digits| else 0, _ => '0');
    LeadingZeros(zeros, digits);
    zeros + digits
  }

  /** Leading zeros do not change the number a digit string stands for. */
  lemma {:induction false} LeadingZeros(zeros: string, digits: string)
    requires forall i :: 0 <= i < |zeros| ==> zeros[i] == '0'
    ensures FromDigits(zeros + digits, 10) == FromDigits(digits, 10)
    decreases |digits|
  {
    var s := zeros + digits;
    if digits == [] {
      assert s == zeros;
      AllZeros(zeros);
    } else {
      var init := digits[..|digits| - 1];
      LeadingZeros(zeros, init);
      assert s[..|s| - 1] == zeros + init;
    }
  }

  lemma {:induction false} AllZeros(zeros: string)
    requires forall i :: 0 <= i < |zeros| ==> zeros[i] == '0'
    ensures FromDigits(zeros, 10) == 0
    decreases |zeros|
  {
    if zeros != [] {
      AllZeros(zeros[..|zeros| - 1]);
    }
  }
}
