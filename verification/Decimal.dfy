/** Unsigned decimal numerals: strconv.FormatUint, strconv.ParseUint with base 10, and zero padding. */
module Decimal {
  import opened Wrappers

  predicate IsDigit(c: char) {
    '0' <= c <= '9'
  }

  predicate AllDigits(s: string) {
    forall i :: 0 <= i < |s| ==> IsDigit(s[i])
  }

  function DigitValue(c: char): nat
    requires IsDigit(c)
  {
    c as int - '0' as int
  }

  function DigitOf(d: nat): (c: char)
    requires d < 10
    ensures IsDigit(c) && DigitValue(c) == d
  {
    (d + '0' as int) as char
  }

  /** The number that a string of digits denotes. */
  function ValueOf(s: string): nat
    requires AllDigits(s)
  {
    if s == "" then 0 else ValueOf(s[..|s| - 1]) * 10 + DigitValue(s[|s| - 1])
  }

  function Format(n: nat): (s: string)
    ensures s != "" && AllDigits(s)
    ensures |s| > 1 ==> s[0] != '0'
    ensures s == "0" <==> n == 0
  {
    if n < 10 then [DigitOf(n)] else Format(n / 10) + [DigitOf(n % 10)]
  }

  /** ParseUint(s, 10, bits) with 2^bits - 1 == max; both of its errors are None. */
  function ParseUint(s: string, max: nat): (r: Option<nat>)
    ensures r.Some? ==> r.value <= max
  {
    if s != "" && AllDigits(s) && ValueOf(s) <= max then Some(ValueOf(s)) else None
  }

  function Zeros(n: nat): (s: string)
    ensures |s| == n && forall i :: 0 <= i < n ==> s[i] == '0'
  {
    if n == 0 then "" else "0" + Zeros(n - 1)
  }

  /** Sprintf("%0*d", width, n). */
  function Pad(n: nat, width: nat): (s: string)
    ensures AllDigits(s) && s != ""
    ensures |s| == if width > |Format(n)| then width else |Format(n)|
  {
    Zeros(if width > |Format(n)| then width - |Format(n)| else 0) + Format(n)
  }

  lemma {:induction false} ValueOfFormat(n: nat)
    ensures ValueOf(Format(n)) == n
  {
    if n < 10 {
      assert Format(n)[..0] == "";
    } else {
      ValueOfFormat(n / 10);
      assert Format(n)[..|Format(n)| - 1] == Format(n / 10);
    }
  }

  /** Printing and reading back. */
  lemma ParseOfFormat(n: nat, max: nat)
    ensures ParseUint(Format(n), max) == if n <= max then Some(n) else None
  {
    ValueOfFormat(n);
  }

  lemma {:induction false} LeadingZero(s: string)
    requires AllDigits(s)
    ensures ValueOf("0" + s) == ValueOf(s)
  {
    if s == "" {
      assert ("0" + s)[..0] == "";
    } else {
      LeadingZero(s[..|s| - 1]);
      assert ("0" + s)[..|s|] == "0" + s[..|s| - 1];
    }
  }

  lemma {:induction false} LeadingZeros(n: nat, s: string)
    requires AllDigits(s)
    ensures ValueOf(Zeros(n) + s) == ValueOf(s)
  {
    if n == 0 {
      assert Zeros(0) + s == s;
    } else {
      LeadingZeros(n - 1, s);
      LeadingZero(Zeros(n - 1) + s);
      assert Zeros(n) + s == "0" + (Zeros(n - 1) + s);
    }
  }

  /** Padding does not change the number, so padded numerals of different numbers differ. */
  lemma ValueOfPad(n: nat, width: nat)
    ensures ValueOf(Pad(n, width)) == n
  {
    ValueOfFormat(n);
    LeadingZeros(if width > |Format(n)| then width - |Format(n)| else 0, Format(n));
  }

  /** One more digit on the right. */
  lemma FormatOfNextDigit(n: nat, d: nat)
    requires n > 0 && d < 10
    ensures Format(n * 10 + d) == Format(n) + [('0' as int + d) as char]
    ensures Format(d) == [('0' as int + d) as char]
  {
    assert (n * 10 + d) / 10 == n && (n * 10 + d) % 10 == d;
  }
}
