/** Decimal notation of natural numbers: what `str(n)` and the format
    specification `02d` produce, and the value a digit string denotes. */
module Decimal {

  predicate IsDigit(c: char) {
    '0' <= c <= '9'
  }

  predicate AllDigits(s: string) {
    forall i :: 0 <= i < |s| ==> IsDigit(s[i])
  }

  function DigitChar(d: nat): (c: char)
    requires d < 10
    ensures IsDigit(c) && c as int - '0' as int == d
  {
    ('0' as int + d) as char
  }

  /** The number a string of decimal digits denotes (most significant first). */
  function Value(s: string): nat
    requires AllDigits(s)
  {
    if |s| == 0 then 0 else 10 * Value(s[..|s| - 1]) + (s[|s| - 1] as int - '0' as int)
  }

  /** `str(n)` for a natural number: the shortest decimal notation of `n`. */
  function FromNat(n: nat): (r: string)
    ensures 1 <= |r| && AllDigits(r)
    ensures Value(r) == n
    ensures |r| > 1 ==> r[0] != '0'
  {
    if n < 10 then [DigitChar(n)]
    else
      var prefix := FromNat(n / 10);
      var r := prefix + [DigitChar(n % 10)];
      assert r[..|r| - 1] == prefix;
      r
  }

  function Zeros(k: nat): (r: string)
    ensures |r| == k && AllDigits(r)
  {
    seq(k, _ => '0')
  }

  /** `format(s, "0<width>")` on digits: `s` padded on the left with zeros
      up to `width` characters; never truncated. */
  function PadZeros(s: string, width: nat): (r: string)
    requires AllDigits(s)
    ensures AllDigits(r)
    ensures |r| == if |s| < width then width else |s|
    ensures Value(r) == Value(s)
    ensures r[|r| - |s|..] == s
  {
    if |s| < width then
      LeadingZerosAddNothing(width - |s|, s);
      Zeros(width - |s|) + s
    else s
  }

  /** `f"{n:02d}"`. */
  function TwoDigits(n: nat): (r: string)
    ensures AllDigits(r) && 2 <= |r|
    ensures Value(r) == n
    ensures n < 100 ==> |r| == 2
    ensures n < 10000 ==> |r| <= 4
    ensures |r| > 2 ==> r[0] != '0' && r == FromNat(n)
  {
    NotationWidths(n);
    PadZeros(FromNat(n), 2)
  }

  function Pow10(k: nat): (p: nat)
    ensures p >= 1
  {
    if k == 0 then 1 else 10 * Pow10(k - 1)
  }

  /** A number below 10^k takes at most k digits. */
  lemma {:induction false} ShortNotation(n: nat, k: nat)
    requires 1 <= k && n < Pow10(k)
    ensures |FromNat(n)| <= k
  {
    if n >= 10 {
      assert k > 1;
      ShortNotation(n / 10, k - 1);
    }
  }

  lemma {:induction false} NotationWidths(n: nat)
    ensures n < 100 ==> |FromNat(n)| <= 2
    ensures n < 10000 ==> |FromNat(n)| <= 4
  {
    if n < 10000 { ShortNotation(n, 4); }
    if n < 100 { ShortNotation(n, 2); }
  }

  /** Zeros in front of a digit string do not change its value. */
  lemma {:induction false} LeadingZerosAddNothing(k: nat, s: string)
    requires AllDigits(s)
    ensures Value(Zeros(k) + s) == Value(s)
  {
    var z := Zeros(k) + s;
    if |s| == 0 {
      assert z == Zeros(k);
      ZerosAreZero(k);
    } else {
      assert z[..|z| - 1] == Zeros(k) + s[..|s| - 1];
      LeadingZerosAddNothing(k, s[..|s| - 1]);
    }
  }

  lemma {:induction false} ZerosAreZero(k: nat)
    ensures Value(Zeros(k)) == 0
  {
    if k > 0 {
      assert Zeros(k)[..k - 1] == Zeros(k - 1);
      ZerosAreZero(k - 1);
    }
  }
}
