/**
 * Decimal text of integers: the conversion `int(year)` that reads the year
 * typed by the user, and the rendering `f"{year}"` that is handed to
 * `strptime` with the format `%Y-%m-%d`.
 */
module Decimal {
  import opened Wrappers

  predicate IsDigit(c: char)
  {
    '0' <= c <= '9'
  }

  predicate AllDigits(s: string)
  {
    forall i :: 0 <= i < |s| ==> IsDigit(s[i])
  }

  /** The ASCII characters that `int()` skips around a number: tab, line feed, vertical tab, form feed, carriage return, space. */
  predicate IsSpace(c: char)
  {
    var k := c as int;
    9 <= k <= 13 || k == 32
  }

  /** `s` without its leading whitespace. */
  function TrimLeft(s: string): (r: string)
    ensures |r| <= |s| && r == s[|s| - |r|..]
    ensures forall i :: 0 <= i < |s| - |r| ==> IsSpace(s[i])
    ensures r == [] || !IsSpace(r[0])
  {
    if s != [] && IsSpace(s[0]) then TrimLeft(s[1..]) else s
  }

  /** `s` without its trailing whitespace. */
  function TrimRight(s: string): (r: string)
    ensures |r| <= |s| && r == s[..|r|]
    ensures forall i :: |r| <= i < |s| ==> IsSpace(s[i])
    ensures r == [] || !IsSpace(r[|r| - 1])
  {
    if s != [] && IsSpace(s[|s| - 1]) then TrimRight(s[..|s| - 1]) else s
  }

  function Trim(s: string): string
  {
    TrimRight(TrimLeft(s))
  }

  /** The value of a string of decimal digits, most significant first. */
  function DigitsValue(s: string): nat
    requires AllDigits(s)
  {
    if s == [] then 0 else 10 * DigitsValue(s[..|s| - 1]) + (s[|s| - 1] as int - '0' as int)
  }

  /** An integer literal without whitespace: an optional sign, then one or more ASCII digits. */
  predicate IsIntegerLiteral(t: string)
  {
    |t| > 0 && if t[0] == '-' || t[0] == '+' then |t| > 1 && AllDigits(t[1..]) else AllDigits(t)
  }

  /**
   * `int(s)` on the ASCII subset modelled here: surrounding ASCII whitespace,
   * an optional sign, then one or more ASCII digits; None for any other text.
   */
  function ParseInt(s: string): (r: Option<int>)
    ensures r.Some? <==> IsIntegerLiteral(Trim(s))
    ensures r.Some? && r.value < 0 ==> Trim(s)[0] == '-'
    ensures r.Some? && Trim(s)[0] == '+' ==> r.value >= 0
  {
    var t := Trim(s);
    if |t| > 0 && (t[0] == '-' || t[0] == '+') then
      var digits := t[1..];
      if |digits| > 0 && AllDigits(digits) then
        var magnitude: int := DigitsValue(digits);
        Some(if t[0] == '-' then -magnitude else magnitude)
      else
        None
    else if |t| > 0 && AllDigits(t) then
      Some(DigitsValue(t))
    else
      None
  }

  function DigitChar(d: nat): (c: char)
    requires d < 10
    ensures IsDigit(c) && c as int - '0' as int == d
  {
    ('0' as int + d) as char
  }

  /** The shortest decimal rendering of `n`: no leading zeros, one digit for 0. */
  function FormatNat(n: nat): (s: string)
    ensures |s| > 0 && AllDigits(s)
    ensures |s| > 1 ==> s[0] != '0'
  {
    if n < 10 then [DigitChar(n)] else FormatNat(n / 10) + [DigitChar(n % 10)]
  }

  /** `f"{n}"`: a minus sign before the digits of a negative number. */
  function FormatInt(n: int): string
  {
    if n < 0 then "-" + FormatNat(-n) else FormatNat(n)
  }

  /** What `%Y` in `strptime` accepts: exactly four decimal digits. */
  predicate IsFourDigits(s: string)
  {
    |s| == 4 && AllDigits(s)
  }

  function Pow10(k: nat): nat
  {
    if k == 0 then 1 else 10 * Pow10(k - 1)
  }

  /** Reading back the digits of a natural number gives the number. */
  lemma {:induction false} DigitsValueOfFormat(n: nat)
    ensures DigitsValue(FormatNat(n)) == n
  {
    if n >= 10 {
      var s := FormatNat(n);
      assert s[..|s| - 1] == FormatNat(n / 10);
      DigitsValueOfFormat(n / 10);
    }
  }

  /** A rendering without surrounding whitespace is left alone by Trim. */
  lemma TrimNoSpace(s: string)
    requires s != [] && !IsSpace(s[0]) && !IsSpace(s[|s| - 1])
    ensures Trim(s) == s
  {
  }

  /** `int(f"{n}") == n` for every integer n. */
  lemma ParseFormatRoundTrip(n: int)
    ensures ParseInt(FormatInt(n)) == Some(n)
  {
    var s := FormatInt(n);
    var m: nat := if n < 0 then -n else n;
    var digits := FormatNat(m);
    DigitsValueOfFormat(m);
    TrimNoSpace(s);
    if n < 0 {
      assert s[1..] == digits;
    } else {
      assert s == digits;
    }
  }

  /** The rendering of n has at most k digits exactly when n < 10^k. */
  lemma {:induction false} FormatNatLength(n: nat, k: nat)
    requires k >= 1
    ensures |FormatNat(n)| <= k <==> n < Pow10(k)
  {
    if n >= 10 {
      if k == 1 {
        assert |FormatNat(n)| == |FormatNat(n / 10)| + 1;
      } else {
        FormatNatLength(n / 10, k - 1);
      }
    } else {
      PowerAtLeastTen(k);
    }
  }

  lemma {:induction false} PowerAtLeastTen(k: nat)
    requires k >= 1
    ensures Pow10(k) >= 10
  {
    if k > 1 {
      PowerAtLeastTen(k - 1);
    }
  }

  /** `strptime(f"{year}-01-01", "%Y-%m-%d")` can read the year exactly for years 1000 to 9999. */
  lemma FourDigitsIff(n: int)
    ensures IsFourDigits(FormatInt(n)) <==> 1000 <= n <= 9999
  {
    if n >= 0 {
      FormatNatLength(n, 4);
      FormatNatLength(n, 3);
    } else {
      assert !IsDigit(FormatInt(n)[0]);
    }
  }
}
