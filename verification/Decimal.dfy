// Decimal numerals: what printf("%.*f") prints and strtod reads, on exact numbers.
module Decimal {
  import opened Arithmetic

  predicate IsDigit(c: char) { '0' <= c <= '9' }

  predicate AllDigits(s: string) { forall i :: 0 <= i < |s| ==> IsDigit(s[i]) }

  function Pow10(n: nat): (p: nat)
    ensures p > 0
  {
    if n == 0 then 1 else 10 * Pow10(n - 1)
  }

  function DigitChar(k: nat): (c: char)
    requires k < 10
    ensures IsDigit(c)
  {
    ['0', '1', '2', '3', '4', '5', '6', '7', '8', '9'][k]
  }

  function DigitValue(c: char): (k: nat)
    requires IsDigit(c)
    ensures k < 10
  {
    c as int - '0' as int
  }

  // The number a digit string stands for.
  function Whole(s: string): nat
    requires AllDigits(s)
  {
    if s == "" then 0 else Whole(s[..|s| - 1]) * 10 + DigitValue(s[|s| - 1])
  }

  // The last d digits of n.
  function Padded(n: nat, d: nat): (s: string)
    ensures |s| == d && AllDigits(s)
  {
    if d == 0 then "" else Padded(n / 10, d - 1) + [DigitChar(n % 10)]
  }

  // n without leading zeros.
  function Numeral(n: nat): (s: string)
    ensures s != "" && AllDigits(s)
  {
    if n < 10 then [DigitChar(n)] else Numeral(n / 10) + [DigitChar(n % 10)]
  }

  // n / 10^d with d decimals.
  function Fixed(n: nat, d: nat): string {
    Division(n, Pow10(d));
    Numeral(n / Pow10(d)) + "." + Padded(n, d)
  }

  lemma DigitRoundTrip(k: nat)
    requires k < 10
    ensures DigitValue(DigitChar(k)) == k
  {
  }

  lemma WholeAppend(s: string, c: char)
    requires AllDigits(s) && IsDigit(c)
    ensures AllDigits(s + [c]) && Whole(s + [c]) == Whole(s) * 10 + DigitValue(c)
  {
  }

  lemma {:induction false} WholeNumeral(n: nat)
    ensures Whole(Numeral(n)) == n
  {
    DigitRoundTrip(n % 10);
    if n < 10 {
      WholeAppend("", DigitChar(n));
      assert "" + [DigitChar(n)] == [DigitChar(n)];
    } else {
      WholeNumeral(n / 10);
      WholeAppend(Numeral(n / 10), DigitChar(n % 10));
    }
  }

  lemma DivStep(n: nat, p: nat)
    requires p > 0
    ensures n / (10 * p) == (n / 10) / p
    ensures n % (10 * p) == (n / 10) % p * 10 + n % 10
  {
    Division(n / 10, p);
    var q, r := (n / 10) / p, (n / 10) % p;
    assert n == q * (10 * p) + (r * 10 + n % 10);
    Quotient(n, q, r * 10 + n % 10, 10 * p);
  }

  lemma {:induction false} WholePadded(n: nat, d: nat)
    ensures Whole(Padded(n, d)) == n % Pow10(d)
  {
    if d > 0 {
      WholePadded(n / 10, d - 1);
      DigitRoundTrip(n % 10);
      WholeAppend(Padded(n / 10, d - 1), DigitChar(n % 10));
      DivStep(n, Pow10(d - 1));
    }
  }

  lemma {:induction false} WholeZeros(s: string, k: nat)
    requires k <= |s| && AllDigits(s) && forall i :: k <= i < |s| ==> s[i] == '0'
    ensures AllDigits(s[..k]) && Whole(s) == Whole(s[..k]) * Pow10(|s| - k)
  {
    if k == |s| {
      assert s[..k] == s;
    } else {
      var t := s[..|s| - 1];
      WholeZeros(t, k);
      assert t[..k] == s[..k] && s == t + ['0'];
      WholeAppend(t, '0');
    }
  }

  // ---- Rounding ----

  // To the nearest whole number, ties to even, as printf does.
  function RoundEven(y: real): (n: nat)
    requires y >= 0.0
    ensures -0.5 <= n as real - y <= 0.5
  {
    var f := y.Floor;
    if y - f as real < 0.5 then f
    else if y - f as real > 0.5 || f % 2 == 1 then f + 1
    else f
  }

  function Abs(x: real): real { if x < 0.0 then -x else x }

  lemma Product(x: real, y: real)
    requires x >= 0.0 && y >= 0.0
    ensures x * y >= 0.0
  {
  }

  // The size of x in steps of 10^-d.
  function Scaled(d: nat, x: real): (y: real)
    ensures y >= 0.0
  {
    Product(Abs(x), Pow10(d) as real);
    Abs(x) * Pow10(d) as real
  }

  function Sign(negative: bool): string { if negative then "-" else "" }

  // printf("%.*f", d, x)
  function Printf(d: nat, x: real): string { Sign(x < 0.0) + Fixed(RoundEven(Scaled(d, x)), d) }

  // ---- Reading ----

  function DigitsEnd(s: string, i: nat): (j: nat)
    requires i <= |s|
    ensures i <= j <= |s| && AllDigits(s[i..j]) && (j < |s| ==> !IsDigit(s[j]))
    decreases |s| - i
  {
    if i < |s| && IsDigit(s[i]) then
      var j := DigitsEnd(s, i + 1);
      assert forall k :: i < k < j ==> s[k] == s[i + 1..j][k - i - 1];
      j
    else i
  }

  lemma {:induction false} DigitsEndIs(s: string, i: nat, j: nat)
    requires i <= j <= |s| && (forall k :: i <= k < j ==> IsDigit(s[k])) && (j < |s| ==> !IsDigit(s[j]))
    ensures DigitsEnd(s, i) == j
    decreases j - i
  {
  }

  predicate IsSign(c: char) { c == '-' || c == '+' }

  lemma PointIsNoDigit()
    ensures !IsDigit('.')
  {
  }

  // Where s[i..] goes on behind an optional sign.
  function SignEnd(s: string, i: nat): (j: nat)
    requires i <= |s|
    ensures i <= j <= |s|
  {
    if i < |s| && IsSign(s[i]) then i + 1 else i
  }

  // Where the digits and the point of s[i..] end.
  function MantissaEnd(s: string, i: nat): (b: nat)
    requires i <= |s|
    ensures i <= b <= |s|
  {
    var a := DigitsEnd(s, i);
    if a < |s| && s[a] == '.' then DigitsEnd(s, a + 1) else a
  }

  predicate SawDigit(s: string, i: nat)
    requires i <= |s|
  {
    DigitsEnd(s, i) > i || MantissaEnd(s, i) > DigitsEnd(s, i) + 1
  }

  // The digits of s[i..] with an optional point: digits, and digits behind the point.
  function Unsigned(s: string, i: nat): real
    requires i <= |s|
  {
    var a := DigitsEnd(s, i);
    var whole := Whole(s[i..a]) as real;
    if a < |s| && s[a] == '.' then
      var b := DigitsEnd(s, a + 1);
      whole + Whole(s[a + 1..b]) as real / Pow10(b - a - 1) as real
    else whole
  }

  // wxString::ToDouble on digits, points and signs: the number the whole string is; otherwise the value
  // stays what it was, which is 0.
  function ToDouble(s: string): real {
    var i := SignEnd(s, 0);
    if SawDigit(s, i) && MantissaEnd(s, i) == |s| then
      if s[0] == '-' then -Unsigned(s, i) else Unsigned(s, i)
    else 0.0
  }
}
