// Which words of an s-expression are numbers: isNumber in common/dsnlexer.cpp.
module DsnNumber {
  import opened Decimal

  // Digits, or digits around a point: at least one digit, wherever the point is.
  predicate Mantissa(m: string) {
    || (m != "" && AllDigits(m))
    || exists k :: 0 <= k < |m| && m[k] == '.' && |m| > 1 && AllDigits(m[..k]) && AllDigits(m[k + 1..])
  }

  predicate Exponent(e: string) {
    || e == ""
    || ((e[0] == 'E' || e[0] == 'e') && SignEnd(e, 1) < |e| && AllDigits(e[SignEnd(e, 1)..]))
  }

  predicate NumberSplits(s: string, i: nat, k: nat) { i <= k <= |s| && Mantissa(s[i..k]) && Exponent(s[k..]) }

  // An optional sign, a mantissa and an optional exponent.
  predicate IsNumber(s: string) { exists k :: SignEnd(s, 0) <= k <= |s| && NumberSplits(s, SignEnd(s, 0), k) }

  // The longest mantissa is one exactly when it has a digit.
  lemma LongestMantissa(s: string, i: nat)
    requires i <= |s|
    ensures Mantissa(s[i..MantissaEnd(s, i)]) <==> SawDigit(s, i)
  {
    var a, b := DigitsEnd(s, i), MantissaEnd(s, i);
    var m := s[i..b];
    if b > a {
      var k := a - i;
      assert m[k] == '.' && m[..k] == s[i..a] && m[k + 1..] == s[a + 1..b];
      assert !AllDigits(m) by { assert !IsDigit(m[k]); }
      if |m| > 1 { assert Mantissa(m); }
    }
  }

  // A mantissa that no digit or point follows is the longest.
  lemma MantissaIsLongest(s: string, i: nat, k: nat)
    requires i <= k <= |s| && Mantissa(s[i..k])
    requires k < |s| ==> !IsDigit(s[k]) && s[k] != '.'
    ensures MantissaEnd(s, i) == k
  {
    hide AllDigits, IsDigit, DigitsEnd;
    PointIsNoDigit();
    var m := s[i..k];
    if AllDigits(m) {
      DigitsUpTo(s, i, k);
    } else {
      var p :| 0 <= p < |m| && m[p] == '.' && AllDigits(m[..p]) && AllDigits(m[p + 1..]);
      var a := i + p;
      assert m[..p] == s[i..a] && m[p + 1..] == s[a + 1..k];
      DigitsUpTo(s, i, a);
      DigitsUpTo(s, a + 1, k);
    }
  }

  lemma DigitsUpTo(s: string, i: nat, k: nat)
    requires i <= k <= |s| && AllDigits(s[i..k]) && (k < |s| ==> !IsDigit(s[k]))
    ensures DigitsEnd(s, i) == k
  {
    hide DigitsEnd, IsDigit;
    forall j | i <= j < k ensures IsDigit(s[j]) { assert s[j] == s[i..k][j - i]; }
    DigitsEndIs(s, i, k);
  }

  // Reading the longest mantissa loses no number.
  lemma NumberShape(s: string)
    ensures var i := SignEnd(s, 0); IsNumber(s) <==> SawDigit(s, i) && Exponent(s[MantissaEnd(s, i)..])
  {
    hide Mantissa, MantissaEnd, SawDigit;
    var i := SignEnd(s, 0);
    LongestMantissa(s, i);
    if IsNumber(s) {
      var k :| i <= k <= |s| && NumberSplits(s, i, k);
      assert k < |s| ==> s[k] == s[k..][0];
      MantissaIsLongest(s, i, k);
    }
    if SawDigit(s, i) && Exponent(s[MantissaEnd(s, i)..]) { assert NumberSplits(s, i, MantissaEnd(s, i)); }
  }

  lemma ExponentShape(s: string, b: nat)
    requires b <= |s|
    ensures b == |s| ==> Exponent(s[b..])
    ensures b < |s| ==> (Exponent(s[b..]) <==>
      (s[b] == 'E' || s[b] == 'e') && SignEnd(s, b + 1) < |s| && DigitsEnd(s, SignEnd(s, b + 1)) == |s|)
  {
    var e := s[b..];
    if b < |s| {
      var c := SignEnd(s, b + 1);
      assert SignEnd(e, 1) == c - b && e[c - b..] == s[c..];
      if AllDigits(s[c..]) {
        forall j | c <= j < |s| ensures IsDigit(s[j]) { assert s[j] == s[c..][j - c]; }
        DigitsEndIs(s, c, |s|);
      }
      if DigitsEnd(s, c) == |s| { assert s[c..|s|] == s[c..]; }
    }
  }

  // A word that starts with a letter is no number.
  lemma LetterFirst(s: string)
    requires s != "" && 'a' <= s[0] <= 'z'
    ensures !IsNumber(s)
  {
  }

  lemma MantissaScanned(s: string, i: nat, a: nat, b: nat)
    requires i <= |s| && a == DigitsEnd(s, i)
    requires b == if a < |s| && s[a] == '.' then DigitsEnd(s, a + 1) else a
    ensures MantissaEnd(s, i) == b && (SawDigit(s, i) <==> a > i || b > a + 1)
  {
  }

  method ScanDigits(s: string, start: nat) returns (cp: nat, sawNumber: bool)
    requires start <= |s|
    ensures cp == DigitsEnd(s, start) && (sawNumber <==> cp > start)
  {
    cp, sawNumber := start, false;
    while cp < |s| && IsDigit(s[cp])
      invariant start <= cp <= |s| && DigitsEnd(s, cp) == DigitsEnd(s, start) && (sawNumber <==> cp > start)
    {
      cp := cp + 1;
      sawNumber := true;
    }
  }

  method ScanNumber(s: string) returns (number: bool)
    ensures number <==> IsNumber(s)
  {
    hide IsNumber, Exponent, AllDigits, IsDigit, DigitsEnd, MantissaEnd, SawDigit;
    NumberShape(s);
    var cp, sawNumber, more := 0, false, false;
    if cp < |s| && IsSign(s[cp]) {
      cp := cp + 1;
    }
    ghost var i := cp;
    cp, sawNumber := ScanDigits(s, cp);
    ghost var a := cp;
    if cp < |s| && s[cp] == '.' {
      cp, more := ScanDigits(s, cp + 1);
      sawNumber := sawNumber || more;
    }
    ghost var b := cp;
    MantissaScanned(s, i, a, b);
    ExponentShape(s, b);
    if sawNumber {
      if cp < |s| && (s[cp] == 'E' || s[cp] == 'e') {
        cp := cp + 1;
        if cp < |s| && IsSign(s[cp]) {
          cp := cp + 1;
        }
        cp, sawNumber := ScanDigits(s, cp);
      }
    }
    number := sawNumber && cp == |s|;
  }

  // ---- The pattern in the comment ----

  // Digits if any, a point if any, and at least one digit.
  predicate CommentMantissa(m: string) {
    || (m != "" && AllDigits(m))
    || exists k :: 0 <= k < |m| - 1 && m[k] == '.' && AllDigits(m[..k]) && AllDigits(m[k + 1..])
  }

  predicate CommentSplits(s: string, i: nat, k: nat) { i <= k <= |s| && CommentMantissa(s[i..k]) && Exponent(s[k..]) }

  predicate CommentNumber(s: string) {
    exists k :: SignEnd(s, 0) <= k <= |s| && CommentSplits(s, SignEnd(s, 0), k)
  }

  // The point is the last character in front of the exponent.
  predicate PointLast(s: string) { MantissaEnd(s, SignEnd(s, 0)) > 0 && s[MantissaEnd(s, SignEnd(s, 0)) - 1] == '.' }

  lemma CommentMantissaIs(m: string)
    ensures CommentMantissa(m) <==> Mantissa(m) && m[|m| - 1] != '.'
  {
    hide IsDigit;
    PointIsNoDigit();
    if CommentMantissa(m) && !AllDigits(m) {
      var k :| 0 <= k < |m| - 1 && m[k] == '.' && AllDigits(m[..k]) && AllDigits(m[k + 1..]);
      assert m[|m| - 1] == m[k + 1..][|m| - k - 2];
    }
  }

  // The code accepts what the comment's pattern does, and besides it the numbers whose point is last.
  lemma CommentExactly(s: string)
    ensures CommentNumber(s) <==> IsNumber(s) && !PointLast(s)
  {
    hide Mantissa, CommentMantissa, MantissaEnd, SawDigit, AllDigits, DigitsEnd, IsDigit;
    var i := SignEnd(s, 0);
    var b := MantissaEnd(s, i);
    NumberShape(s);
    LongestMantissa(s, i);
    CommentMantissaIs(s[i..b]);
    if CommentNumber(s) {
      var k :| i <= k <= |s| && CommentSplits(s, i, k);
      CommentMantissaIs(s[i..k]);
      assert NumberSplits(s, i, k);
      EndsAtExponent(s, i, k);
      assert s[i..k][k - i - 1] == s[k - 1];
    }
    if IsNumber(s) {
      assert NumberSplits(s, i, b);
      EndsAtExponent(s, i, b);
      assert s[i..b][b - i - 1] == s[b - 1];
      assert !PointLast(s) ==> CommentSplits(s, i, b);
    }
  }

  lemma EndsAtExponent(s: string, i: nat, k: nat)
    requires NumberSplits(s, i, k)
    ensures MantissaEnd(s, i) == k && i < k
  {
    hide MantissaEnd;
    assert k < |s| ==> s[k] == s[k..][0];
    MantissaIsLongest(s, i, k);
  }

  lemma OnePoint()
    ensures IsNumber("1.") && !CommentNumber("1.")
  {
    var s := "1.";
    assert s[0..2][..1] == "1" && s[0..2][2..] == "" && s[2..] == "";
    assert Mantissa(s[0..2]);
    assert NumberSplits(s, 0, 2) && SignEnd(s, 0) == 0;
    EndsAtExponent(s, 0, 2);
    CommentExactly(s);
  }
}
