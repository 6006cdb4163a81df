// A distance printed for a dialog and read back is the same distance.
module UnitsRoundTrip {
  import opened Arithmetic
  import opened Decimal
  import opened Units

  // The decimals shown behind the whole part.
  function Behind(fraction: string): string { if fraction == "" then "" else "." + fraction }

  // ---- Stripping zeros keeps the number ----

  lemma {:induction false} ZerosStopAt(s: string, i: nat, p: nat)
    requires p < i <= |s| && s[p] != '0'
    ensures ZerosBehind(s, i) <= i - 1 - p
  {
    if i > 1 && s[i - 1] == '0' { ZerosStopAt(s, i - 1, p); }
  }

  // Stripped, a number keeps its first k decimals, and the others are zeros.
  lemma StripDecimals(front: string, digits: string) returns (k: nat)
    requires digits != "" && AllDigits(digits)
    ensures k <= |digits| && (forall i :: k <= i < |digits| ==> digits[i] == '0')
    ensures k > 0 ==> digits[k - 1] != '0'
    ensures Stripped(front + "." + digits) == front + Behind(digits[..k])
  {
    var s, p := front + "." + digits, |front|;
    assert s[p] == '.' && s[p + 1..] == digits;
    ZerosStopAt(s, |s|, p);
    ZerosAreZeros(s, |s|);
    var end := |s| - ZerosBehind(s, |s|);
    forall i | end - p - 1 <= i < |digits| ensures digits[i] == '0' {
      assert digits[i] == s[p + 1 + i];
    }
    k := end - p - 1;
    StrippedAt(front, digits, k);
  }

  lemma StrippedAt(front: string, digits: string, k: nat)
    requires k <= |digits| && AllDigits(digits)
    requires var s := front + "." + digits; |s| - ZerosBehind(s, |s|) == |front| + 1 + k
    ensures Stripped(front + "." + digits) == front + Behind(digits[..k])
  {
    hide ZerosBehind;
    var s := front + "." + digits;
    if k == 0 {
      assert s[..|front|] == front + "" && digits[..0] == "";
    } else {
      var end := |front| + 1 + k;
      assert s[end - 1] == digits[k - 1];
      assert s[..end] == front + ("." + digits[..k]);
    }
  }

  // ---- Reading it ----

  function Mixed(whole: string, fraction: string): real
    requires AllDigits(whole) && AllDigits(fraction)
  {
    Whole(whole) as real + Whole(fraction) as real / Pow10(|fraction|) as real
  }

  lemma DigitsThen(s: string, i: nat, digits: string, rest: string)
    requires i <= |s| && s[i..] == digits + rest && AllDigits(digits) && (rest == "" || !IsDigit(rest[0]))
    ensures DigitsEnd(s, i) == i + |digits| <= |s|
    ensures s[i..i + |digits|] == digits && s[i + |digits|..] == rest
  {
    var a := i + |digits|;
    assert s[i..a] == s[i..][..|digits|] == digits;
    assert s[a..] == s[i..][|digits|..] == rest;
    forall k | i <= k < a ensures IsDigit(s[k]) { assert s[k] == digits[k - i]; }
    assert a < |s| ==> s[a] == s[a..][0];
    DigitsEndIs(s, i, a);
  }

  lemma ShownEnds(s: string, i: nat, whole: string, fraction: string)
    requires AllDigits(whole) && AllDigits(fraction) && i <= |s| && s[i..] == whole + Behind(fraction)
    ensures var a := i + |whole|;
      && DigitsEnd(s, i) == a <= |s| == MantissaEnd(s, i) && s[i..a] == whole
      && if fraction == "" then a == |s|
         else a < |s| && s[a] == '.' && DigitsEnd(s, a + 1) == |s| && s[a + 1..] == fraction
  {
    hide AllDigits, DigitsEnd, IsDigit;
    PointIsNoDigit();
    DigitsThen(s, i, whole, Behind(fraction));
    var a := i + |whole|;
    assert |s[a..]| == |Behind(fraction)|;
    if fraction != "" { FractionEnds(s, a, fraction); }
  }

  lemma FractionEnds(s: string, a: nat, fraction: string)
    requires AllDigits(fraction) && a <= |s| && s[a..] == "." + fraction
    ensures a < |s| && s[a] == '.' && DigitsEnd(s, a + 1) == |s| && s[a + 1..] == fraction
  {
  }

  lemma ReadUnsigned(s: string, i: nat, whole: string, fraction: string)
    requires AllDigits(whole) && AllDigits(fraction) && i <= |s| && s[i..] == whole + Behind(fraction)
    ensures Unsigned(s, i) == Mixed(whole, fraction)
    ensures DigitsEnd(s, i) == i + |whole| && MantissaEnd(s, i) == |s|
  {
    hide Pow10, Whole, DigitsEnd, AllDigits, Behind, MantissaEnd;
    ShownEnds(s, i, whole, fraction);
    NoFraction();
    var a := i + |whole|;
    if fraction == "" {
      assert Mixed(whole, "") == Whole(whole) as real;
    } else {
      assert s[a + 1..|s|] == fraction;
    }
  }

  lemma NoFraction()
    ensures Whole("") as real / Pow10(0) as real == 0.0
  {
  }

  lemma ReadShown(negative: bool, whole: string, fraction: string)
    requires whole != "" && AllDigits(whole) && AllDigits(fraction)
    ensures var x := Mixed(whole, fraction);
      ToDouble(Sign(negative) + whole + Behind(fraction)) == if negative then -x else x
  {
    hide Unsigned, Mixed, Behind, DigitsEnd, MantissaEnd;
    var s, i := Sign(negative) + whole + Behind(fraction), |Sign(negative)|;
    assert s[i..] == whole + Behind(fraction);
    ReadUnsigned(s, i, whole, fraction);
    assert !negative ==> s[0] == whole[0];
  }

  lemma {:induction false} PowAdd(a: nat, b: nat)
    ensures Pow10(a + b) == Pow10(a) * Pow10(b)
  {
    if a > 0 {
      PowAdd(a - 1, b);
      assert 10 * Pow10(a - 1) * Pow10(b) == 10 * (Pow10(a - 1) * Pow10(b));
    }
  }

  // whole + fraction / 10^k is n / 10^d when n has the digits of both, filled up with zeros.
  lemma SameFraction(n: nat, w: nat, f: nat, pk: nat, pz: nat)
    requires pk > 0 && pz > 0 && n == w * (pk * pz) + f * pz
    ensures w as real + f as real / pk as real == n as real / (pk * pz) as real
  {
  }

  lemma ReadFixed(negative: bool, n: nat, d: nat)
    requires d >= 1
    ensures var x := n as real / Pow10(d) as real;
      ToDouble(Stripped(Sign(negative) + Fixed(n, d))) == if negative then -x else x
  {
    hide Pow10, Stripped, ToDouble, Whole, Padded, Numeral, Behind;
    Division(n, Pow10(d));
    var w, digits := n / Pow10(d), Padded(n, d);
    assert Sign(negative) + Fixed(n, d) == Sign(negative) + Numeral(w) + "." + digits;
    var k := StripDecimals(Sign(negative) + Numeral(w), digits);
    ReadShown(negative, Numeral(w), digits[..k]);
    WholeNumeral(w);
    WholePadded(n, d);
    WholeZeros(digits, k);
    PowAdd(k, d - k);
    SameFraction(n, w, Whole(digits[..k]), Pow10(k), Pow10(d - k));
  }

  // ---- The number and its suffix are told apart ----

  predicate PlainNumber(s: string) {
    s != "" && forall i :: 0 <= i < |s| ==> IsDigit(s[i]) || s[i] == '.' || s[i] == '-'
  }

  lemma StrippedIsPlain(negative: bool, n: nat, d: nat)
    requires d >= 1
    ensures PlainNumber(Stripped(Sign(negative) + Fixed(n, d)))
  {
    hide Pow10, Stripped, Padded, Numeral;
    Division(n, Pow10(d));
    var w, digits := n / Pow10(d), Padded(n, d);
    assert Sign(negative) + Fixed(n, d) == Sign(negative) + Numeral(w) + "." + digits;
    var k := StripDecimals(Sign(negative) + Numeral(w), digits);
    PlainParts(negative, Numeral(w), digits[..k]);
  }

  lemma PlainParts(negative: bool, whole: string, fraction: string)
    requires whole != "" && AllDigits(whole) && AllDigits(fraction)
    ensures PlainNumber(Sign(negative) + whole + Behind(fraction))
  {
  }

  lemma {:induction false} NumericUpTo(s: string, i: nat, j: nat)
    requires i <= j <= |s| && (forall k :: i <= k < j ==> IsNumeric(s[k])) && (j < |s| ==> !IsNumeric(s[j]))
    ensures NumericEnd(s, i) == j
    decreases j - i
  {
    if i < j { NumericUpTo(s, i + 1, j); }
  }

  lemma SuffixNames(u: Unit, t: DataType)
    requires IsLength(u)
    ensures NamedUnit(u, Designator(UnitText(u, t))) == u && Designator(UnitText(u, t)) != "oz"
    ensures NamedUnit(u, Designator("")) == u && Designator("") != "oz"
  {
    var text := UnitText(u, t);
    assert text[0] == ' ' && !IsBlank(text[1]);
    assert StripLeading(text) == text[1..];
    assert Designator(text) == [LowerChar(text[1]), LowerChar(text[2])];
  }

  lemma SuffixShape(u: Unit, t: DataType)
    requires IsLength(u)
    ensures var text := UnitText(u, t); |text| >= 3 && text[0] == ' ' && !IsBlank(text[|text| - 1]) && ',' !in text
  {
  }

  // A number followed by the text of a length unit, or by nothing, is read as that many units.
  lemma ReadWithSuffix(s: Scale, u: Unit, t: DataType, number: string, addUnits: bool)
    requires IsLength(u) && PlainNumber(number)
    ensures DoubleOf(s, u, number + if addUnits then UnitText(u, t) else "", t)
      == FromUser(s, u, ToDouble(number), Dimension(t))
  {
    hide FromUser, ToDouble, UnitText, Designator, NamedUnit;
    var suffix := if addUnits then UnitText(u, t) else "";
    var text := number + suffix;
    SuffixShape(u, t);
    SuffixNames(u, t);
    assert text[0] == number[0] && text[|text| - 1] == if addUnits then suffix[|suffix| - 1] else number[|number| - 1];
    assert StripLeading(text) == text && StripTrailing(text) == text;
    forall i | 0 <= i < |text| ensures PointFor(text[i]) == text[i] {
      assert i < |number| ==> text[i] == number[i];
      assert i >= |number| ==> text[i] in suffix;
    }
    assert WithPoints(text) == text;
    forall k | 0 <= k < |number| ensures IsNumeric(text[k]) { assert text[k] == number[k]; }
    NumericUpTo(text, 0, |number|);
    assert text[..|number|] == number && text[|number|..] == suffix;
  }

  // ---- What is read back ----

  // The whole number printed for x with d decimals, in steps of 10^-d.
  function Digits(d: nat, x: real): nat { RoundEven(Scaled(d, x)) }

  function Signed(negative: bool, x: real): real { if negative then -x else x }

  lemma NumberReads(d: nat, x: real)
    requires d >= 1
    ensures ToDouble(Number(d, x)) == Signed(x < 0.0, Digits(d, x) as real / Pow10(d) as real)
    ensures PlainNumber(Number(d, x))
  {
    hide Fixed, Pow10, Stripped, ToDouble, RoundEven, Scaled, PlainNumber;
    ReadFixed(x < 0.0, RoundEven(Scaled(d, x)), d);
    StrippedIsPlain(x < 0.0, RoundEven(Scaled(d, x)), d);
  }

  lemma ZeroReads()
    ensures ToDouble("0") == 0.0 && ToDouble("-0") == 0.0
  {
  }

  lemma FractionPositive(n: nat, p: nat)
    requires n >= 1 && p >= 1
    ensures n as real / p as real > 0.0
  {
  }

  // A number with a digit other than zero within the decimals of its unit is read as that many steps.
  lemma PrintedReads(d: nat, x: real)
    requires d >= 1
    ensures PlainNumber(PrintedNumber(d, x))
    ensures x == 0.0 || Digits(d, x) >= 1 ==>
      ToDouble(PrintedNumber(d, x)) == Signed(x < 0.0, Digits(d, x) as real / Pow10(d) as real)
  {
    hide Pow10, Number, ToDouble, Digits, PlainNumber;
    NumberReads(d, x);
    NumberReads(10, x);
    ZeroReads();
    if x != 0.0 && Digits(d, x) >= 1 { FractionPositive(Digits(d, x), Pow10(d)); }
  }

  // A distance is printed and read in the same unit.
  lemma ReadBack(s: Scale, u: Unit, t: DataType, v: real, addUnits: bool)
    requires s.Valid() && IsLength(u) && PerValue(s, u, t) > 0.0
    ensures DoubleOf(s, u, StringOf(s, u, v, addUnits, t), t)
      == ToDouble(PrintedNumber(Decimals(s, u), v / PerValue(s, u, t))) * PerValue(s, u, t)
  {
    hide PerValue, ToUser, FromUser, DoubleOf, ToDouble, PrintedNumber, PlainNumber;
    TypedConversions(s, u, v, t);
    var number := PrintedNumber(Decimals(s, u), v / PerValue(s, u, t));
    PrintedReads(Decimals(s, u), v / PerValue(s, u, t));
    ReadWithSuffix(s, u, t, number, addUnits);
    TypedConversions(s, u, ToDouble(number), t);
  }

  // ---- Exact arithmetic ----

  lemma QuotientSign(v: real, s: real)
    requires s > 0.0
    ensures (v / s < 0.0 <==> v < 0.0) && (v / s == 0.0 <==> v == 0.0) && v / s * s == v
    ensures Abs(v / s) == Abs(v) / s
  {
  }

  // m internal units, s of them in a user unit, in steps of which p make a user unit; and back.
  function InSteps(m: real, s: real, p: real): real
    requires s > 0.0
  {
    m / s * p
  }

  function FromSteps(n: real, s: real, p: real): real
    requires p > 0.0
  {
    n / p * s
  }

  // The distance read back is off by at most half a step.
  lemma OffByHalfStep(m: real, s: real, p: real, n: real)
    requires 0.0 < s && 0.0 < p && -0.5 <= n - InSteps(m, s, p) <= 0.5
    ensures -0.5 * (s / p) <= FromSteps(n, s, p) - m <= 0.5 * (s / p)
  {
  }

  lemma FractionBelowOne(s: real, p: real)
    requires 0.0 < s < p
    ensures s / p < 1.0
  {
    QuotientSign(s, p);
    if s / p >= 1.0 { Product(s / p - 1.0, p); }
  }

  lemma InStepsGrows(a: real, b: real, s: real, p: real)
    requires s > 0.0 && p > 0.0 && 0.0 <= a <= b
    ensures 0.0 <= InSteps(a, s, p) <= InSteps(b, s, p)
  {
  }

  lemma SameSteps(m: real, s: real)
    requires s > 0.0
    ensures InSteps(m, s, s) == m && FromSteps(m, s, s) == m
  {
  }

  // With s < p the distance is off by less than half; with s == p every step is an internal unit.
  lemma ReadsClose(m: nat, s: real, p: real)
    requires 0.0 < s <= p
    ensures InSteps(m as real, s, p) >= 0.0
    ensures -0.5 < FromSteps(RoundEven(InSteps(m as real, s, p)) as real, s, p) - m as real < 0.5
  {
    hide RoundEven, InSteps, FromSteps;
    InStepsGrows(0.0, m as real, s, p);
    var n := RoundEven(InSteps(m as real, s, p));
    OffByHalfStep(m as real, s, p, n as real);
    if s < p {
      FractionBelowOne(s, p);
    } else {
      SameSteps(m as real, s);
      SameSteps(n as real, s);
      RoundWhole(m);
    }
  }

  lemma RoundWhole(m: nat)
    ensures RoundEven(m as real) == m
  {
  }

  lemma NoFewerSteps(m: real, s: real, p: real)
    requires 0.0 < s <= p && m >= 0.0
    ensures InSteps(m, s, p) >= m
  {
  }

  // ---- The round trip ----

  predicate RoundTrips(s: Scale, u: Unit, t: DataType, v: int, addUnits: bool)
    requires s.Valid()
  {
    KiRound(DoubleOf(s, u, StringOf(s, u, v as real, addUnits, t), t)) == v
  }

  // Steps printed for v internal units, s of them in a user unit.
  function Steps(d: nat, s: real, v: int): nat
    requires s > 0.0
  {
    Digits(d, v as real / s)
  }

  lemma StepsAre(d: nat, s: real, v: int, m: nat)
    requires s > 0.0 && m == (if v < 0 then -v else v)
    ensures InSteps(m as real, s, Pow10(d) as real) >= 0.0
    ensures Steps(d, s, v) == RoundEven(InSteps(m as real, s, Pow10(d) as real))
  {
    hide RoundEven, Pow10;
    QuotientSign(v as real, s);
    assert Abs(v as real) == m as real;
    assert Scaled(d, v as real / s) == InSteps(m as real, s, Pow10(d) as real);
  }

  lemma SignedSteps(negative: bool, n: nat, s: real, p: nat)
    requires p > 0
    ensures Signed(negative, n as real / p as real) * s == Signed(negative, FromSteps(n as real, s, p as real))
  {
  }

  // What is read for v internal units when some digit is printed.
  lemma StepsRead(s: Scale, u: Unit, t: DataType, v: int, addUnits: bool)
    requires s.Valid() && IsLength(u) && PerValue(s, u, t) > 0.0
    requires v == 0 || Steps(Decimals(s, u), PerValue(s, u, t), v) >= 1
    ensures var d, q := Decimals(s, u), PerValue(s, u, t);
      DoubleOf(s, u, StringOf(s, u, v as real, addUnits, t), t)
        == Signed(v < 0, FromSteps(Steps(d, q, v) as real, q, Pow10(d) as real))
  {
    hide PerValue, Decimals, Pow10, DoubleOf, StringOf, ToDouble, PrintedNumber, PlainNumber, Digits, Signed, FromSteps;
    var d, q := Decimals(s, u), PerValue(s, u, t);
    SomeDecimals(s, u);
    ReadBack(s, u, t, v as real, addUnits);
    PrintedReads(d, v as real / q);
    QuotientSign(v as real, q);
    SignedSteps(v < 0, Steps(d, q, v), q, Pow10(d));
  }

  lemma SomeDecimals(s: Scale, u: Unit)
    ensures Decimals(s, u) >= 1
  {
  }

  lemma SignedNear(v: int, m: nat, x: real)
    requires m == (if v < 0 then -v else v) && -0.5 < x - m as real < 0.5
    ensures KiRound(Signed(v < 0, x)) == v
  {
  }

  // Printed with steps no coarser than an internal unit, every distance survives.
  lemma FineEnough(s: Scale, u: Unit, t: DataType, v: int, addUnits: bool)
    requires s.Valid() && IsLength(u) && PerValue(s, u, t) <= Pow10(Decimals(s, u)) as real
    ensures RoundTrips(s, u, t, v, addUnits)
  {
    hide PerValue, Pow10, DoubleOf, StringOf, KiRound, Decimals, RoundEven, Steps, InSteps, FromSteps, Signed;
    TypedConversions(s, u, 0.0, t);
    var q, d := PerValue(s, u, t), Decimals(s, u);
    var m: nat := if v < 0 then -v else v;
    StepsAre(d, q, v, m);
    NoFewerSteps(m as real, q, Pow10(d) as real);
    StepsRead(s, u, t, v, addUnits);
    ReadsClose(m, q, Pow10(d) as real);
    SignedNear(v, m, FromSteps(Steps(d, q, v) as real, q, Pow10(d) as real));
  }

  // ---- Steps coarser than an internal unit ----

  lemma RoundMonotone(y: real, z: real)
    requires 0.0 <= y <= z
    ensures RoundEven(y) <= RoundEven(z)
  {
  }

  lemma StepsMonotone(d: nat, s: real, v: nat)
    requires s > 0.0
    ensures Steps(d, s, v) <= Steps(d, s, v + 1)
  {
    hide RoundEven, Pow10, Steps, InSteps;
    StepsAre(d, s, v, v);
    StepsAre(d, s, v + 1, v + 1);
    InStepsGrows(v as real, (v + 1) as real, s, Pow10(d) as real);
    RoundMonotone(InSteps(v as real, s, Pow10(d) as real), InSteps((v + 1) as real, s, Pow10(d) as real));
  }

  // Fewer steps than internal units: two neighbours from v up to w are printed alike.
  lemma {:induction false} TwoAlike(d: nat, s: real, v: nat, w: nat) returns (k: nat)
    requires s > 0.0 && v <= w && Steps(d, s, w) < Steps(d, s, v) + (w - v)
    ensures v <= k < w && Steps(d, s, k) == Steps(d, s, k + 1)
    decreases w - v
  {
    hide Steps;
    StepsMonotone(d, s, v);
    if Steps(d, s, v) == Steps(d, s, v + 1) {
      k := v;
    } else {
      k := TwoAlike(d, s, v + 1, w);
    }
  }

  // From v on at least one step is printed, and the w - v units up to w get fewer steps.
  lemma FarEnough(s: real, p: real) returns (v: nat, w: nat)
    requires 0.0 < p < s
    ensures v <= w && InSteps(v as real, s, p) >= 1.5
    ensures InSteps(w as real, s, p) + 1.0 < (w - v) as real
  {
    var r := p / s;
    QuotientSign(p, s);
    FractionBelowOne(p, s);
    v := AtLeast(1.5, r);
    w := AtLeast(v as real + 2.0, 1.0 - r);
    assert w as real * (1.0 - r) == w as real - w as real * r;
    StepsAsRatio(v as real, s, p);
    StepsAsRatio(w as real, s, p);
  }

  lemma StepsAsRatio(m: real, s: real, p: real)
    requires s > 0.0
    ensures InSteps(m, s, p) == m * (p / s)
  {
  }

  // A multiple of r that is at least x.
  lemma AtLeast(x: real, r: real) returns (k: nat)
    requires r > 0.0 && x >= 0.0
    ensures k as real * r >= x
  {
    var y := x / r;
    QuotientSign(x, r);
    k := y.Floor + 1;
    Product(k as real - y, r);
    assert (k as real - y) * r == k as real * r - y * r;
  }

  // Otherwise some distance is changed.
  lemma TooCoarse(s: Scale, u: Unit, t: DataType, addUnits: bool) returns (v: nat)
    requires s.Valid() && IsLength(u) && PerValue(s, u, t) > Pow10(Decimals(s, u)) as real
    ensures !RoundTrips(s, u, t, v, addUnits)
  {
    hide PerValue, Pow10, DoubleOf, StringOf, KiRound, Decimals, RoundEven, Steps, InSteps, FromSteps;
    TypedConversions(s, u, 0.0, t);
    var q, d := PerValue(s, u, t), Decimals(s, u);
    var a, b := FarEnough(q, Pow10(d) as real);
    StepsAre(d, q, a, a);
    StepsAre(d, q, b, b);
    v := TwoAlike(d, q, a, b);
    StepsGrow(d, q, a, v);
    StepsRead(s, u, t, v, addUnits);
    StepsRead(s, u, t, v + 1, addUnits);
    if RoundTrips(s, u, t, v, addUnits) { v := v + 1; }
  }

  lemma {:induction false} StepsGrow(d: nat, s: real, v: nat, w: nat)
    requires s > 0.0 && v <= w
    ensures Steps(d, s, v) <= Steps(d, s, w)
    decreases w - v
  {
    hide Steps;
    if v < w {
      StepsMonotone(d, s, v);
      StepsGrow(d, s, v + 1, w);
    }
  }

  // The promise about dialog values holds exactly when a printed step is no larger than an internal unit.
  lemma SurvivesExactly(s: Scale, u: Unit, t: DataType, addUnits: bool)
    requires s.Valid() && IsLength(u)
    ensures (forall v: int :: RoundTrips(s, u, t, v, addUnits)) <==> PerValue(s, u, t) <= Pow10(Decimals(s, u)) as real
  {
    hide PerValue, Pow10, RoundTrips, Decimals;
    if PerValue(s, u, t) <= Pow10(Decimals(s, u)) as real {
      forall v: int ensures RoundTrips(s, u, t, v, addUnits) { FineEnough(s, u, t, v, addUnits); }
    } else {
      var v := TooCoarse(s, u, t, addUnits);
    }
  }

  // The scales of the board, footprint, symbol, drawing sheet and Gerber editors.
  predicate Shipped(s: Scale) { s.perMm == 1000000.0 || s.perMm == 100000.0 || s.perMm == 10000.0 || s.perMm == 1000.0 }

  // Every length unit of every editor keeps its distances.
  lemma EveryEditor(s: Scale, u: Unit, v: int, addUnits: bool)
    requires Shipped(s) && IsLength(u)
    ensures RoundTrips(s, u, Distance, v, addUnits)
  {
    hide RoundTrips;
    Powers();
    FineEnough(s, u, Distance, v, addUnits);
  }

  // An area on a board, in square millimetres, needs 12 decimals and gets 10.
  lemma BoardArea(addUnits: bool)
    ensures exists v: int :: !RoundTrips(Scale(1000000.0), Millimetres, Area, v, addUnits)
  {
    hide RoundTrips;
    Powers();
    var v := TooCoarse(Scale(1000000.0), Millimetres, Area, addUnits);
  }

  lemma Powers()
    ensures Pow10(3) == 1000 && Pow10(5) == 100000 && Pow10(6) == 1000000
    ensures Pow10(8) == 100000000 && Pow10(10) == 10000000000
  {
  }
}
