// What is printed and read for a unit, in literal units, factors and decimals.
module UnitsMeaning {
  import opened Decimal
  import opened Units
  import opened UnitsRoundTrip

  // ---- Characters ----

  predicate Blank(c: char) { c in {' ', '\t', '\n', '\U{000B}', '\U{000C}', '\r'} }

  predicate InNumber(c: char) { c in {'0', '1', '2', '3', '4', '5', '6', '7', '8', '9', '.', '-', '+'} }

  lemma CharactersAre()
    ensures forall c: char :: Blank(c) <==> IsBlank(c)
    ensures forall c: char :: InNumber(c) <==> IsNumeric(c)
  {
  }

  // What is read as a number, whether it is one or not.
  predicate NumberText(s: string) { s != "" && forall i :: 0 <= i < |s| ==> InNumber(s[i]) }

  // ---- Reading numbers ----

  // A sign if any, digits if any, a point if any, digits if any, but one digit at least.
  lemma TypedNumber(sign: string, whole: string, point: bool, fraction: string)
    requires sign in {"", "+", "-"} && AllDigits(whole) && AllDigits(fraction)
    requires whole + fraction != "" && (fraction != "" ==> point)
    ensures var x := Whole(whole) as real + Whole(fraction) as real / Pow10(|fraction|) as real;
      ToDouble(sign + whole + (if point then "." + fraction else "")) == if sign == "-" then -x else x
  {
    hide Pow10, Whole, DigitsEnd, AllDigits, SignEnd;
    var s := sign + whole + (if point then "." + fraction else "");
    var i := |sign|;
    var a := i + |whole|;
    NoFraction();
    PointIsNoDigit();
    Pieces(s, i, whole, point, fraction);
    Begins(s, i, sign, whole, point, fraction);
    assert s[i..a] == whole;
    if point {
      assert s[a + 1..|s|] == fraction;
    }
  }

  lemma Pieces(s: string, i: nat, whole: string, point: bool, fraction: string)
    requires i <= |s| && s[i..] == whole + (if point then "." + fraction else "")
    requires AllDigits(whole) && AllDigits(fraction)
    ensures DigitsEnd(s, i) == i + |whole|
    ensures point ==> i + |whole| < |s| && s[i + |whole|] == '.' && DigitsEnd(s, i + |whole| + 1) == |s|
  {
    var a, rest := i + |whole|, s[i..];
    assert forall k :: i <= k < |s| ==> s[k] == rest[k - i];
    DigitsEndIs(s, i, a);
    if point {
      forall k | a < k < |s| ensures IsDigit(s[k]) { assert s[k] == fraction[k - a - 1]; }
      DigitsEndIs(s, a + 1, |s|);
    }
  }

  lemma Begins(s: string, i: nat, sign: string, whole: string, point: bool, fraction: string)
    requires sign in {"", "+", "-"} && AllDigits(whole) && i == |sign|
    requires s == sign + whole + (if point then "." + fraction else "") && (whole != "" || point)
    ensures SignEnd(s, 0) == i && (s[0] == '-' <==> sign == "-")
  {
    if sign == "" { assert s[0] == if whole != "" then whole[0] else '.'; }
  }

  // Nothing is read from a text without a digit, with a second point, or with a sign behind its front.
  lemma NotANumber(s: string)
    requires (forall i :: 0 <= i < |s| ==> !IsDigit(s[i]))
      || (exists i, j :: 0 <= i < j < |s| && s[i] == s[j] == '.')
      || exists i :: 0 < i < |s| && s[i] in {'-', '+'}
    ensures ToDouble(s) == 0.0
  {
    hide Unsigned;
    var i := SignEnd(s, 0);
    if SawDigit(s, i) && MantissaEnd(s, i) == |s| {
      var a := DigitsEnd(s, i);
      assert forall k :: i <= k < a ==> s[k] == s[i..a][k - i];
      if a < |s| {
        assert forall k :: a < k < |s| ==> s[k] == s[a + 1..|s|][k - a - 1];
      }
      assert false;
    }
  }

  // ---- Reading designators ----

  // A number and anything behind it that cannot belong to it.
  lemma ReadDesignated(s: Scale, u: Unit, t: DataType, number: string, tail: string)
    requires NumberText(number) && tail != "" && !InNumber(tail[0]) && ',' !in tail && !Blank(tail[|tail| - 1])
    ensures var d, x := Designator(tail), ToDouble(number);
      DoubleOf(s, u, number + tail, t) == FromUser(s, NamedUnit(u, d),
        if IsLength(u) && d == "oz" then x * 1.37
        else if u.Degrees? && d == "ra" then x * DEGREES_PER_RADIAN
        else x, Dimension(t))
  {
    hide FromUser, ToDouble, Designator, NamedUnit, IsBlank, IsNumeric, InNumber, Blank;
    var text := number + tail;
    CharactersAre();
    SpaceInNumber();
    assert text[0] == number[0] && text[|text| - 1] == tail[|tail| - 1];
    assert StripLeading(text) == text && StripTrailing(text) == text;
    NoComma(number, tail);
    forall k | 0 <= k < |number| ensures IsNumeric(text[k]) { assert text[k] == number[k]; }
    NumericUpTo(text, 0, |number|);
    assert text[..|number|] == number && text[|number|..] == tail;
  }

  lemma SpaceInNumber()
    ensures forall c: char :: InNumber(c) ==> !Blank(c) && c != ','
  {
  }

  lemma NoComma(number: string, tail: string)
    requires NumberText(number) && ',' !in tail
    ensures WithPoints(number + tail) == number + tail
  {
    hide InNumber;
    SpaceInNumber();
    var text := number + tail;
    forall i | 0 <= i < |text| ensures PointFor(text[i]) == text[i] {
      assert i < |number| ==> text[i] == number[i];
      assert i >= |number| ==> text[i] in tail;
    }
  }

  lemma {:induction false} LeadingBlanks(blanks: string, s: string)
    requires (forall i :: 0 <= i < |blanks| ==> Blank(blanks[i])) && (s == "" || !Blank(s[0]))
    ensures StripLeading(blanks + s) == s
  {
    if blanks == "" {
      assert blanks + s == s;
    } else {
      assert (blanks + s)[1..] == blanks[1..] + s;
      LeadingBlanks(blanks[1..], s);
    }
  }

  // Two characters count, whatever is behind them.
  lemma TwoCharacters(blanks: string, a: char, b: char, rest: string)
    requires (forall i :: 0 <= i < |blanks| ==> Blank(blanks[i])) && !Blank(a)
    ensures Designator(blanks + ([a, b] + rest)) == [LowerChar(a), LowerChar(b)]
  {
    var s := [a, b] + rest;
    LeadingBlanks(blanks, s);
    assert Left2(s) == [a, b];
  }

  // Millimetres for one of what two characters name, in any case.
  predicate Names(a: char, b: char, mm: real) {
    || (a in {'i', 'I'} && b in {'n', 'N'} && mm == 25.4)
    || (a in {'m', 'M'} && b in {'i', 'I'} && mm == 0.0254)
    || (a in {'t', 'T'} && b in {'h', 'H'} && mm == 0.0254)
    || (a in {'o', 'O'} && b in {'z', 'Z'} && mm == 1.37 * 0.0254)
    || (a in {'m', 'M'} && b in {'m', 'M'} && mm == 1.0)
    || (a in {'c', 'C'} && b in {'m', 'M'} && mm == 10.0)
    || (a in {'u', 'U', '\U{00B5}', '\U{03BC}'} && b in {'m', 'M'} && mm == 0.001)
  }

  lemma NamedFactor(s: Scale, u: Unit, a: char, b: char, x: real, mm: real)
    requires IsLength(u) && Names(a, b, mm)
    ensures var d := [LowerChar(a), LowerChar(b)];
      FromUserUnit(s, NamedUnit(u, d), if d == "oz" then x * 1.37 else x) == x * mm * s.perMm
  {
  }

  lemma OneDimension(s: Scale, u: Unit, x: real)
    ensures FromUser(s, u, x, 1) == FromUserUnit(s, u, x)
  {
  }

  // A length with a designator is read by it, whatever unit is set.
  lemma Designated(s: Scale, u: Unit, number: string, blanks: string, a: char, b: char, rest: string, mm: real)
    requires IsLength(u) && NumberText(number) && Names(a, b, mm)
    requires (forall i :: 0 <= i < |blanks| ==> Blank(blanks[i]))
    requires ',' !in rest && (rest == "" || !Blank(rest[|rest| - 1]))
    ensures DoubleOf(s, u, number + (blanks + ([a, b] + rest)), Distance) == ToDouble(number) * mm * s.perMm
  {
    hide ToDouble, DoubleOf, FromUserUnit, NamedUnit, FromUser, Designator;
    var tail := blanks + ([a, b] + rest);
    TailShape(blanks, a, b, rest);
    TwoCharacters(blanks, a, b, rest);
    ReadDesignated(s, u, Distance, number, tail);
    NamedFactor(s, u, a, b, ToDouble(number), mm);
    var d := [LowerChar(a), LowerChar(b)];
    OneDimension(s, NamedUnit(u, d), if d == "oz" then ToDouble(number) * 1.37 else ToDouble(number));
  }

  lemma TailShape(blanks: string, a: char, b: char, rest: string)
    requires !InNumber(a) && a != ',' && !Blank(a) && b != ',' && !Blank(b)
    requires (forall i :: 0 <= i < |blanks| ==> Blank(blanks[i]))
    requires ',' !in rest && (rest == "" || !Blank(rest[|rest| - 1]))
    ensures var tail := blanks + ([a, b] + rest);
      tail != "" && !InNumber(tail[0]) && ',' !in tail && !Blank(tail[|tail| - 1]) && !Blank(a)
  {
    var tail := blanks + ([a, b] + rest);
    assert tail[|tail| - 1] == if rest == "" then b else rest[|rest| - 1];
    assert tail[0] == if blanks == "" then a else blanks[0];
    forall c | c in tail ensures c != ',' {
      assert c in blanks || c in [a, b] || c in rest;
    }
  }

  // The inch mark.
  lemma InchMark(s: Scale, u: Unit, number: string, blanks: string)
    requires IsLength(u) && NumberText(number) && (forall i :: 0 <= i < |blanks| ==> Blank(blanks[i]))
    ensures DoubleOf(s, u, number + (blanks + "\""), Distance) == ToDouble(number) * 25.4 * s.perMm
  {
    hide ToDouble, DoubleOf;
    var tail := blanks + "\"";
    assert tail[|tail| - 1] == '"' && tail[0] == if blanks == "" then '"' else blanks[0];
    LeadingBlanks(blanks, "\"");
    ReadDesignated(s, u, Distance, number, tail);
    OneDimension(s, Inches, ToDouble(number));
  }

  // Without a designator the unit that is set counts.
  lemma Undesignated(s: Scale, u: Unit, number: string)
    requires NumberText(number)
    ensures DoubleOf(s, u, number, Distance) == ToDouble(number) * Factor(s, u)
  {
    hide ToDouble, DoubleOf, FromUserUnit, FromUser, Factor;
    ReadPlain(s, u, number);
    OneDimension(s, u, ToDouble(number));
    UnitFactor(s, u, ToDouble(number));
  }

  // So it does with anything else behind the number.
  lemma OtherTails(s: Scale, u: Unit, number: string, blanks: string, a: char, b: char, rest: string)
    requires IsLength(u) && NumberText(number) && !InNumber(a) && a != ',' && !Blank(a) && b != ',' && !Blank(b)
    requires (forall mm :: !Names(a, b, mm)) && a != '"'
    requires (forall i :: 0 <= i < |blanks| ==> Blank(blanks[i]))
    requires ',' !in rest && (rest == "" || !Blank(rest[|rest| - 1]))
    ensures DoubleOf(s, u, number + (blanks + ([a, b] + rest)), Distance) == ToDouble(number) * Factor(s, u)
  {
    hide ToDouble, DoubleOf, FromUserUnit, FromUser, NamedUnit, Designator, Factor;
    var tail := blanks + ([a, b] + rest);
    TailShape(blanks, a, b, rest);
    TwoCharacters(blanks, a, b, rest);
    ReadDesignated(s, u, Distance, number, tail);
    OtherName(u, a, b);
    OneDimension(s, u, ToDouble(number));
    UnitFactor(s, u, ToDouble(number));
  }

  lemma OtherCharacter(s: Scale, u: Unit, number: string, a: char)
    requires NumberText(number) && !InNumber(a) && a != ',' && !Blank(a) && a != '"'
    ensures DoubleOf(s, u, number + [a], Distance) == ToDouble(number) * Factor(s, u)
  {
    hide ToDouble, DoubleOf, FromUserUnit, FromUser, Factor;
    assert Designator([a]) == [LowerChar(a)];
    ReadDesignated(s, u, Distance, number, [a]);
    OneDimension(s, u, ToDouble(number));
    UnitFactor(s, u, ToDouble(number));
  }

  lemma OtherName(u: Unit, a: char, b: char)
    requires IsLength(u) && (forall mm :: !Names(a, b, mm)) && a != '"'
    ensures var d := [LowerChar(a), LowerChar(b)]; NamedUnit(u, d) == u && d != "oz"
  {
    assert !Names(a, b, 25.4) && !Names(a, b, 0.0254) && !Names(a, b, 1.37 * 0.0254);
    assert !Names(a, b, 1.0) && !Names(a, b, 10.0) && !Names(a, b, 0.001);
  }

  // Internal units in one of a unit, and in one square or cube of it.
  function Factor(s: Scale, u: Unit): real {
    match u
    case Inches => 25.4 * s.perMm
    case Mils => 0.0254 * s.perMm
    case Millimetres => s.perMm
    case Centimetres => 10.0 * s.perMm
    case Micrometres => 0.001 * s.perMm
    case _ => 1.0
  }

  lemma TypedFactor(s: Scale, u: Unit)
    ensures PerUnit(s, u) == Factor(s, u)
    ensures PerValue(s, u, Unitless) == 1.0 && PerValue(s, u, Distance) == Factor(s, u)
    ensures PerValue(s, u, Area) == Factor(s, u) * Factor(s, u)
    ensures PerValue(s, u, Volume) == Factor(s, u) * (Factor(s, u) * Factor(s, u))
  {
    hide Factor;
    FactorIs(s, u);
    PowersOf(PerUnit(s, u));
  }

  lemma FactorIs(s: Scale, u: Unit)
    ensures PerUnit(s, u) == Factor(s, u)
  {
  }

  lemma PowersOf(q: real)
    ensures Power(q, 0) == 1.0 && Power(q, 1) == q && Power(q, 2) == q * q && Power(q, 3) == q * (q * q)
  {
    assert Power(q, 1) == Multiplied(q, Power(q, 0));
    assert Power(q, 2) == Multiplied(q, Power(q, 1));
    assert Power(q, 3) == Multiplied(q, Power(q, 2));
  }

  lemma UnitFactor(s: Scale, u: Unit, x: real)
    ensures FromUserUnit(s, u, x) == x * Factor(s, u)
  {
  }

  lemma ReadPlain(s: Scale, u: Unit, number: string)
    requires NumberText(number)
    ensures DoubleOf(s, u, number, Distance) == FromUser(s, u, ToDouble(number), 1)
  {
    hide FromUser, ToDouble, FromUserUnit;
    assert StripLeading(number) == number && StripTrailing(number) == number;
    assert WithPoints(number) == number;
    NumericUpTo(number, 0, |number|);
    assert number[..|number|] == number && number[|number|..] == "";
    assert Designator("") == "";
  }

  // Degrees stay, radians are 180 / pi degrees each.
  lemma Angles(s: Scale, number: string, tail: string)
    requires NumberText(number) && tail in {" rad", "rad", " RAD", " radians"}
    ensures DoubleOf(s, Degrees, number + tail, Unitless) == ToDouble(number) * 57.29577951308232
  {
    hide ToDouble, DoubleOf, Designator, NumberText;
    NamesRadians(tail);
    ReadDesignated(s, Degrees, Unitless, number, tail);
  }

  lemma NamesRadians(tail: string)
    requires tail in {" rad", "rad", " RAD", " radians"}
    ensures Designator(tail) == "ra"
  {
    hide Designator;
    if tail[0] == ' ' {
      TwoCharacters(" ", tail[1], tail[2], tail[3..]);
      assert " " + ([tail[1], tail[2]] + tail[3..]) == tail;
    } else {
      TwoCharacters("", tail[0], tail[1], tail[2..]);
      assert "" + ([tail[0], tail[1]] + tail[2..]) == tail;
    }
  }

  // ---- Separators and blanks ----

  // A comma is as good as a point, and blanks around the text do not count.
  lemma CommaForPoint(s: Scale, u: Unit, t: DataType, text: string, k: nat)
    requires k < |text| && text[k] == '.'
    ensures DoubleOf(s, u, text[k := ','], t) == DoubleOf(s, u, text, t)
  {
    hide FromUser, ToDouble, Designator, NamedUnit, NumericEnd, WithPoints, StripLeading, StripTrailing;
    CommaStripped(text, k);
  }

  lemma CommaStripped(text: string, k: nat)
    requires k < |text| && text[k] == '.'
    ensures WithPoints(StripTrailing(StripLeading(text[k := ',']))) == WithPoints(StripTrailing(StripLeading(text)))
  {
    SameLeading(text, text[k := ',']);
    SameTrailing(StripLeading(text), StripLeading(text[k := ',']));
  }

  predicate SameButPoints(a: string, b: string) {
    |a| == |b| && forall i :: 0 <= i < |a| ==> PointFor(a[i]) == PointFor(b[i])
  }

  lemma {:induction false} SameLeading(a: string, b: string)
    requires SameButPoints(a, b)
    ensures SameButPoints(StripLeading(a), StripLeading(b))
  {
    if a != "" && Blank(a[0]) { SameLeading(a[1..], b[1..]); }
  }

  lemma {:induction false} SameTrailing(a: string, b: string)
    requires SameButPoints(a, b)
    ensures SameButPoints(StripTrailing(a), StripTrailing(b))
    ensures WithPoints(StripTrailing(a)) == WithPoints(StripTrailing(b))
  {
    if a != "" && Blank(a[|a| - 1]) { SameTrailing(a[..|a| - 1], b[..|b| - 1]); }
  }

  lemma BlanksAround(s: Scale, u: Unit, t: DataType, text: string, blank: char)
    requires Blank(blank)
    ensures DoubleOf(s, u, [blank] + text, t) == DoubleOf(s, u, text, t) == DoubleOf(s, u, text + [blank], t)
  {
    hide DoubleOf, StripLeading, StripTrailing, Blank;
    BlankInFront(text, blank);
    BlankBehind(text, blank);
    SameReading(s, u, t, [blank] + text, text);
    SameReading(s, u, t, text + [blank], text);
  }

  lemma SameReading(s: Scale, u: Unit, t: DataType, a: string, b: string)
    requires StripTrailing(StripLeading(a)) == StripTrailing(StripLeading(b))
    ensures DoubleOf(s, u, a, t) == DoubleOf(s, u, b, t)
  {
    hide FromUser, ToDouble, Designator, NamedUnit, NumericEnd, WithPoints, StripLeading, StripTrailing;
  }

  lemma BlankInFront(text: string, blank: char)
    requires Blank(blank)
    ensures StripTrailing(StripLeading([blank] + text)) == StripTrailing(StripLeading(text))
  {
    assert ([blank] + text)[1..] == text;
  }

  lemma {:induction false} BlankBehind(text: string, blank: char)
    requires Blank(blank)
    ensures StripTrailing(StripLeading(text + [blank])) == StripTrailing(StripLeading(text))
  {
    var s := text + [blank];
    if text == "" {
      assert s == [blank] && s[1..] == "";
    } else if Blank(text[0]) {
      assert s[1..] == text[1..] + [blank];
      BlankBehind(text[1..], blank);
    } else {
      assert s[..|text|] == text;
    }
  }

  // ---- Printing ----

  // The zeros at the end go, and one point or comma in front of them; a text of nothing but zeros keeps one.
  lemma StripsExactly(front: string, separator: string, zeros: string)
    requires separator in {"", ".", ","} && forall i :: 0 <= i < |zeros| ==> zeros[i] == '0'
    requires separator == "" ==> front == "0" || (front != "" && front[|front| - 1] !in {'0', '.', ','})
    ensures Stripped(front + separator + zeros) == front
  {
    hide ZerosBehind;
    var s := front + separator + zeros;
    ZerosAreZeros(s, |s|);
    var z := ZerosBehind(s, |s|);
    assert s[..|front|] == front;
    var p := |front| + |separator|;
    assert forall i :: p <= i < |s| ==> s[i] == '0';
    assert separator != "" ==> s[p - 1] == separator[0];
    assert separator == "" ==> s[p - 1] == front[p - 1];
    assert |s| - z == p;
    assert s[..p][..|front|] == front;
  }

  lemma Suffixes()
    ensures UnitText(Inches, Distance) == " in" && UnitText(Mils, Distance) == " mils"
    ensures UnitText(Millimetres, Distance) == " mm" && UnitText(Centimetres, Distance) == " cm"
    ensures UnitText(Micrometres, Distance) == " \U{00B5}m" && UnitText(Degrees, Distance) == "\U{00B0}"
    ensures UnitText(Percent, Distance) == "%" && UnitText(Unscaled, Distance) == ""
    ensures forall u :: UnitText(u, Area) == UnitText(u, Distance) + "\U{00B2}"
    ensures forall u :: UnitText(u, Volume) == UnitText(u, Distance) + "\U{00B3}"
  {
  }

  // 3 and 6 decimals for mils and inches on a schematic, 5 and 8 elsewhere, 4 for degrees, otherwise 10.
  lemma Precision(s: Scale, u: Unit)
    ensures Pow10(Decimals(s, u)) ==
      match u
      case Mils => if s.perMm == 10000.0 then 1000 else 100000
      case Inches => if s.perMm == 10000.0 then 1000000 else 100000000
      case Degrees => 10000
      case _ => 10000000000
  {
    Powers();
    assert Pow10(4) == 10 * Pow10(3);
  }

  // The printed number is off by at most half a step, and a tie goes to the even digit.
  lemma Nearest(d: nat, x: real)
    requires d >= 1 && (x == 0.0 || Digits(d, x) >= 1)
    ensures var n, y := Digits(d, x), Scaled(d, x);
      && ToDouble(PrintedNumber(d, x)) == Signed(x < 0.0, n as real / Pow10(d) as real)
      && -0.5 <= n as real - y <= 0.5
      && (n as real - y == 0.5 || n as real - y == -0.5 ==> n % 2 == 0)
  {
    hide ToDouble, PrintedNumber, Pow10, PlainNumber;
    PrintedReads(d, x);
  }

  // What would be printed as zero is printed with 10 decimals instead.
  lemma SecondAttempt(d: nat, x: real)
    requires d >= 1 && x != 0.0 && Digits(d, x) == 0 && Digits(10, x) >= 1
    ensures ToDouble(PrintedNumber(d, x)) == Signed(x < 0.0, Digits(10, x) as real / 10000000000.0)
  {
    hide ToDouble, Stripped, Fixed, PlainNumber, Digits;
    Powers();
    NumberReads(10, x);
    ZeroShown(d, x);
  }

  lemma ZeroShown(d: nat, x: real)
    requires d >= 1 && Digits(d, x) == 0
    ensures Number(d, x) == Sign(x < 0.0) + "0"
  {
    hide Stripped, Pow10, RoundEven, Scaled;
    ZeroFixed(d);
    assert Sign(x < 0.0) + Fixed(0, d) == Sign(x < 0.0) + "0" + "." + Padded(0, d);
    var k := StripDecimals(Sign(x < 0.0) + "0", Padded(0, d));
    assert k == 0;
    assert Padded(0, d)[..0] == "";
  }

  lemma ZeroFixed(d: nat)
    ensures Fixed(0, d) == "0" + "." + Padded(0, d) && forall i :: 0 <= i < d ==> Padded(0, d)[i] == '0'
  {
    assert 0 / Pow10(d) == 0;
    ZerosPadded(d);
    assert Numeral(0) == "0";
  }

  lemma {:induction false} ZerosPadded(d: nat)
    ensures forall i :: 0 <= i < d ==> Padded(0, d)[i] == '0'
  {
    if d > 0 { ZerosPadded(d - 1); }
  }

  // ---- Rounding what is read ----

  // To the nearest whole number, halves away from zero.
  lemma RoundsToNearest(x: real)
    ensures var n := KiRound(x) as real;
      && -0.5 <= n - x <= 0.5
      && (n - x == 0.5 ==> x > 0.0) && (n - x == -0.5 ==> x < 0.0)
  {
  }
}
