// Distances printed for dialogs and read back: common/eda_units.cpp with exact numbers.
module Units {
  import opened Decimal

  datatype Unit = Inches | Millimetres | Unscaled | Degrees | Percent | Mils | Micrometres | Centimetres

  predicate IsLength(u: Unit) { u.Inches? || u.Millimetres? || u.Mils? || u.Micrometres? || u.Centimetres? }

  datatype DataType = Distance | Area | Volume | Unitless

  // Internal units per millimetre, and per mil.
  datatype Scale = Scale(perMm: real) {
    predicate Valid() { perMm > 0.0 }

    function PerMil(): real { perMm * 0.0254 }
  }

  const SCH_PER_MM := 10000.0

  // ---- Conversion ----

  function ToUserUnit(s: Scale, u: Unit, v: real): real
    requires s.Valid()
  {
    match u
    case Micrometres => v / s.perMm * 1000.0
    case Millimetres => v / s.perMm
    case Centimetres => v / s.perMm / 10.0
    case Mils => v / s.PerMil()
    case Inches => v / s.PerMil() / 1000.0
    case _ => v
  }

  function FromUserUnit(s: Scale, u: Unit, x: real): real {
    match u
    case Micrometres => x / 1000.0 * s.perMm
    case Millimetres => x * s.perMm
    case Centimetres => x * 10.0 * s.perMm
    case Mils => x * s.PerMil()
    case Inches => x * s.PerMil() * 1000.0
    case _ => x
  }

  // Internal units in one user unit.
  function PerUnit(s: Scale, u: Unit): real {
    match u
    case Micrometres => s.perMm / 1000.0
    case Millimetres => s.perMm
    case Centimetres => s.perMm * 10.0
    case Mils => s.perMm * 0.0254
    case Inches => s.perMm * 25.4
    case _ => 1.0
  }

  // v is x times the divisor.
  lemma QuotientIs(v: real, a: real, x: real)
    requires a > 0.0 && x * a == v
    ensures v / a == x
  {
  }

  lemma Conversions(s: Scale, u: Unit, v: real)
    requires s.Valid()
    ensures PerUnit(s, u) > 0.0
    ensures ToUserUnit(s, u, v) == v / PerUnit(s, u) && FromUserUnit(s, u, v) == v * PerUnit(s, u)
  {
    var x := v / s.perMm;
    assert x * s.perMm == v;
    QuotientIs(v, PerUnit(s, u), ToUserUnit(s, u, v));
  }

  // Areas are converted twice, volumes three times.
  function Dimension(t: DataType): nat {
    match t
    case Unitless => 0
    case Distance => 1
    case Area => 2
    case Volume => 3
  }

  function ToUser(s: Scale, u: Unit, v: real, n: nat): real
    requires s.Valid()
    decreases n
  {
    if n == 0 then v else ToUser(s, u, ToUserUnit(s, u, v), n - 1)
  }

  function FromUser(s: Scale, u: Unit, x: real, n: nat): real
    decreases n
  {
    if n == 0 then x else FromUser(s, u, FromUserUnit(s, u, x), n - 1)
  }

  function Multiplied(x: real, y: real): real { x * y }

  function Divided(x: real, y: real): real
    requires y > 0.0
  {
    x / y
  }

  function Power(q: real, n: nat): real { if n == 0 then 1.0 else Multiplied(q, Power(q, n - 1)) }

  function PerValue(s: Scale, u: Unit, t: DataType): real { Power(PerUnit(s, u), Dimension(t)) }

  lemma OneConversion(s: Scale, u: Unit, v: real)
    requires s.Valid()
    ensures PerUnit(s, u) > 0.0
    ensures ToUserUnit(s, u, v) == Divided(v, PerUnit(s, u)) && FromUserUnit(s, u, v) == Multiplied(v, PerUnit(s, u))
  {
    Conversions(s, u, v);
  }

  lemma DividedTwice(v: real, a: real, b: real)
    requires a > 0.0 && b > 0.0
    ensures Multiplied(a, b) > 0.0
    ensures Divided(Divided(v, a), b) == Divided(v, Multiplied(a, b))
    ensures Multiplied(Multiplied(v, a), b) == Multiplied(v, Multiplied(a, b))
  {
    var x := v / a;
    var y := x / b;
    assert x * a == v && y * b == x;
    QuotientIs(v, a * b, y);
  }

  lemma ByOne(v: real)
    ensures Divided(v, 1.0) == Multiplied(v, 1.0) == v
  {
  }

  lemma {:induction false} Repeated(s: Scale, u: Unit, v: real, n: nat)
    requires s.Valid()
    ensures Power(PerUnit(s, u), n) > 0.0
    ensures ToUser(s, u, v, n) == Divided(v, Power(PerUnit(s, u), n))
    ensures FromUser(s, u, v, n) == Multiplied(v, Power(PerUnit(s, u), n))
    decreases n
  {
    hide PerUnit, ToUserUnit, FromUserUnit, Multiplied, Divided;
    ByOne(v);
    if n > 0 {
      var q := PerUnit(s, u);
      OneConversion(s, u, v);
      Repeated(s, u, Divided(v, q), n - 1);
      Repeated(s, u, Multiplied(v, q), n - 1);
      DividedTwice(v, q, Power(q, n - 1));
    }
  }

  // The fall-through of the two switches.
  lemma ThreeTimes(s: Scale, u: Unit, v: real)
    requires s.Valid()
    ensures ToUser(s, u, v, 2) == ToUserUnit(s, u, ToUserUnit(s, u, v))
    ensures ToUser(s, u, v, 3) == ToUserUnit(s, u, ToUserUnit(s, u, ToUserUnit(s, u, v)))
  {
    hide ToUserUnit;
    assert ToUser(s, u, ToUserUnit(s, u, v), 2) == ToUserUnit(s, u, ToUserUnit(s, u, ToUserUnit(s, u, v)));
  }

  lemma ThreeTimesBack(s: Scale, u: Unit, x: real)
    ensures FromUser(s, u, x, 2) == FromUserUnit(s, u, FromUserUnit(s, u, x))
    ensures FromUser(s, u, x, 3) == FromUserUnit(s, u, FromUserUnit(s, u, FromUserUnit(s, u, x)))
  {
    hide FromUserUnit;
    assert FromUser(s, u, FromUserUnit(s, u, x), 2) == FromUserUnit(s, u, FromUserUnit(s, u, FromUserUnit(s, u, x)));
  }

  lemma TypedConversions(s: Scale, u: Unit, v: real, t: DataType)
    requires s.Valid()
    ensures PerValue(s, u, t) > 0.0
    ensures ToUser(s, u, v, Dimension(t)) == v / PerValue(s, u, t)
    ensures FromUser(s, u, v, Dimension(t)) == v * PerValue(s, u, t)
  {
    hide PerUnit, ToUserUnit, FromUserUnit;
    Repeated(s, u, v, Dimension(t));
  }

  // ---- Printing ----

  // Decimals printed for a unit.
  function Decimals(s: Scale, u: Unit): nat {
    var isEeschema := s.perMm == SCH_PER_MM;
    match u
    case Mils => if isEeschema then 3 else 5
    case Inches => if isEeschema then 6 else 8
    case Degrees => 4
    case _ => 10
  }

  const MICRO := '\U{00B5}'

  function UnitText(u: Unit, t: DataType): string { UnitName(u) + Superscript(t) }

  function Superscript(t: DataType): string {
    match t
    case Area => "\U{00B2}"
    case Volume => "\U{00B3}"
    case _ => ""
  }

  function UnitName(u: Unit): string {
    match u
    case Micrometres => [' ', MICRO, 'm']
    case Millimetres => " mm"
    case Centimetres => " cm"
    case Degrees => "\U{00B0}"
    case Mils => " mils"
    case Inches => " in"
    case Percent => "%"
    case Unscaled => ""
  }

  function ZerosBehind(s: string, i: nat): nat
    requires i <= |s|
  {
    if i > 1 && s[i - 1] == '0' then 1 + ZerosBehind(s, i - 1) else 0
  }

  lemma {:induction false} ZerosAreZeros(s: string, i: nat)
    requires i <= |s|
    ensures ZerosBehind(s, i) <= i && (i > 0 ==> ZerosBehind(s, i) < i)
    ensures forall k :: i - ZerosBehind(s, i) <= k < i ==> s[k] == '0'
    ensures i - ZerosBehind(s, i) > 1 ==> s[i - ZerosBehind(s, i) - 1] != '0'
  {
    if i > 1 && s[i - 1] == '0' { ZerosAreZeros(s, i - 1); }
  }

  // The text without the zeros at its end and without a point or comma in front of them; a zero in
  // the first place stays.
  function Stripped(s: string): string {
    ZerosAreZeros(s, |s|);
    var k := |s| - ZerosBehind(s, |s|);
    if k > 0 && (s[k - 1] == '.' || s[k - 1] == ',') then s[..k - 1] else s[..k]
  }

  method RemoveTrailingZeros(aText: string) returns (text: string)
    ensures text == Stripped(aText)
  {
    ZerosAreZeros(aText, |aText|);
    var len := |aText|;
    var removeLast := 0;
    len := len - 1;
    while len > 0 && aText[len] == '0'
      invariant -1 <= len < |aText| && (aText != "" ==> len >= 0)
      invariant removeLast == |aText| - 1 - len
      invariant ZerosBehind(aText, |aText|) == removeLast + ZerosBehind(aText, len + 1)
    {
      removeLast := removeLast + 1;
      len := len - 1;
    }
    if len >= 0 && (aText[len] == '.' || aText[len] == ',') {
      removeLast := removeLast + 1;
    }
    return aText[..|aText| - removeLast];
  }

  function Number(d: nat, x: real): string { Stripped(Printf(d, x)) }

  function PrintedNumber(d: nat, x: real): string {
    var text := Number(d, x);
    if x != 0.0 && (text == "0" || text == "-0") then Number(10, x) else text
  }

  function StringOf(s: Scale, u: Unit, v: real, addUnits: bool, t: DataType): string
    requires s.Valid()
  {
    PrintedNumber(Decimals(s, u), ToUser(s, u, v, Dimension(t))) + if addUnits then UnitText(u, t) else ""
  }

  method StringFromValue(s: Scale, u: Unit, v: real, addUnits: bool, t: DataType) returns (text: string)
    requires s.Valid()
    ensures text == StringOf(s, u, v, addUnits, t)
  {
    hide ToUserUnit, Printf, Stripped, UnitText, Decimals;
    var value := v;
    ThreeTimes(s, u, v);
    if t.Volume? {
      value := ToUserUnit(s, u, value);
    }
    if t.Volume? || t.Area? {
      value := ToUserUnit(s, u, value);
    }
    if !t.Unitless? {
      value := ToUserUnit(s, u, value);
    }
    text := Printf(Decimals(s, u), value);
    text := RemoveTrailingZeros(text);
    if value != 0.0 && (text == "0" || text == "-0") {
      text := Printf(10, value);
      text := RemoveTrailingZeros(text);
    }
    if addUnits {
      text := text + UnitText(u, t);
    }
  }

  // ---- Reading ----

  predicate IsBlank(c: char) { c == ' ' || '\t' <= c <= '\r' }

  function StripLeading(s: string): string { if s != "" && IsBlank(s[0]) then StripLeading(s[1..]) else s }

  function StripTrailing(s: string): string {
    if s != "" && IsBlank(s[|s| - 1]) then StripTrailing(s[..|s| - 1]) else s
  }

  // Either separator becomes the decimal point.
  function PointFor(c: char): char { if c == ',' then '.' else c }

  function WithPoints(s: string): (r: string)
    ensures |r| == |s|
  {
    seq(|s|, i requires 0 <= i < |s| => PointFor(s[i]))
  }

  predicate IsNumeric(c: char) { IsDigit(c) || c == '.' || c == '-' || c == '+' }

  function NumericEnd(s: string, i: nat): (j: nat)
    requires i <= |s|
    ensures i <= j <= |s|
    decreases |s| - i
  {
    if i < |s| && IsNumeric(s[i]) then NumericEnd(s, i + 1) else i
  }

  function LowerChar(c: char): char { if 'A' <= c <= 'Z' then ((c as int) + 32) as char else c }

  function Lower(s: string): string { seq(|s|, i requires 0 <= i < |s| => LowerChar(s[i])) }

  function Left2(s: string): string { if |s| <= 2 then s else s[..2] }

  // The two significant characters of a unit designator.
  function Designator(tail: string): string { Lower(Left2(StripLeading(tail))) }

  // The unit they name; none, or a designator of something else, leaves the unit as it is.
  function NamedUnit(u: Unit, d: string): Unit {
    if !IsLength(u) then u
    else if d == "um" || d == [MICRO, 'm'] || d == "\U{03BC}m" then Micrometres
    else if d == "mm" then Millimetres
    else if d == "cm" then Centimetres
    else if d == "mi" || d == "th" || d == "oz" then Mils
    else if d == "in" || d == "\"" then Inches
    else u
  }

  // 180 / pi, as far as a double has it.
  const DEGREES_PER_RADIAN := 57.29577951308232

  // An ounce of copper is 1.37 mils.
  function DoubleOf(s: Scale, u: Unit, text: string, t: DataType): real {
    var buf := WithPoints(StripTrailing(StripLeading(text)));
    var brk := NumericEnd(buf, 0);
    var designator := Designator(buf[brk..]);
    var x := ToDouble(buf[..brk]);
    var value :=
      if IsLength(u) && designator == "oz" then x * 1.37
      else if u.Degrees? && designator == "ra" then x * DEGREES_PER_RADIAN
      else x;
    FromUser(s, NamedUnit(u, designator), value, Dimension(t))
  }

  method DoubleValueFromString(s: Scale, u: Unit, aText: string, t: DataType) returns (dtmp: real)
    ensures dtmp == DoubleOf(s, u, aText, t)
  {
    hide FromUserUnit, ToDouble, WithPoints, StripTrailing, StripLeading, Designator, IsNumeric;
    var units := u;
    var buf := WithPoints(StripTrailing(StripLeading(aText)));
    var brk := 0;
    while brk < |buf|
      invariant brk <= |buf| && NumericEnd(buf, brk) == NumericEnd(buf, 0)
    {
      if !IsNumeric(buf[brk]) {
        break;
      }
      brk := brk + 1;
    }
    dtmp := ToDouble(buf[..brk]);
    var unit := Designator(buf[brk..]);
    if IsLength(units) {
      if unit == "um" || unit == [MICRO, 'm'] || unit == "\U{03BC}m" {
        units := Micrometres;
      } else if unit == "mm" {
        units := Millimetres;
      } else if unit == "cm" {
        units := Centimetres;
      } else if unit == "mi" || unit == "th" {
        units := Mils;
      } else if unit == "in" || unit == "\"" {
        units := Inches;
      } else if unit == "oz" {
        units := Mils;
        dtmp := dtmp * 1.37;
      }
    } else if units.Degrees? {
      if unit == "ra" {
        dtmp := dtmp * DEGREES_PER_RADIAN;
      }
    }
    ThreeTimesBack(s, units, dtmp);
    if t.Volume? {
      dtmp := FromUserUnit(s, units, dtmp);
    }
    if t.Volume? || t.Area? {
      dtmp := FromUserUnit(s, units, dtmp);
    }
    if !t.Unitless? {
      dtmp := FromUserUnit(s, units, dtmp);
    }
  }

  // KiROUND: to the nearest whole number, halves away from zero.
  function KiRound(x: real): int { if x < 0.0 then -((-x + 0.5).Floor) else (x + 0.5).Floor }

  method ValueFromString(s: Scale, u: Unit, text: string, t: DataType) returns (v: int)
    ensures v == KiRound(DoubleOf(s, u, text, t))
  {
    var value := DoubleValueFromString(s, u, text, t);
    v := KiRound(value);
  }
}
