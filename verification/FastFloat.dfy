// NextFloatUp and NextFloatDown of 3d-viewer/3d_fastmath.h: adding one to the bit pattern of a float
// gives its neighbour (nextUp and nextDown in section 5.3.1 of IEEE 754-2008).
module FastFloat {

  // A float is its 32 bits; FloatToBits and BitsToFloat only rename them.
  type Float = b: int | 0 <= b < 0x1_0000_0000

  const SIGN := 0x8000_0000
  const INFINITY := 0x7F80_0000

  // ---- The value of a bit pattern ----

  function Rest(v: Float): int { if v >= SIGN then v - SIGN else v }

  predicate Negative(v: Float) { v >= SIGN }

  predicate IsNan(v: Float) { Rest(v) > INFINITY }

  predicate IsInf(v: Float) { Rest(v) == INFINITY }

  function Pow2(n: nat): (p: nat)
    ensures p > 0
  {
    if n == 0 then 1 else 2 * Pow2(n - 1)
  }

  // The magnitude in units of 2^-149, in which every finite one is a whole number: subnormal for
  // exponent 0, with an implicit leading bit otherwise.
  function Magnitude(m: nat): int
    requires m < INFINITY
  {
    var exponent, fraction := m / 0x80_0000, m % 0x80_0000;
    if exponent == 0 then fraction else (0x80_0000 + fraction) * Pow2(exponent - 1)
  }

  datatype Number = MinusInfinity | Finite(scaled: int) | PlusInfinity

  function Value(v: Float): Number
    requires !IsNan(v)
  {
    if IsInf(v) then (if Negative(v) then MinusInfinity else PlusInfinity)
    else Finite(if Negative(v) then -Magnitude(Rest(v)) else Magnitude(Rest(v)))
  }

  predicate Less(x: Number, y: Number) {
    match (x, y)
    case (Finite(a), Finite(b)) => a < b
    case _ => x != y && (x.MinusInfinity? || y.PlusInfinity?)
  }

  const ZERO := Finite(0)

  // ---- Patterns are ordered like values ----

  // One step up, within an exponent or into the next one.
  lemma MagnitudeStep(m: nat)
    requires m + 1 < INFINITY
    ensures Magnitude(m) < Magnitude(m + 1)
  {
    var e, f := m / 0x80_0000, m % 0x80_0000;
    assert m == e * 0x80_0000 + f;
    if f + 1 < 0x80_0000 {
      assert (m + 1) / 0x80_0000 == e && (m + 1) % 0x80_0000 == f + 1;
      if e > 0 {
        assert (0x80_0000 + f + 1) * Pow2(e - 1) == (0x80_0000 + f) * Pow2(e - 1) + Pow2(e - 1);
      }
    } else {
      assert (m + 1) / 0x80_0000 == e + 1 && (m + 1) % 0x80_0000 == 0;
      if e > 0 {
        assert Pow2(e) == 2 * Pow2(e - 1);
        assert (0x80_0000 + f) * Pow2(e - 1) + Pow2(e - 1) == 0x100_0000 * Pow2(e - 1);
      }
    }
  }

  lemma {:induction false} MagnitudeOrder(m: nat, n: nat)
    requires m < n < INFINITY
    ensures Magnitude(m) < Magnitude(n)
    decreases n
  {
    MagnitudeStep(n - 1);
    if m < n - 1 { MagnitudeOrder(m, n - 1); }
  }

  // The place of a float among all floats; both zeros are at 0.
  function Place(v: Float): int { if Negative(v) then -Rest(v) else Rest(v) }

  lemma PlaceOrder(v: Float, w: Float)
    requires !IsNan(v) && !IsNan(w)
    ensures Less(Value(v), Value(w)) <==> Place(v) < Place(w)
    ensures Value(v) == Value(w) <==> Place(v) == Place(w)
  {
    hide Magnitude, Pow2;
    var m, n := Rest(v), Rest(w);
    if m < INFINITY { MagnitudeSign(m); }
    if n < INFINITY { MagnitudeSign(n); }
    if m < n < INFINITY { MagnitudeOrder(m, n); }
    if n < m < INFINITY { MagnitudeOrder(n, m); }
  }

  lemma MagnitudeSign(m: nat)
    requires m < INFINITY
    ensures Magnitude(m) >= 0 && (Magnitude(m) == 0 <==> m == 0)
  {
  }

  lemma AgainstZero(v: Float)
    requires !IsNan(v)
    ensures Value(v) == ZERO <==> Place(v) == 0
    ensures Less(Value(v), ZERO) <==> Place(v) < 0
    ensures Less(ZERO, Value(v)) <==> Place(v) > 0
  {
  }

  // ---- The neighbours ----

  function Up(v: Float): Float
    requires !IsNan(v)
  {
    if Place(v) == INFINITY then v else if Place(v) >= 0 then Rest(v) + 1 else v - 1
  }

  function Down(v: Float): Float
    requires !IsNan(v)
  {
    if Place(v) == -INFINITY then v else if Place(v) > 0 then v - 1 else SIGN + Rest(v) + 1
  }

  // Comparisons with zero; a NaN fails all of them.
  predicate IsAbove(v: Float) { !IsNan(v) && Less(ZERO, Value(v)) }

  predicate IsBelow(v: Float) { !IsNan(v) && Less(Value(v), ZERO) }

  predicate IsZero(v: Float) { !IsNan(v) && Value(v) == ZERO }

  lemma Comparisons(v: Float)
    ensures IsZero(v) <==> Place(v) == 0
    ensures !IsNan(v) ==> (IsBelow(v) <==> Place(v) < 0) && (IsAbove(v) <==> Place(v) > 0)
  {
    hide Value, Less;
    if !IsNan(v) { AgainstZero(v); }
  }

  // A NaN steps to its neighbouring pattern, which is a NaN except next to infinity.
  method NextFloatUp(v: Float) returns (r: Float)
    ensures !IsNan(v) ==> r == Up(v) && if Value(v) == PlusInfinity then r == v else IsNextUp(v, r)
    ensures IsNan(v) ==> r == v - 1 && (IsNan(r) <==> Rest(v) != INFINITY + 1)
  {
    if !IsNan(v) { UpIsNext(v); }
    Comparisons(v);
    Comparisons(0);
    if IsInf(v) && IsAbove(v) {
      return v;
    }
    var x := v;
    if IsZero(x) {
      x := 0;
    }
    var ui := x;
    if IsAbove(x) || IsZero(x) {
      ui := ui + 1;
    } else {
      ui := ui - 1;
    }
    return ui;
  }

  // The last pattern of each sign, a NaN, steps to a zero.
  method NextFloatDown(v: Float) returns (r: Float)
    ensures !IsNan(v) ==> r == Down(v) && if Value(v) == MinusInfinity then r == v else IsNextUp(r, v)
    ensures IsNan(v) ==> r == (v + 1) % 0x1_0000_0000 && (IsNan(r) <==> Rest(v) != SIGN - 1)
  {
    if !IsNan(v) { DownIsNext(v); }
    Comparisons(v);
    Comparisons(SIGN);
    if IsInf(v) && IsBelow(v) {
      return v;
    }
    var x := v;
    if IsZero(x) {
      x := SIGN;
    }
    var ui := x;
    if IsAbove(x) {
      ui := ui - 1;
    } else {
      ui := (ui + 1) % 0x1_0000_0000;
    }
    return ui;
  }

  // w is greater than v, with nothing representable strictly between them.
  ghost predicate IsNextUp(v: Float, w: Float)
    requires !IsNan(v)
  {
    && !IsNan(w) && Less(Value(v), Value(w))
    && forall x: Float :: !IsNan(x) ==> !(Less(Value(v), Value(x)) && Less(Value(x), Value(w)))
  }

  lemma NextPlaces(v: Float, w: Float)
    requires !IsNan(v) && !IsNan(w) && Place(w) == Place(v) + 1
    ensures IsNextUp(v, w)
  {
    PlaceOrder(v, w);
    forall x: Float | !IsNan(x) ensures !(Less(Value(v), Value(x)) && Less(Value(x), Value(w))) {
      PlaceOrder(v, x);
      PlaceOrder(x, w);
    }
  }

  lemma UpIsNext(v: Float)
    requires !IsNan(v)
    ensures Value(v) == PlusInfinity <==> Place(v) == INFINITY
    ensures if Value(v) == PlusInfinity then Up(v) == v else IsNextUp(v, Up(v))
  {
    if Place(v) != INFINITY { NextPlaces(v, Up(v)); }
  }

  lemma DownIsNext(v: Float)
    requires !IsNan(v)
    ensures Value(v) == MinusInfinity <==> Place(v) == -INFINITY
    ensures if Value(v) == MinusInfinity then Down(v) == v else !IsNan(Down(v)) && IsNextUp(Down(v), v)
  {
    if Place(v) != -INFINITY { NextPlaces(Down(v), v); }
  }

  // Stepping up and down again comes back to the same value (both zeros count as one).
  lemma DownUndoesUp(v: Float)
    requires !IsNan(v) && Value(v) != PlusInfinity
    ensures !IsNan(Up(v)) && !IsNan(Down(Up(v))) && Value(Down(Up(v))) == Value(v)
  {
  }

  function Negate(v: Float): Float { if v >= SIGN then v - SIGN else v + SIGN }

  // The two are mirror images of each other.
  lemma Mirror(v: Float)
    requires !IsNan(v)
    ensures !IsNan(Negate(v)) && !IsNan(Up(Negate(v))) && !IsNan(Down(v))
    ensures Value(Down(v)) == Value(Negate(Up(Negate(v))))
    ensures Place(Negate(v)) == -Place(v)
  {
  }

  // Known patterns: the zeros, the least and greatest subnormals, the least normal number, 1, the greatest
  // number, the infinities and a NaN.
  lemma KnownValues()
    ensures Value(0) == Value(0x8000_0000) == Finite(0)
    ensures Value(1) == Finite(1) && Value(0x8000_0001) == Finite(-1)
    ensures Value(0x007F_FFFF) == Finite(0x7F_FFFF) && Value(0x0080_0000) == Finite(0x80_0000)
    ensures Value(0x3F80_0000) == Finite(0x80_0000 * Pow2(126))
    ensures Value(0x7F7F_FFFF) == Finite(0xFF_FFFF * Pow2(253))
    ensures Value(0x7F80_0000) == PlusInfinity && Value(0xFF80_0000) == MinusInfinity
    ensures IsNan(0x7F80_0001) && IsNan(0xFFFF_FFFF)
  {
  }

  // The value of any finite pattern from its sign, exponent and fraction, as in section 3.4 of IEEE 754-2008.
  lemma PatternValue(sign: nat, exponent: nat, fraction: nat)
    requires sign < 2 && exponent < 255 && fraction < 0x80_0000
    ensures var v := sign * 0x8000_0000 + exponent * 0x80_0000 + fraction;
      var m := if exponent == 0 then fraction else (0x80_0000 + fraction) * Pow2(exponent - 1);
      0 <= v < 0x1_0000_0000 && !IsNan(v) && Value(v) == Finite(if sign == 1 then -m else m)
  {
    var m := exponent * 0x80_0000 + fraction;
    assert m / 0x80_0000 == exponent && m % 0x80_0000 == fraction;
  }
}
