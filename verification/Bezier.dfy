// BezierToPolyline of bitmap2component/bitmap2component.cpp over exact real numbers: the polyline it
// emits stays within the desired accuracy of the curve.
module Bezier {

  datatype Point = Point(x: real, y: real)

  const DELTA := 0.25  // desired accuracy, in pixels

  function Square(x: real): real { x * x }

  function Cube(x: real): real { x * x * x }

  function MaxReal(a: real, b: real): real { if a < b then b else a }

  // ---- The curve, as repeated interpolation of its control points ----

  function Mix(a: real, b: real, t: real): real { (1.0 - t) * a + t * b }

  function MixNeighbours(xs: seq<real>, t: real): seq<real>
    requires |xs| >= 2
  {
    seq(|xs| - 1, i requires 0 <= i < |xs| - 1 => Mix(xs[i], xs[i + 1], t))
  }

  function Casteljau(xs: seq<real>, t: real): real
    requires |xs| >= 1
    decreases |xs|
  {
    if |xs| == 1 then xs[0] else Casteljau(MixNeighbours(xs, t), t)
  }

  datatype Control = Control(p1: Point, p2: Point, p3: Point, p4: Point)

  function Curve(c: Control, t: real): Point {
    Point(Casteljau([c.p1.x, c.p2.x, c.p3.x, c.p4.x], t), Casteljau([c.p1.y, c.p2.y, c.p3.y, c.p4.y], t))
  }

  function Between(a: Point, b: Point, t: real): Point { Point(Mix(a.x, b.x, t), Mix(a.y, b.y, t)) }

  function DistanceSquared(a: Point, b: Point): real { Square(a.x - b.x) + Square(a.y - b.y) }

  lemma ProductSign(x: real, y: real)
    requires 0.0 <= x && 0.0 <= y
    ensures 0.0 <= x * y
  {
  }

  lemma Monotone(k: real, x: real, y: real)
    requires 0.0 <= k && x <= y
    ensures k * x <= k * y
  {
  }

  lemma MixSame(x: real, t: real)
    ensures Mix(x, x, t) == x
  {
  }

  lemma MixAdd(a: real, b: real, c: real, d: real, a': real, b': real, c': real, d': real, t: real)
    ensures Mix(a + b + c + d, a' + b' + c' + d', t) == Mix(a, a', t) + Mix(b, b', t) + Mix(c, c', t) + Mix(d, d', t)
  {
  }

  lemma MixScale(k: real, x: real, y: real, z: real, t: real, e: real)
    requires x - Mix(y, z, t) == e
    ensures k * x - Mix(k * y, k * z, t) == k * e
  {
  }

  lemma SquareSign(x: real)
    ensures 0.0 <= Square(x)
  {
  }

  // ---- One coordinate ----

  // The polynomial the code evaluates.
  function Bernstein(a: real, b: real, c: real, d: real, t: real): real {
    a * Cube(1.0 - t) + 3.0 * b * Square(1.0 - t) * t + 3.0 * c * (1.0 - t) * Square(t) + d * Cube(t)
  }

  lemma BernsteinIsCurve(a: real, b: real, c: real, d: real, t: real)
    ensures Bernstein(a, b, c, d, t) == Casteljau([a, b, c, d], t)
  {
    var ab, bc, cd := Mix(a, b, t), Mix(b, c, t), Mix(c, d, t);
    var abc, bcd := Mix(ab, bc, t), Mix(bc, cd, t);
    assert MixNeighbours([a, b, c, d], t) == [ab, bc, cd];
    assert MixNeighbours([ab, bc, cd], t) == [abc, bcd];
    assert MixNeighbours([abc, bcd], t) == [Mix(abc, bcd, t)];
    assert Casteljau([a, b, c, d], t) == Casteljau([ab, bc, cd], t) == Casteljau([abc, bcd], t) == Mix(abc, bcd, t);
    Expand(a, b, c, d, t);
  }

  lemma Expand(a: real, b: real, c: real, d: real, t: real)
    ensures Bernstein(a, b, c, d, t) ==
      Mix(Mix(Mix(a, b, t), Mix(b, c, t), t), Mix(Mix(b, c, t), Mix(c, d, t), t), t)
  {
  }

  function Monomials(k0: real, k1: real, k2: real, k3: real, t: real): real {
    k0 + k1 * t + k2 * Square(t) + k3 * Cube(t)
  }

  lemma InMonomials(a: real, b: real, c: real, d: real, t: real)
    ensures Casteljau([a, b, c, d], t) ==
      Monomials(a, 3.0 * (b - a), 3.0 * (a - 2.0 * b + c), (b - 2.0 * c + d) - (a - 2.0 * b + c), t)
  {
    BernsteinIsCurve(a, b, c, d, t);
  }

  lemma SquareChord(u: real, h: real, l: real, w: real)
    requires w == l * (1.0 - l) * h * h
    ensures Square(u + l * h) - Mix(Square(u), Square(u + h), l) == -w
  {
  }

  lemma CubeChord(u: real, h: real, l: real, w: real, e: real)
    requires w == l * (1.0 - l) * h * h && e == 3.0 * u + (1.0 + l) * h
    ensures Cube(u + l * h) - Mix(Cube(u), Cube(u + h), l) == -w * e
  {
  }

  lemma Termwise(k0: real, k1: real, k2: real, k3: real, x: real, y: real, z: real, l: real,
                 e1: real, e2: real, e3: real)
    requires x - Mix(y, z, l) == e1
    requires Square(x) - Mix(Square(y), Square(z), l) == e2
    requires Cube(x) - Mix(Cube(y), Cube(z), l) == e3
    ensures Monomials(k0, k1, k2, k3, x) - Mix(Monomials(k0, k1, k2, k3, y), Monomials(k0, k1, k2, k3, z), l) ==
      k1 * e1 + k2 * e2 + k3 * e3
  {
    MixAdd(k0, k1 * y, k2 * Square(y), k3 * Cube(y), k0, k1 * z, k2 * Square(z), k3 * Cube(z), l);
    MixSame(k0, l);
    MixScale(k1, x, y, z, l, e1);
    MixScale(k2, Square(x), Square(y), Square(z), l, e2);
    MixScale(k3, Cube(x), Cube(y), Cube(z), l, e3);
  }

  lemma SecondDerivative(x: real, k1: real, dd0: real, dd1: real, w: real, s: real, e1: real, e2: real, e3: real)
    requires e1 == 0.0 && e2 == -w && e3 == -w * (3.0 * s)
    requires x == k1 * e1 + 3.0 * dd0 * e2 + (dd1 - dd0) * e3
    ensures x == -3.0 * w * Mix(dd0, dd1, s)
  {
  }

  lemma ChordOfMonomials(k0: real, k1: real, dd0: real, dd1: real, u: real, h: real, l: real, w: real, s: real)
    requires w == l * (1.0 - l) * h * h && 3.0 * s == 3.0 * u + (1.0 + l) * h
    ensures Monomials(k0, k1, 3.0 * dd0, dd1 - dd0, u + l * h)
      - Mix(Monomials(k0, k1, 3.0 * dd0, dd1 - dd0, u), Monomials(k0, k1, 3.0 * dd0, dd1 - dd0, u + h), l)
      == -3.0 * w * Mix(dd0, dd1, s)
  {
    var t, v := u + l * h, u + h;
    var e1, e2, e3 := 0.0, -w, -w * (3.0 * s);
    assert t - Mix(u, v, l) == e1;
    hide Monomials, Mix, Square, Cube;
    SquareChord(u, h, l, w);
    CubeChord(u, h, l, w, 3.0 * s);
    Termwise(k0, k1, 3.0 * dd0, dd1 - dd0, t, u, v, l, e1, e2, e3);
    var mt := Monomials(k0, k1, 3.0 * dd0, dd1 - dd0, t);
    var mu, mv := Monomials(k0, k1, 3.0 * dd0, dd1 - dd0, u), Monomials(k0, k1, 3.0 * dd0, dd1 - dd0, v);
    SecondDerivative(mt - Mix(mu, mv, l), k1, dd0, dd1, w, s, e1, e2, e3);
  }

  // Between t = u and t = u + h the cubic differs from its chord by (a product of the distances to
  // both ends) times half its second derivative at a point in between; that derivative is six times
  // a mix of the two second differences of the control points.
  lemma ChordError(a: real, b: real, c: real, d: real, u: real, v: real, h: real, l: real, w: real, s: real)
    requires v == u + h && w == l * (1.0 - l) * h * h && 3.0 * s == 3.0 * u + (1.0 + l) * h
    ensures Casteljau([a, b, c, d], u + l * h) - Mix(Casteljau([a, b, c, d], u), Casteljau([a, b, c, d], v), l)
      == -3.0 * w * Mix(a - 2.0 * b + c, b - 2.0 * c + d, s)
  {
    var t := u + l * h;
    var k1, dd0, dd1 := 3.0 * (b - a), a - 2.0 * b + c, b - 2.0 * c + d;
    InMonomials(a, b, c, d, u);
    InMonomials(a, b, c, d, v);
    InMonomials(a, b, c, d, t);
    ChordOfMonomials(a, k1, dd0, dd1, u, h, l, w, s);
    Replace(Casteljau([a, b, c, d], t), Casteljau([a, b, c, d], u), Casteljau([a, b, c, d], v),
            Monomials(a, k1, 3.0 * dd0, dd1 - dd0, t), Monomials(a, k1, 3.0 * dd0, dd1 - dd0, u),
            Monomials(a, k1, 3.0 * dd0, dd1 - dd0, v), l);
  }

  lemma Replace(x: real, y: real, z: real, x': real, y': real, z': real, l: real)
    requires x == x' && y == y' && z == z'
    ensures x - Mix(y, z, l) == x' - Mix(y', z', l)
  {
  }

  // ---- Both coordinates ----

  // The sizes of the second differences at the two ends.
  function Bend0(c: Control): real {
    Square(c.p1.x - 2.0 * c.p2.x + c.p3.x) + Square(c.p1.y - 2.0 * c.p2.y + c.p3.y)
  }

  function Bend1(c: Control): real {
    Square(c.p2.x - 2.0 * c.p3.x + c.p4.x) + Square(c.p2.y - 2.0 * c.p3.y + c.p4.y)
  }

  // A mix of two vectors is no longer than the longer one.
  lemma MixLength(ex: real, ey: real, fx: real, fy: real, s: real, most: real)
    requires 0.0 <= s <= 1.0
    requires Square(ex) + Square(ey) <= most && Square(fx) + Square(fy) <= most
    ensures Square(Mix(ex, fx, s)) + Square(Mix(ey, fy, s)) <= most
  {
    Convex(ex, fx, s);
    Convex(ey, fy, s);
    MixSum(Square(ex), Square(ey), Square(fx), Square(fy), s, most);
  }

  lemma MixSum(a: real, b: real, c: real, d: real, s: real, most: real)
    requires 0.0 <= s <= 1.0 && a + b <= most && c + d <= most
    ensures Mix(a, c, s) + Mix(b, d, s) <= most
  {
    MixAdd(a, b, 0.0, 0.0, c, d, 0.0, 0.0, s);
    var p, q := (1.0 - s) * (a + b), s * (c + d);
    assert p <= (1.0 - s) * most by { Monotone(1.0 - s, a + b, most); }
    assert q <= s * most by { Monotone(s, c + d, most); }
    assert Mix(a, c, s) + Mix(b, d, s) == p + q;
    assert (1.0 - s) * most + s * most == most by { MixSame(most, s); }
  }

  lemma Convex(a: real, b: real, s: real)
    requires 0.0 <= s <= 1.0
    ensures Square(Mix(a, b, s)) <= Mix(Square(a), Square(b), s)
  {
    assert Mix(Square(a), Square(b), s) - Square(Mix(a, b, s)) == s * (1.0 - s) * Square(a - b);
    ProductSign(s, 1.0 - s);
    SquareSign(a - b);
    ProductSign(s * (1.0 - s), Square(a - b));
  }

  // Over any parameter interval from u to v the squared distance to the chord is at most
  // (3/4 (v - u)^2)^2 times the squared size of the second difference.
  lemma ChordDistance(c: Control, u: real, v: real, t: real, l: real, most: real)
    requires 0.0 <= u <= v <= 1.0 && 0.0 <= l <= 1.0 && t == u + l * (v - u)
    requires Bend0(c) <= most && Bend1(c) <= most
    ensures DistanceSquared(Curve(c, t), Between(Curve(c, u), Curve(c, v), l))
      <= Square(0.75 * ((v - u) * (v - u))) * most
  {
    var h := v - u;
    var s, w := u + (1.0 + l) * h / 3.0, l * (1.0 - l) * h * h;
    InUnit(u, h, l);
    var bendX := ErrorX(c, u, v, t, l, h, w, s);
    var bendY := ErrorY(c, u, v, t, l, h, w, s);
    BendBound(c, s, most, bendX, bendY);
    Parabola(l, h, w);
    var on, off := Curve(c, t), Between(Curve(c, u), Curve(c, v), l);
    Assemble(on.x - off.x, on.y - off.y, w, bendX, bendY, 0.75 * (h * h), most);
  }

  lemma ErrorX(c: Control, u: real, v: real, t: real, l: real, h: real, w: real, s: real) returns (bend: real)
    requires h == v - u && t == u + l * h && w == l * (1.0 - l) * h * h && s == u + (1.0 + l) * h / 3.0
    ensures bend == Mix(c.p1.x - 2.0 * c.p2.x + c.p3.x, c.p2.x - 2.0 * c.p3.x + c.p4.x, s)
    ensures Curve(c, t).x - Mix(Curve(c, u).x, Curve(c, v).x, l) == -3.0 * w * bend
  {
    bend := Mix(c.p1.x - 2.0 * c.p2.x + c.p3.x, c.p2.x - 2.0 * c.p3.x + c.p4.x, s);
    ChordError(c.p1.x, c.p2.x, c.p3.x, c.p4.x, u, v, h, l, w, s);
  }

  lemma ErrorY(c: Control, u: real, v: real, t: real, l: real, h: real, w: real, s: real) returns (bend: real)
    requires h == v - u && t == u + l * h && w == l * (1.0 - l) * h * h && s == u + (1.0 + l) * h / 3.0
    ensures bend == Mix(c.p1.y - 2.0 * c.p2.y + c.p3.y, c.p2.y - 2.0 * c.p3.y + c.p4.y, s)
    ensures Curve(c, t).y - Mix(Curve(c, u).y, Curve(c, v).y, l) == -3.0 * w * bend
  {
    bend := Mix(c.p1.y - 2.0 * c.p2.y + c.p3.y, c.p2.y - 2.0 * c.p3.y + c.p4.y, s);
    ChordError(c.p1.y, c.p2.y, c.p3.y, c.p4.y, u, v, h, l, w, s);
  }

  lemma BendBound(c: Control, s: real, most: real, bendX: real, bendY: real)
    requires 0.0 <= s <= 1.0 && Bend0(c) <= most && Bend1(c) <= most
    requires bendX == Mix(c.p1.x - 2.0 * c.p2.x + c.p3.x, c.p2.x - 2.0 * c.p3.x + c.p4.x, s)
    requires bendY == Mix(c.p1.y - 2.0 * c.p2.y + c.p3.y, c.p2.y - 2.0 * c.p3.y + c.p4.y, s)
    ensures Square(bendX) + Square(bendY) <= most
  {
    MixLength(c.p1.x - 2.0 * c.p2.x + c.p3.x, c.p1.y - 2.0 * c.p2.y + c.p3.y,
              c.p2.x - 2.0 * c.p3.x + c.p4.x, c.p2.y - 2.0 * c.p3.y + c.p4.y, s, most);
  }

  lemma Assemble(dx: real, dy: real, w: real, bendX: real, bendY: real, widest: real, most: real)
    requires dx == -3.0 * w * bendX && dy == -3.0 * w * bendY && 0.0 <= 3.0 * w <= widest
    requires Square(bendX) + Square(bendY) <= most
    ensures Square(dx) + Square(dy) <= Square(widest) * most
  {
    Scaled(-3.0 * w, bendX, bendY);
    SquareSign(bendX);
    SquareSign(bendY);
    Weaken(3.0 * w, widest, Square(bendX) + Square(bendY), most);
  }

  lemma InUnit(u: real, h: real, l: real)
    requires 0.0 <= u && 0.0 <= h && u + h <= 1.0 && 0.0 <= l <= 1.0
    ensures 0.0 <= u + (1.0 + l) * h / 3.0 <= 1.0
  {
    assert 0.0 <= l * h <= h;
  }

  lemma Scaled(k: real, x: real, y: real)
    ensures Square(k * x) + Square(k * y) == Square(-k) * (Square(x) + Square(y))
  {
  }

  lemma Parabola(l: real, h: real, w: real)
    requires 0.0 <= l <= 1.0 && w == l * (1.0 - l) * h * h
    ensures 0.0 <= 3.0 * w <= 0.75 * (h * h)
  {
    var p := l * (1.0 - l);
    assert p == 0.25 - Square(l - 0.5);
    SquareSign(l - 0.5);
    SquareSign(h);
    ProductSign(l, 1.0 - l);
    ProductSign(h * h, p);
    Monotone(h * h, p, 0.25);
    assert w == h * h * p;
  }

  lemma Weaken(a: real, b: real, x: real, y: real)
    requires 0.0 <= a <= b && 0.0 <= x <= y
    ensures Square(a) * x <= Square(b) * y
  {
    Monotone(a, a, b);
    Monotone(b, a, b);
    SquareSign(b);
    Monotone(x, Square(a), Square(b));
    Monotone(Square(b), x, y);
  }

  // ---- The whole polyline ----

  function Steps(i: nat, e: real): real { if i == 0 then 0.0 else Steps(i - 1, e) + e }

  // The vertices of a polyline with step e are points of the curve, and its last step is cut off at 1.
  function Parameter(i: nat, e: real): real { if Steps(i, e) < 1.0 then Steps(i, e) else 1.0 }

  ghost predicate OnCurve(c: Control, poly: seq<Point>, e: real) {
    && |poly| >= 2 && poly[0] == c.p1 && poly[|poly| - 1] == c.p4
    && Steps(|poly| - 2, e) < 1.0 <= Steps(|poly| - 1, e)
    && forall i :: 0 <= i < |poly| ==> poly[i] == Curve(c, Parameter(i, e))
  }

  // The curve point at t lies between vertices i and i + 1, within 0.25 of a point of their chord.
  ghost predicate NearChord(c: Control, t: real, poly: seq<Point>, e: real, i: nat, l: real)
    requires i + 1 < |poly|
  {
    && Parameter(i, e) <= t <= Parameter(i + 1, e) && 0.0 <= l <= 1.0
    && DistanceSquared(Curve(c, t), Between(poly[i], poly[i + 1], l)) <= 0.25 * 0.25
  }

  ghost predicate Near(c: Control, t: real, poly: seq<Point>, e: real) {
    exists i, l :: 0 <= i < |poly| - 1 && NearChord(c, t, poly, e, i, l)
  }

  ghost predicate IsRoot(r: real, x: real) { 0.0 <= r && r * r == x }

  // A step is small enough when e^2 times the length of the second derivative is at most 8 DELTA.
  ghost predicate SmallStep(c: Control, e: real) {
    && 0.0 < e <= 1.0
    && Square(e * e) * (36.0 * MaxReal(Bend0(c), Bend1(c))) <= Square(8.0 * DELTA)
  }

  function Times(i: nat, e: real): real { i as real * e }

  lemma {:induction false} StepCount(i: nat, e: real)
    ensures Steps(i, e) == Times(i, e)
  {
    if i > 0 { StepCount(i - 1, e); }
  }

  // The step for the curve: its square is 8 * 0.25 / dd and at most 1, where dd / 6 is the length of the
  // longer second difference.
  ghost predicate StepFrom(c: Control, root: real, e: real) {
    var x0, y0 := c.p1.x - 2.0 * c.p2.x + c.p3.x, c.p1.y - 2.0 * c.p2.y + c.p3.y;
    var x1, y1 := c.p2.x - 2.0 * c.p3.x + c.p4.x, c.p2.y - 2.0 * c.p3.y + c.p4.y;
    var a, b := x0 * x0 + y0 * y0, x1 * x1 + y1 * y1;
    IsRoot(root, if a < b then b else a) && IsRoot(e, if 6.0 * root < 2.0 then 1.0 else 2.0 / (6.0 * root))
  }

  ghost predicate IsStep(c: Control, e: real) { exists root :: StepFrom(c, root, e) }

  function StepSquared(dd: real): real { if 8.0 * DELTA <= dd then 8.0 * DELTA / dd else 1.0 }

  // n points: n steps reach 1, and n - 1 do not, so n is less than 1 / e + 1.
  predicate Reaches(n: nat, e: real) { n >= 1 && Times(n - 1, e) < 1.0 <= Times(n, e) }

  lemma {:induction false} StepsGrow(i: nat, n: nat, e: real)
    requires 0.0 < e && i <= n
    ensures 0.0 <= Steps(i, e) <= Steps(n, e)
    decreases n
  {
    if n > 0 { StepsGrow(if i == n then n - 1 else i, n - 1, e); }
  }

  lemma Bracket(t: real, e: real, n: nat) returns (i: nat)
    requires 0.0 <= t <= 1.0 && 0.0 < e && Steps(n, e) < 1.0 <= Steps(n + 1, e)
    ensures i <= n && 0.0 <= Parameter(i, e) <= t <= Parameter(i + 1, e) <= 1.0
    ensures 0.0 < Parameter(i + 1, e) - Parameter(i, e) <= e
  {
    i := 0;
    while i < n && Steps(i + 1, e) < t
      invariant i <= n && Steps(i, e) <= t
    {
      i := i + 1;
    }
    StepsGrow(i, n, e);
  }

  lemma StepBound(e: real, h: real, most: real)
    requires 0.0 <= h <= e && 0.0 <= most && Square(e * e) * (36.0 * most) <= 4.0
    ensures Square(0.75 * (h * h)) * most <= 0.0625
  {
    Monotone(h, h, e);
    Monotone(e, h, e);
    Weaken(0.75 * (h * h), 0.75 * (e * e), most, most);
    assert Square(0.75 * (e * e)) * most == 0.5625 * (Square(e * e) * most);
    assert Square(e * e) * (36.0 * most) == 36.0 * (Square(e * e) * most);
  }

  lemma CloseToChord(c: Control, poly: seq<Point>, e: real, t: real)
    requires OnCurve(c, poly, e) && SmallStep(c, e) && 0.0 <= t <= 1.0
    ensures Near(c, t, poly, e)
  {
    var i := Bracket(t, e, |poly| - 2);
    var l := ChordPoint(c, Parameter(i, e), Parameter(i + 1, e), e, t);
    assert NearChord(c, t, poly, e, i, l);
  }

  lemma Proportion(u: real, v: real, t: real) returns (l: real)
    requires u <= t <= v && u < v
    ensures 0.0 <= l <= 1.0 && u + l * (v - u) == t
  {
    var h := v - u;
    l := (t - u) / h;
    assert l * h == t - u;
  }

  lemma ChordPoint(c: Control, u: real, v: real, e: real, t: real) returns (l: real)
    requires SmallStep(c, e) && 0.0 <= u <= t <= v <= 1.0 && 0.0 < v - u <= e
    ensures 0.0 <= l <= 1.0
    ensures DistanceSquared(Curve(c, t), Between(Curve(c, u), Curve(c, v), l)) <= Square(DELTA)
  {
    l := Proportion(u, v, t);
    BendSign(c);
    var most := MaxReal(Bend0(c), Bend1(c));
    ChordDistance(c, u, v, t, l, most);
    StepBound(e, v - u, most);
  }

  lemma BendSign(c: Control)
    ensures 0.0 <= Bend0(c) && 0.0 <= Bend1(c) && 0.0 <= MaxReal(Bend0(c), Bend1(c))
  {
    SquareSign(c.p1.x - 2.0 * c.p2.x + c.p3.x);
    SquareSign(c.p1.y - 2.0 * c.p2.y + c.p3.y);
    SquareSign(c.p2.x - 2.0 * c.p3.x + c.p4.x);
    SquareSign(c.p2.y - 2.0 * c.p3.y + c.p4.y);
  }

  // How the step is chosen: from dd, the largest second derivative, and e2, the square of the step.
  lemma StepIsSmall(c: Control, dd: real, e2: real, e: real, root: real)
    requires IsRoot(root, MaxReal(Bend0(c), Bend1(c))) && dd == 6.0 * root
    requires e2 == (if 8.0 * DELTA <= dd then 8.0 * DELTA / dd else 1.0)
    requires IsRoot(e, e2)
    ensures SmallStep(c, e)
  {
    assert 0.0 < e2 <= 1.0 && 0.0 <= e2 * dd <= 8.0 * DELTA;
    if e > 1.0 { Monotone(e, 1.0, e); }
    assert 36.0 * (root * root) == dd * dd;
    assert Square(e * e) * (dd * dd) == Square(e2 * dd);
    Monotone(e2 * dd, e2 * dd, 8.0 * DELTA);
    Monotone(8.0 * DELTA, e2 * dd, 8.0 * DELTA);
  }

  lemma StepSquaredSign(dd: real)
    ensures 0.0 <= StepSquared(dd)
  {
  }

  lemma StepChosen(c: Control, root: real, e: real)
    requires IsRoot(root, MaxReal(Bend0(c), Bend1(c))) && IsRoot(e, StepSquared(6.0 * root))
    ensures IsStep(c, e) && SmallStep(c, e) && 0.0 < e <= 1.0
  {
    hide IsRoot, Bend0, Bend1, StepFrom, SmallStep;
    RootOfMost(c, root, e);
    StepIsSmall(c, 6.0 * root, StepSquared(6.0 * root), e, root);
    assert IsStep(c, e);
    BelowOne(e, StepSquared(6.0 * root));
  }

  lemma RootOfMost(c: Control, root: real, e: real)
    requires IsRoot(root, MaxReal(Bend0(c), Bend1(c))) && IsRoot(e, StepSquared(6.0 * root))
    ensures StepFrom(c, root, e)
  {
    hide IsRoot;
  }

  lemma BelowOne(e: real, x: real)
    requires IsRoot(e, x) && 0.0 < x <= 1.0
    ensures 0.0 < e <= 1.0
  {
    if e > 1.0 { Monotone(e, 1.0, e); }
  }

  lemma ReachesEnd(c: Control, poly: seq<Point>, e: real)
    requires OnCurve(c, poly, e)
    ensures |poly| >= 2 && Steps(|poly| - 2, e) < 1.0 <= Steps(|poly| - 1, e)
  {
  }

  lemma HowMany(n: nat, e: real)
    requires n >= 1 && Steps(n - 1, e) < 1.0 <= Steps(n, e)
    ensures Reaches(n, e)
  {
    hide Steps, Times;
    StepCount(n - 1, e);
    StepCount(n, e);
  }

  // The square root is the exact one; the corner buffer of the caller comes in and goes out.
  method BezierToPolyline(corners: seq<Point>, p1: Point, p2: Point, p3: Point, p4: Point, sqrt: real -> real)
    returns (buffer: seq<Point>, ghost e: real)
    requires forall x :: 0.0 <= x ==> IsRoot(sqrt(x), x)
    ensures corners <= buffer
    ensures 0.0 < e <= 1.0 && IsStep(Control(p1, p2, p3, p4), e) && Reaches(|buffer| - |corners|, e)
    ensures OnCurve(Control(p1, p2, p3, p4), [p1] + buffer[|corners|..], e)
    ensures forall t :: 0.0 <= t <= 1.0 ==> Near(Control(p1, p2, p3, p4), t, [p1] + buffer[|corners|..], e)
  {
    hide IsRoot, IsStep, SmallStep, Reaches, OnCurve, Near, Bend0, Bend1, MaxReal;
    var c := Control(p1, p2, p3, p4);
    BendSign(c);
    var most := MaxReal(Bend0(c), Bend1(c));
    var dd := 6.0 * sqrt(most);
    var e2 := if 8.0 * DELTA <= dd then 8.0 * DELTA / dd else 1.0;
    StepSquaredSign(dd);
    var epsilon := sqrt(e2);
    StepChosen(c, sqrt(most), epsilon);
    buffer := Flatten(corners, c, epsilon);
    e := epsilon;
    assert Steps(|buffer| - |corners| - 1, e) < 1.0 <= Steps(|buffer| - |corners|, e) by {
      ReachesEnd(c, [p1] + buffer[|corners|..], e);
    }
    HowMany(|buffer| - |corners|, e);
    forall t | 0.0 <= t <= 1.0 ensures Near(c, t, [p1] + buffer[|corners|..], e) {
      CloseToChord(c, [p1] + buffer[|corners|..], e, t);
    }
  }

  // The loop of BezierToPolyline.
  method Flatten(corners: seq<Point>, c: Control, epsilon: real) returns (buffer: seq<Point>)
    requires 0.0 < epsilon
    ensures corners <= buffer && OnCurve(c, [c.p1] + buffer[|corners|..], epsilon)
  {
    buffer := corners;
    CurveEnds(c);
    ghost var poly := [c.p1];
    var t := epsilon;
    while t < 1.0
      invariant |poly| >= 1 && t == Steps(|poly|, epsilon) && Steps(|poly| - 1, epsilon) < 1.0
      invariant corners <= buffer && poly == [c.p1] + buffer[|corners|..]
      invariant forall i :: 0 <= i < |poly| ==> poly[i] == Curve(c, Parameter(i, epsilon))
      decreases (1.0 - t) / epsilon
    {
      var x := Bernstein(c.p1.x, c.p2.x, c.p3.x, c.p4.x, t);
      var y := Bernstein(c.p1.y, c.p2.y, c.p3.y, c.p4.y, t);
      BernsteinIsCurve(c.p1.x, c.p2.x, c.p3.x, c.p4.x, t);
      BernsteinIsCurve(c.p1.y, c.p2.y, c.p3.y, c.p4.y, t);
      buffer := buffer + [Point(x, y)];
      poly := poly + [Point(x, y)];
      Shrinks(t, epsilon);
      t := t + epsilon;
    }
    buffer := buffer + [c.p4];
    assert poly + [c.p4] == [c.p1] + buffer[|corners|..];
  }

  lemma Shrinks(t: real, e: real)
    requires 0.0 < e && t < 1.0
    ensures 0.0 <= (1.0 - t) / e && (1.0 - (t + e)) / e == (1.0 - t) / e - 1.0
  {
    var q, r := (1.0 - t) / e, (1.0 - (t + e)) / e;
    assert q * e == 1.0 - t && r * e == 1.0 - (t + e);
    var x := r - q + 1.0;
    assert x * e == r * e - q * e + e;
    Cancel(x, e);
    if q < 0.0 { ProductSign(-q, e); }
  }

  lemma Cancel(x: real, e: real)
    requires 0.0 < e && x * e == 0.0
    ensures x == 0.0
  {
  }

  lemma CurveEnds(c: Control)
    ensures Curve(c, 0.0) == c.p1 && Curve(c, 1.0) == c.p4
  {
    BernsteinIsCurve(c.p1.x, c.p2.x, c.p3.x, c.p4.x, 0.0);
    BernsteinIsCurve(c.p1.y, c.p2.y, c.p3.y, c.p4.y, 0.0);
    BernsteinIsCurve(c.p1.x, c.p2.x, c.p3.x, c.p4.x, 1.0);
    BernsteinIsCurve(c.p1.y, c.p2.y, c.p3.y, c.p4.y, 1.0);
  }
}
