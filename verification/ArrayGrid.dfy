// The grid of common/array_options.cpp: order of the items and their two-part labels.
module ArrayGrid {
  import opened Arithmetic
  import opened ArrayNumbering
  import opened Options
  import opened Decimal

  datatype Coords = Coords(x: int, y: int)

  datatype Grid = Grid(nx: int, ny: int, horizontalThenVertical: bool, reverseAlternate: bool) {
    predicate Valid() { nx > 0 && ny > 0 }

    // The length of a run of items, and the number of runs.
    function AxisSize(): int { if horizontalThenVertical then nx else ny }

    function Runs(): int { if horizontalThenVertical then ny else nx }

    function Size(): int { nx * ny }
  }

  // The item at a place of the grid: runs one after the other, every second one backwards if asked.
  function ItemAt(g: Grid, c: Coords): int {
    c.y * g.AxisSize() + if g.reverseAlternate && c.y % 2 == 1 then g.AxisSize() - 1 - c.x else c.x
  }

  predicate Inside(g: Grid, c: Coords) { 0 <= c.x < g.AxisSize() && 0 <= c.y < g.Runs() }

  // ---- getGridCoords ----

  function GridCoords(g: Grid, n: int): Coords
    requires g.Valid()
  {
    var x, y := n % g.AxisSize(), n / g.AxisSize();
    Coords(if g.reverseAlternate && y % 2 == 1 then g.AxisSize() - x - 1 else x, y)
  }

  // Items 0 .. nx*ny - 1 and places of the grid correspond one to one.
  lemma CoordsOfItem(g: Grid, n: int)
    requires g.Valid() && 0 <= n < g.Size()
    ensures Inside(g, GridCoords(g, n)) && ItemAt(g, GridCoords(g, n)) == n
  {
    Division(n, g.AxisSize());
    var y := n / g.AxisSize();
    if y < 0 { Multiple(y, -1, g.AxisSize()); }
    if y >= g.Runs() { Multiple(g.Runs(), y, g.AxisSize()); }
  }

  lemma ItemOfCoords(g: Grid, c: Coords)
    requires g.Valid() && Inside(g, c)
    ensures 0 <= ItemAt(g, c) < g.Size() && GridCoords(g, ItemAt(g, c)) == c
  {
    var r := if g.reverseAlternate && c.y % 2 == 1 then g.AxisSize() - 1 - c.x else c.x;
    Quotient(ItemAt(g, c), c.y, r, g.AxisSize());
    InSize(c.y, r, g.AxisSize(), g.Runs());
  }

  lemma InSize(y: int, r: int, d: int, runs: int)
    requires 0 <= y < runs && 0 <= r < d
    ensures 0 <= y * d + r < d * runs
  {
    Multiple(0, y, d);
    Multiple(y, runs - 1, d);
    assert (runs - 1) * d == d * runs - d;
  }

  // Item by item along a row of nx, or a column of ny; every second one is reversed if that is set.
  lemma Placed(g: Grid, x: int, y: int)
    requires g.Valid()
    requires 0 <= x < (if g.horizontalThenVertical then g.nx else g.ny)
    requires 0 <= y < (if g.horizontalThenVertical then g.ny else g.nx)
    ensures var length := if g.horizontalThenVertical then g.nx else g.ny;
      GridCoords(g, y * length + x) == Coords(if g.reverseAlternate && y % 2 == 1 then length - 1 - x else x, y)
  {
    var length := if g.horizontalThenVertical then g.nx else g.ny;
    Quotient(y * length + x, y, x, length);
  }

  method GetGridCoords(g: Grid, n: int) returns (coords: Coords)
    requires g.Valid() && 0 <= n < g.Size()
    ensures coords == GridCoords(g, n)
    ensures Inside(g, coords) && ItemAt(g, coords) == n
  {
    var axisSize := if g.horizontalThenVertical then g.nx else g.ny;
    var x, y := n % axisSize, n / axisSize;
    if g.reverseAlternate && y % 2 != 0 {
      x := axisSize - x - 1;
    }
    coords := Coords(x, y);
    CoordsOfItem(g, n);
  }

  // ---- Neighbours ----

  function Apart(a: int): int { if a < 0 then -a else a }

  predicate OneStep(a: Coords, b: Coords) { Apart(a.x - b.x) + Apart(a.y - b.y) == 1 }

  ghost predicate AlwaysOneStep(g: Grid)
    requires g.Valid()
  {
    forall n :: 0 <= n && n + 1 < g.Size() ==> Linked(g, n)
  }

  predicate Linked(g: Grid, n: int)
    requires g.Valid()
  {
    OneStep(GridCoords(g, n), GridCoords(g, n + 1))
  }

  // Within a run the next item is next to it; at the end of a run it is so exactly when the next run
  // goes backwards or runs are single items.
  lemma NextItem(g: Grid, n: int)
    requires g.Valid() && 0 <= n
    ensures Linked(g, n) <==> g.reverseAlternate || g.AxisSize() == 1 || n % g.AxisSize() != g.AxisSize() - 1
  {
    NextDivision(n, g.AxisSize());
  }

  lemma NextDivision(n: int, d: int)
    requires d > 0
    ensures n % d < d - 1 ==> (n + 1) / d == n / d && (n + 1) % d == n % d + 1
    ensures n % d == d - 1 ==> (n + 1) / d == n / d + 1 && (n + 1) % d == 0
    ensures 0 <= n % d < d
  {
    Division(n, d);
    var q, r := n / d, n % d;
    if r < d - 1 {
      Quotient(n + 1, q, r + 1, d);
    } else {
      assert n + 1 == (q + 1) * d;
      Quotient(n + 1, q + 1, 0, d);
    }
  }

  // Consecutive items are always one step apart with alternate reversal, and otherwise only in a grid
  // that is one item wide or has a single run.
  lemma Serpentine(g: Grid)
    requires g.Valid()
    ensures AlwaysOneStep(g) <==> g.reverseAlternate || g.AxisSize() == 1 || g.Runs() == 1
  {
    var d := g.AxisSize();
    if g.reverseAlternate || d == 1 {
      forall n | 0 <= n && n + 1 < g.Size() ensures Linked(g, n) { NextItem(g, n); }
    } else if g.Runs() == 1 {
      forall n | 0 <= n && n + 1 < g.Size() ensures Linked(g, n) {
        assert g.Size() == d;
        Quotient(n, 0, n, d);
        NextItem(g, n);
      }
    } else {
      Multiple(2, g.Runs(), d);
      assert g.Size() >= 2 * d;
      Quotient(d - 1, 0, d - 1, d);
      NextItem(g, d - 1);
    }
  }

  // ---- Labels ----

  function PartLabel(a: Axis, n: int): Option<string> { Label(a.numbering, ItemValue(a, n)) }

  function Joined(p: Option<string>, s: Option<string>): Option<string> {
    if p.None? || s.None? then None else Some(p.value + s.value)
  }

  function GridLabel(g: Grid, pri: Axis, sec: Axis, n: int): Option<string>
    requires g.Valid()
  {
    Joined(PartLabel(pri, GridCoords(g, n).x), PartLabel(sec, GridCoords(g, n).y))
  }

  // The first part names the place along the row or column, the second which one it is.
  lemma GridLabelDecodes(g: Grid, pri: Axis, sec: Axis, n: int) returns (p: string, s: string)
    requires g.Valid() && GridLabel(g, pri, sec, n).Some?
    ensures GridLabel(g, pri, sec, n) == Some(p + s)
    ensures Decode(pri.numbering, p) == Some(pri.offset + pri.step * GridCoords(g, n).x)
    ensures Decode(sec.numbering, s) == Some(sec.offset + sec.step * GridCoords(g, n).y)
  {
    hide Label, Decode, GridCoords;
    var c := GridCoords(g, n);
    p, s := PartLabel(pri, c.x).value, PartLabel(sec, c.y).value;
    LabelDecodes(pri.numbering, ItemValue(pri, c.x));
    LabelDecodes(sec.numbering, ItemValue(sec, c.y));
  }

  method GetItemNumber(g: Grid, twoDimensional: bool, pri: ArrayAxis, sec: ArrayAxis, n: int)
    returns (name: Option<string>)
    requires g.Valid() && 0 <= n < g.Size()
    ensures name == if twoDimensional then GridLabel(g, pri.View(), sec.View(), n) else PartLabel(pri.View(), n)
  {
    hide Label, GridCoords;
    if twoDimensional {
      var coords := GetGridCoords(g, n);
      var p := pri.GetItemNumber(coords.x);
      var s := sec.GetItemNumber(coords.y);
      name := Joined(p, s);
    } else {
      name := pri.GetItemNumber(n);
    }
  }

  // One axis counts in letters and the other in decimal digits.
  predicate Distinguishable(a: Axis, b: Axis) {
    (StartsAt0(a.numbering) && b.numbering == Numeric) || (a.numbering == Numeric && StartsAt0(b.numbering))
  }

  lemma LettersOrDigits(t: Numbering, c: char)
    requires c in Alphabet(t)
    ensures t == Numeric ==> IsDigit(c)
    ensures StartsAt0(t) ==> !IsDigit(c)
  {
    AlphabetIncreasing(t);
    Ends(t);
    var k :| 0 <= k < |Alphabet(t)| && Alphabet(t)[k] == c;
    assert Alphabet(t)[0] <= c <= Alphabet(t)[Radix(t) - 1];
  }

  lemma Ends(t: Numbering)
    ensures t == Numeric ==> Alphabet(t)[0] == '0' && Alphabet(t)[Radix(t) - 1] == '9'
    ensures StartsAt0(t) ==> Alphabet(t)[0] == 'A'
  {
  }

  // Where a string of one kind of character is followed by one of the other, the cut is unique.
  lemma UniqueCut(p: string, s: string, p': string, s': string, digits: bool)
    requires p + s == p' + s'
    requires forall i :: 0 <= i < |p| ==> IsDigit(p[i]) == digits
    requires forall i :: 0 <= i < |p'| ==> IsDigit(p'[i]) == digits
    requires forall i :: 0 <= i < |s| ==> IsDigit(s[i]) != digits
    requires forall i :: 0 <= i < |s'| ==> IsDigit(s'[i]) != digits
    ensures p == p' && s == s'
  {
    var t := p + s;
    Kinds(p, s, digits);
    Kinds(p', s', digits);
    assert t[..|p|] == p && t[..|p'|] == p' && t[|p|..] == s && t[|p'|..] == s';
  }

  lemma Kinds(p: string, s: string, digits: bool)
    requires forall i :: 0 <= i < |p| ==> IsDigit(p[i]) == digits
    requires forall i :: 0 <= i < |s| ==> IsDigit(s[i]) != digits
    ensures forall i :: 0 <= i < |p| ==> IsDigit((p + s)[i]) == digits
    ensures |s| > 0 ==> IsDigit((p + s)[|p|]) != digits
  {
  }

  lemma LabelKind(a: Axis, n: int, digits: bool)
    requires PartLabel(a, n).Some?
    requires if digits then a.numbering == Numeric else StartsAt0(a.numbering)
    ensures var s := PartLabel(a, n).value; forall i :: 0 <= i < |s| ==> IsDigit(s[i]) == digits
  {
    hide Label, Alphabet;
    var t, s := a.numbering, PartLabel(a, n).value;
    LabelDecodes(t, ItemValue(a, n));
    forall i | 0 <= i < |s| ensures IsDigit(s[i]) == digits {
      LettersOrDigits(t, s[i]);
    }
  }

  // Equal labels on one axis come from the same index.
  lemma LabelInjective(a: Axis, m: int, n: int)
    requires a.step != 0 && PartLabel(a, m).Some? && PartLabel(a, m) == PartLabel(a, n)
    ensures m == n
  {
    hide Label, Alphabet, Decode, NoZeroDigit;
    LabelDecodes(a.numbering, ItemValue(a, m));
    LabelDecodes(a.numbering, ItemValue(a, n));
    assert a.step * m == a.step * n;
    assert a.step * (m - n) == 0;
  }

  // No two items of a grid share a two-part label, as long as all labels exist.
  lemma LabelsDistinct(g: Grid, pri: Axis, sec: Axis, m: int, n: int)
    requires g.Valid() && 0 <= m < g.Size() && 0 <= n < g.Size() && m != n
    requires Distinguishable(pri, sec) && pri.step != 0 && sec.step != 0
    requires GridLabel(g, pri, sec, m).Some? && GridLabel(g, pri, sec, n).Some?
    ensures GridLabel(g, pri, sec, m) != GridLabel(g, pri, sec, n)
  {
    hide PartLabel, GridCoords, ItemAt;
    if GridLabel(g, pri, sec, m) == GridLabel(g, pri, sec, n) {
      var c, d, digits := GridCoords(g, m), GridCoords(g, n), pri.numbering == Numeric;
      LabelKind(pri, c.x, digits);
      LabelKind(pri, d.x, digits);
      LabelKind(sec, c.y, !digits);
      LabelKind(sec, d.y, !digits);
      UniqueCut(PartLabel(pri, c.x).value, PartLabel(sec, c.y).value,
                PartLabel(pri, d.x).value, PartLabel(sec, d.y).value, digits);
      LabelInjective(pri, c.x, d.x);
      LabelInjective(sec, c.y, d.y);
      CoordsOfItem(g, m);
      CoordsOfItem(g, n);
    }
  }
}
