// Numbering of array items: common/array_axis.cpp and common/array_options.cpp.
module ArrayNumbering {
  import opened Options

  datatype Numbering = Numeric | Hex | AlphaNoIOSQXZ | AlphaFull

  function Radix(t: Numbering): (r: nat)
    ensures r >= 10
  {
    match t
    case Numeric => 10
    case Hex => 16
    case AlphaNoIOSQXZ => 20
    case AlphaFull => 26
  }

  function Alphabet(t: Numbering): (a: string)
    ensures |a| == Radix(t)
  {
    match t
    case Numeric => "0123456789"
    case Hex => "0123456789ABCDEF"
    case AlphaNoIOSQXZ => "ABCDEFGHJKLMNPRTUVWY"
    case AlphaFull => "ABCDEFGHIJKLMNOPQRSTUVWXYZ"
  }

  // Schemes like A, B .. Z, AA, where the columns above the lowest start with the first letter.
  predicate StartsAt0(t: Numbering) { t.AlphaNoIOSQXZ? || t.AlphaFull? }

  function Bonus(t: Numbering): int { if StartsAt0(t) then 1 else 0 }

  // The first position of a character, or -1.
  function Find(a: string, c: char): int {
    if a == "" then -1 else if a[0] == c then 0 else if Find(a[1..], c) == -1 then -1 else 1 + Find(a[1..], c)
  }

  // ---- What a label means ----

  predicate Over(t: Numbering, s: string) { forall i :: 0 <= i < |s| ==> s[i] in Alphabet(t) }

  function Digit(t: Numbering, c: char): int { Find(Alphabet(t), c) }

  // The columns above the lowest one count from 1 in the alphabetic schemes.
  function Upper(t: Numbering, s: string): int {
    if s == "" then 0 else Upper(t, s[..|s| - 1]) * Radix(t) + Digit(t, s[|s| - 1]) + Bonus(t)
  }

  function Decode(t: Numbering, s: string): Option<int> {
    if s == "" || !Over(t, s) then None
    else Some(Upper(t, s[..|s| - 1]) * Radix(t) + Digit(t, s[|s| - 1]))
  }

  lemma DecodeNothing(t: Numbering)
    ensures Decode(t, "") == None
  {
  }

  lemma NoColumns(t: Numbering)
    ensures Upper(t, "") == 0 && Over(t, "")
  {
  }

  lemma DecodeLast(t: Numbering, s: string, c: char)
    requires Over(t, s) && c in Alphabet(t)
    ensures Decode(t, s + [c]) == Some(Upper(t, s) * Radix(t) + Digit(t, c))
    ensures Upper(t, s + [c]) == Upper(t, s) * Radix(t) + Digit(t, c) + Bonus(t)
    ensures Over(t, s + [c])
  {
    hide Radix, Alphabet, Digit;
    assert (s + [c])[..|s|] == s;
  }

  // One column further to the left.
  function Shifted(t: Numbering, n: int): int { n * Radix(t) }

  lemma AppendColumn(t: Numbering, s: string, i: nat, up: int, d: int)
    requires i < |s| && s[i] in Alphabet(t) && Over(t, s[..i])
    requires up == Upper(t, s[..i]) && d == Digit(t, s[i])
    ensures Over(t, s[..i + 1])
    ensures Upper(t, s[..i + 1]) == Shifted(t, up) + d + Bonus(t)
  {
    hide Radix, Alphabet, Upper, Over, Decode, Digit;
    assert s[..i + 1] == s[..i] + [s[i]];
    DecodeLast(t, s[..i], s[i]);
  }

  lemma DecodeIsUpper(t: Numbering, s: string)
    requires s != "" && Over(t, s)
    ensures Decode(t, s) == Some(Upper(t, s) - Bonus(t))
  {
    hide Radix, Alphabet, Digit;
  }

  lemma NotOver(t: Numbering, s: string, i: nat)
    requires i < |s| && s[i] !in Alphabet(t)
    ensures Decode(t, s) == None
  {
  }

  lemma OverFront(t: Numbering, s: string)
    requires s != "" && Over(t, s)
    ensures Over(t, s[..|s| - 1]) && s[|s| - 1] in Alphabet(t) && s == s[..|s| - 1] + [s[|s| - 1]]
  {
  }

  // ---- Alphabets have no repeated letter ----

  predicate Increasing(a: string) { forall i, j :: 0 <= i < j < |a| ==> a[i] < a[j] }

  lemma AlphabetIncreasing(t: Numbering)
    ensures Increasing(Alphabet(t))
  {
    match t
    case Numeric => AdjacentIncreasing("0123456789");
    case Hex => AdjacentIncreasing("0123456789ABCDEF");
    case AlphaNoIOSQXZ => AdjacentIncreasing("ABCDEFGHJKLMNPRTUVWY");
    case AlphaFull => AdjacentIncreasing("ABCDEFGHIJKLMNOPQRSTUVWXYZ");
  }

  lemma {:induction false} AdjacentIncreasing(a: string)
    requires forall i :: 0 < i < |a| ==> a[i - 1] < a[i]
    ensures Increasing(a)
  {
    if |a| > 0 {
      var b := a[..|a| - 1];
      AdjacentIncreasing(b);
      forall i, j | 0 <= i < j < |a| ensures a[i] < a[j] {
        if j < |b| { assert b[i] < b[j]; }
        else if i < j - 1 { assert b[i] < b[j - 1]; assert a[j - 1] < a[j]; }
      }
    }
  }

  lemma {:induction false} FindAt(a: string, k: nat)
    requires Increasing(a) && k < |a|
    ensures Find(a, a[k]) == k
  {
    if k > 0 {
      assert a[0] < a[k];
      assert Increasing(a[1..]) && a[1..][k - 1] == a[k];
      FindAt(a[1..], k - 1);
    }
  }

  lemma {:induction false} FindRange(a: string, c: char)
    ensures if c in a then 0 <= Find(a, c) < |a| && a[Find(a, c)] == c else Find(a, c) == -1
  {
    if a != "" && a[0] != c { FindRange(a[1..], c); }
  }

  lemma DigitOf(t: Numbering, k: nat)
    requires k < Radix(t)
    ensures Digit(t, Alphabet(t)[k]) == k
  {
    AlphabetIncreasing(t);
    FindAt(Alphabet(t), k);
  }

  lemma DivMod(t: Numbering, n: nat)
    ensures n == n / Radix(t) * Radix(t) + n % Radix(t) && 0 <= n % Radix(t) < Radix(t)
    ensures 0 <= n / Radix(t) && (n > 0 ==> n / Radix(t) < n)
  {
  }

  // ---- What the encoder produces ----

  // The upper columns by plain division; None where it would index the alphabet with -1.
  function UpperLabel(t: Numbering, n: nat): Option<string> {
    if n == 0 then Some("")
    else if n % Radix(t) < Bonus(t) then None
    else
      match UpperLabel(t, n / Radix(t))
      case None => None
      case Some(s) => Some(s + [Alphabet(t)[n % Radix(t) - Bonus(t)]])
  }

  function Label(t: Numbering, v: int): Option<string> {
    if v < 0 then None
    else
      match UpperLabel(t, v / Radix(t))
      case None => None
      case Some(s) => Some(s + [Alphabet(t)[v % Radix(t)]])
  }

  // All digits of n to the base of the radix are non-zero.
  predicate NoZeroDigit(n: nat, radix: nat)
    requires radix >= 2
  {
    n == 0 || (n % radix != 0 && NoZeroDigit(n / radix, radix))
  }

  lemma {:induction false} UpperLabelDecodes(t: Numbering, n: nat)
    ensures UpperLabel(t, n).Some? <==> !StartsAt0(t) || NoZeroDigit(n, Radix(t))
    ensures UpperLabel(t, n).Some? ==>
      Over(t, UpperLabel(t, n).value) && Upper(t, UpperLabel(t, n).value) == n
  {
    hide Radix, Alphabet, Digit, Upper, Over;
    NoColumns(t);
    if n > 0 {
      DivMod(t, n);
      UpperLabelDecodes(t, n / Radix(t));
      if UpperLabel(t, n).Some? {
        var s, k := UpperLabel(t, n / Radix(t)).value, n % Radix(t) - Bonus(t);
        DigitOf(t, k);
        DecodeLast(t, s, Alphabet(t)[k]);
      }
    }
  }

  // The label exists exactly for the non-negative values that have, in the alphabetic schemes, no
  // zero digit above the lowest; and then it reads back as the value.
  lemma LabelDecodes(t: Numbering, v: int)
    ensures Label(t, v).Some? <==> v >= 0 && (!StartsAt0(t) || NoZeroDigit(v / Radix(t), Radix(t)))
    ensures Label(t, v).Some? ==> Decode(t, Label(t, v).value) == Some(v)
  {
    hide Radix, Alphabet, Digit, UpperLabel, NoZeroDigit, Upper;
    if v >= 0 {
      DivMod(t, v);
      UpperLabelDecodes(t, v / Radix(t));
      if Label(t, v).Some? {
        var s, k := UpperLabel(t, v / Radix(t)).value, v % Radix(t);
        DigitOf(t, k);
        DecodeLast(t, s, Alphabet(t)[k]);
      }
    }
  }

  // 676 is 1, 0, 0 to the base of 26 letters; 26 is 1, 0.
  lemma NoLabel()
    ensures Label(AlphaFull, 676) == None && Label(AlphaFull, 26) == Some("AA")
  {
    assert UpperLabel(AlphaFull, 26) == None && UpperLabel(AlphaFull, 0) == Some("");
    assert UpperLabel(AlphaFull, 1) == Some("" + [Alphabet(AlphaFull)[0]]);
    assert "" + ['A'] + ['A'] == "AA";
  }

  // ---- Alphabetic decoding is a bijection ----

  // Bijective numeration: the columns of n when every column counts from 1.
  function UpperNumeral(t: Numbering, n: nat): string
    decreases n
  {
    if n == 0 then "" else
      DivMod(t, n - 1);
      UpperNumeral(t, (n - 1) / Radix(t)) + [Alphabet(t)[(n - 1) % Radix(t)]]
  }

  // The one string that decodes to v.
  function Numeral(t: Numbering, v: nat): string {
    DivMod(t, v);
    UpperNumeral(t, v / Radix(t)) + [Alphabet(t)[v % Radix(t)]]
  }

  lemma {:induction false} UpperNumeralDecodes(t: Numbering, n: nat)
    requires StartsAt0(t)
    ensures Over(t, UpperNumeral(t, n)) && Upper(t, UpperNumeral(t, n)) == n
  {
    if n > 0 {
      hide Radix, Alphabet, Digit, Over, Upper;
      DivMod(t, n - 1);
      var s, k := UpperNumeral(t, (n - 1) / Radix(t)), (n - 1) % Radix(t);
      UpperNumeralDecodes(t, (n - 1) / Radix(t));
      DigitOf(t, k);
      DecodeLast(t, s, Alphabet(t)[k]);
    }
  }

  // Every value is the decoding of a label ...
  lemma NumeralDecodes(t: Numbering, v: nat)
    requires StartsAt0(t)
    ensures Decode(t, Numeral(t, v)) == Some(v)
  {
    hide Radix, Alphabet, Digit, Over, Upper, UpperNumeral;
    DivMod(t, v);
    UpperNumeralDecodes(t, v / Radix(t));
    DigitOf(t, v % Radix(t));
    DecodeLast(t, UpperNumeral(t, v / Radix(t)), Alphabet(t)[v % Radix(t)]);
  }

  lemma DigitRange(t: Numbering, c: char)
    requires c in Alphabet(t)
    ensures 0 <= Digit(t, c) < Radix(t) && Alphabet(t)[Digit(t, c)] == c
  {
    FindRange(Alphabet(t), c);
  }

  lemma QuotientRemainder(t: Numbering, q: int, k: int)
    requires 0 <= k < Radix(t) && 0 <= q
    ensures 0 <= q * Radix(t) + k
    ensures (q * Radix(t) + k) / Radix(t) == q && (q * Radix(t) + k) % Radix(t) == k
  {
  }

  lemma {:induction false} NumeralOfUpper(t: Numbering, s: string)
    requires StartsAt0(t) && Over(t, s)
    ensures Upper(t, s) >= 0 && UpperNumeral(t, Upper(t, s)) == s
  {
    hide Radix, Alphabet, Digit, Upper, Over;
    NoColumns(t);
    if s != "" {
      OverFront(t, s);
      var front, c := s[..|s| - 1], s[|s| - 1];
      NumeralOfUpper(t, front);
      DigitRange(t, c);
      QuotientRemainder(t, Upper(t, front), Digit(t, c));
      DecodeLast(t, front, c);
    }
  }

  // ... and of no other label.
  lemma NumeralOfDecoded(t: Numbering, s: string)
    requires StartsAt0(t) && s != "" && Over(t, s)
    ensures Decode(t, s).Some? && Decode(t, s).value >= 0 && Numeral(t, Decode(t, s).value) == s
  {
    hide Radix, Alphabet, Digit, Upper, UpperNumeral, Over, Decode;
    OverFront(t, s);
    var front, c := s[..|s| - 1], s[|s| - 1];
    NumeralOfUpper(t, front);
    DigitRange(t, c);
    QuotientRemainder(t, Upper(t, front), Digit(t, c));
    DecodeLast(t, front, c);
  }

  // ---- In literal characters ----

  function Letters(t: Numbering): string {
    match t
    case Numeric => "0123456789"
    case Hex => "0123456789ABCDEF"
    case AlphaNoIOSQXZ => "ABCDEFGHJKLMNPRTUVWY"
    case AlphaFull => "ABCDEFGHIJKLMNOPQRSTUVWXYZ"
  }

  // A character is worth its place among the letters; behind others it adds to their value times the
  // number of letters, one more in the alphabetic schemes, so that AA comes behind Z.
  lemma DecodesBy(t: Numbering, s: string, i: nat)
    requires i < |Letters(t)|
    ensures var c, base, first := Letters(t)[i], |Letters(t)|, if t == Numeric || t == Hex then 0 else 1;
      && Decode(t, [c]) == Some(i)
      && (Decode(t, s).Some? ==> Decode(t, s + [c]) == Some((Decode(t, s).value + first) * base + i))
    ensures |Letters(t)| == match t case Numeric => 10 case Hex => 16 case AlphaNoIOSQXZ => 20 case AlphaFull => 26
  {
    hide Alphabet, Radix, Letters, Digit, Upper;
    SameLetters(t);
    DigitOf(t, i);
    NoColumns(t);
    var c := Letters(t)[i];
    DecodeLast(t, "", c);
    assert "" + [c] == [c];
    if Decode(t, s).Some? {
      DecodeLast(t, s, c);
      UpperOf(t, s);
    }
  }

  lemma SameLetters(t: Numbering)
    ensures Letters(t) == Alphabet(t) && |Letters(t)| == Radix(t)
    ensures |Letters(t)| == match t case Numeric => 10 case Hex => 16 case AlphaNoIOSQXZ => 20 case AlphaFull => 26
  {
  }

  lemma UpperOf(t: Numbering, s: string)
    requires Decode(t, s).Some?
    ensures Over(t, s) && Upper(t, s) == Decode(t, s).value + if t == Numeric || t == Hex then 0 else 1
  {
    hide Alphabet, Radix, Digit;
  }

  // What cannot be decoded: nothing, and texts with another character.
  lemma NotDecoded(t: Numbering, s: string)
    ensures Decode(t, s).Some? <==> s != "" && forall i :: 0 <= i < |s| ==> s[i] in Letters(t)
  {
    hide Alphabet, Upper, Letters;
    SameLetters(t);
  }

  // ---- The axis ----

  datatype Axis = Axis(numbering: Numbering, offset: int, step: int)

  function ItemValue(a: Axis, n: int): int { a.offset + a.step * n }

  // What item n is labelled with reads back as its place on the axis, and item 0 as the offset.
  lemma ItemReadsBack(a: Axis, n: int)
    ensures var name := Label(a.numbering, ItemValue(a, n));
      name.Some? ==> Decode(a.numbering, name.value) == Some(a.offset + a.step * n)
    ensures var name := Label(a.numbering, ItemValue(a, 0));
      name.Some? ==> Decode(a.numbering, name.value) == Some(a.offset)
  {
    hide Label, Decode;
    LabelDecodes(a.numbering, ItemValue(a, n));
    LabelDecodes(a.numbering, ItemValue(a, 0));
  }

  // `%` and `/` on a machine integer round towards zero.
  function CDiv(n: int, d: int): int
    requires d > 0
  {
    if n >= 0 then n / d else -(-n / d)
  }

  function CMod(n: int, d: int): int
    requires d > 0
  {
    n - d * CDiv(n, d)
  }

  class ArrayAxis {
    var numbering: Numbering
    var offset: int
    var step: int

    constructor ()
      ensures View() == Axis(Numeric, 0, 1)
    {
      numbering, offset, step := Numeric, 0, 1;
    }

    function View(): Axis
      reads this
    {
      Axis(numbering, offset, step)
    }

    method GetNumberingOffset(str: string) returns (r: Option<int>)
      ensures r == Decode(numbering, str)
    {
      hide Radix, Alphabet, Upper, Find, Over, Decode, Shifted, StartsAt0;
      DecodeNothing(numbering);
      if |str| == 0 {
        return None;
      }
      NoColumns(numbering);
      var offset := 0;
      for i := 0 to |str|
        invariant Over(numbering, str[..i])
        invariant offset == Upper(numbering, str[..i]) - if i == |str| then Bonus(numbering) else 0
      {
        var chIndex := Find(Alphabet(numbering), str[i]);
        FindRange(Alphabet(numbering), str[i]);
        if chIndex == -1 {
          NotOver(numbering, str, i);
          return None;
        }
        AppendColumn(numbering, str, i, offset, chIndex);
        if StartsAt0(numbering) && i < |str| - 1 {
          chIndex := chIndex + 1;
        }
        offset := Shifted(numbering, offset);
        offset := offset + chIndex;
      }
      assert str[..|str|] == str;
      DecodeIsUpper(numbering, str);
      return Some(offset);
    }

    method SetAxisType(t: Numbering)
      modifies this
      ensures View() == old(View()).(numbering := t)
    {
      numbering := t;
    }

    method SetOffset(name: string) returns (ok: bool)
      modifies this
      ensures ok == Decode(old(numbering), name).Some?
      ensures View() == if ok then old(View()).(offset := Decode(old(numbering), name).value) else old(View())
    {
      var o := GetNumberingOffset(name);
      if o == None {
        return false;
      }
      offset := o.value;
      return true;
    }

    method SetStep(aStep: int)
      modifies this
      ensures View() == old(View()).(step := aStep)
    {
      step := aStep;
    }

    // None stands for indexing the alphabet outside its bounds.
    method GetItemNumber(item: int) returns (name: Option<string>)
      ensures name == Label(numbering, offset + step * item)
    {
      hide Radix, Alphabet, CDiv, CMod;
      var itemNum := "";
      var firstRound := true;
      var radix := Radix(numbering);
      var n := offset + step * item;
      ghost var v := n;
      while true
        invariant firstRound ==> n == v && itemNum == ""
        invariant !firstRound && v < 0 ==> n < 0
        invariant !firstRound && v >= 0 ==> n > 0 && Label(numbering, v) == Append(UpperLabel(numbering, n), itemNum)
        decreases (if n < 0 then -n else n), firstRound
      {
        MachineDivision(numbering, n);
        if v >= 0 {
          LabelStep(numbering, n, firstRound, itemNum);
        }
        var modN := CMod(n, radix);
        if StartsAt0(numbering) && !firstRound {
          modN := modN - 1;
        }
        if modN < 0 {
          return None;
        }
        itemNum := [Alphabet(numbering)[modN]] + itemNum;
        n := CDiv(n, radix);
        firstRound := false;
        if n == 0 {
          break;
        }
      }
      assert Append(Some(""), itemNum) == Some(itemNum) by { assert "" + itemNum == itemNum; }
      return Some(itemNum);
    }
  }

  // One round of the loop.
  lemma LabelStep(t: Numbering, n: nat, first: bool, back: string)
    requires first ==> back == ""
    ensures var k := n % Radix(t) - if first then 0 else Bonus(t);
      (if first then Label(t, n) else Append(UpperLabel(t, n), back)) ==
        if n == 0 && !first then Some(back)
        else if k < 0 then None
        else Append(UpperLabel(t, n / Radix(t)), [Alphabet(t)[k]] + back)
    ensures UpperLabel(t, 0) == Some("")
  {
    hide Radix, Alphabet;
    DivMod(t, n);
    var k := n % Radix(t) - if first then 0 else Bonus(t);
    var u := UpperLabel(t, n / Radix(t));
    assert "" + back == back;
    if u.Some? && k >= 0 {
      var c := [Alphabet(t)[k]];
      assert u.value + (c + back) == u.value + c + back;
      assert c + "" == c;
    }
  }

  function Append(front: Option<string>, back: string): Option<string> {
    if front.None? then None else Some(front.value + back)
  }

  lemma MachineDivision(t: Numbering, n: int)
    ensures n >= 0 ==> CMod(n, Radix(t)) == n % Radix(t) && CDiv(n, Radix(t)) == n / Radix(t)
    ensures n >= 0 ==> 0 <= n % Radix(t) < Radix(t) && 0 <= n / Radix(t) && (n > 0 ==> n / Radix(t) < n)
    ensures n < 0 ==> CMod(n, Radix(t)) <= 0
    ensures n < 0 && CMod(n, Radix(t)) == 0 ==> n < CDiv(n, Radix(t)) < 0
  {
  }
}
