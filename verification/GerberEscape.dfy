// The escape codec of common/gbr_metadata.cpp: characters that separate Gerber fields are written as
// \uXXXX and read back.
module GerberEscape {

  // A string is a sequence of character codes.
  type Code = c: int | 0 <= c < 0x110000
  type Text = seq<Code>

  const NEWLINE: Code := 10
  const QUOTE: Code := 34
  const PERCENT: Code := 37
  const STAR: Code := 42
  const COMMA: Code := 44
  const BACKSLASH: Code := 92
  const LOWER_U: Code := 117

  // ---- Writing ----

  // One digit as printf("%X") prints it.
  function HexDigit(d: nat): Code
    requires d < 16
  {
    if d < 10 then 48 + d else 55 + d
  }

  // "\uXXXX"; only the lowest 16 bits of the code are kept.
  function Escape(c: Code): Text {
    var v := c % 0x10000;
    [BACKSLASH, LOWER_U,
     HexDigit(v / 16 / 16 / 16), HexDigit(v / 16 / 16 % 16), HexDigit(v / 16 % 16), HexDigit(v % 16)]
  }

  predicate MustEscape(c: Code, allowUtf8: bool, quote: bool) {
    || c == BACKSLASH || c == PERCENT || c == STAR || c == COMMA
    || (c == QUOTE && quote)
    || (!allowUtf8 && c > 0x7F)
  }

  function EncodeChar(c: Code, allowUtf8: bool, quote: bool): Text {
    if MustEscape(c, allowUtf8, quote) then Escape(c) else [c]
  }

  function EncodeAll(s: Text, allowUtf8: bool, quote: bool): Text {
    if s == [] then [] else EncodeAll(s[..|s| - 1], allowUtf8, quote) + EncodeChar(s[|s| - 1], allowUtf8, quote)
  }

  lemma EncodeNone(allowUtf8: bool, quote: bool)
    ensures EncodeAll([], allowUtf8, quote) == []
  {
  }

  lemma EncodeNext(s: Text, i: nat, allowUtf8: bool, quote: bool)
    requires i < |s|
    ensures EncodeAll(s[..i + 1], allowUtf8, quote) ==
      EncodeAll(s[..i], allowUtf8, quote) + EncodeChar(s[i], allowUtf8, quote)
  {
    assert s[..i + 1][..i] == s[..i];
  }

  function Quoted(s: Text, quote: bool): Text { if quote then [QUOTE] + s + [QUOTE] else s }

  method ConvertNotAllowedCharsInGerber(s: Text, allowUtf8: bool, quote: bool) returns (txt: Text)
    ensures txt == Quoted(EncodeAll(s, allowUtf8, quote), quote)
  {
    hide Escape, EncodeAll;
    EncodeNone(allowUtf8, quote);
    txt := [];
    if quote {
      txt := txt + [QUOTE];
    }
    ghost var open := txt;
    for ii := 0 to |s|
      invariant txt == open + EncodeAll(s[..ii], allowUtf8, quote)
    {
      var code := s[ii];
      var convert := false;
      if code == BACKSLASH || code == PERCENT || code == STAR || code == COMMA {
        convert := true;
      } else if code == QUOTE {
        if quote {
          convert := true;
        }
      }
      if !allowUtf8 && code > 0x7F {
        convert := true;
      }
      if convert {
        txt := txt + Escape(code);
      } else {
        txt := txt + [code];
      }
      EncodeNext(s, ii, allowUtf8, quote);
    }
    assert s[..|s|] == s;
    if quote {
      txt := txt + [QUOTE];
    }
  }

  // Text between quotes is taken to be converted already.
  function ToGerber(s: Text): Text {
    if s != [] && (s[0] != QUOTE || s[|s| - 1] != QUOTE) then EncodeAll(s, false, false) else s
  }

  method FormatStringToGerber(s: Text) returns (txt: Text)
    ensures txt == ToGerber(s)
  {
    if s != [] && (s[0] != QUOTE || s[|s| - 1] != QUOTE) {
      txt := ConvertNotAllowedCharsInGerber(s, false, false);
    } else {
      txt := s;
    }
  }

  // ---- Reading ----

  function Char2Hex(code: Code): int {
    if 48 <= code <= 57 then code - 48
    else if 65 <= code <= 70 then code - 65 + 10
    else if 97 <= code <= 102 then code - 97 + 10
    else -1
  }

  predicate AllHex(digits: Text) {
    forall c :: c in digits ==> Char2Hex(c) >= 0
  }

  function HexValue(digits: Text): (v: nat)
    requires AllHex(digits)
  {
    if digits == [] then 0 else HexValue(digits[..|digits| - 1]) * 16 + Char2Hex(digits[|digits| - 1])
  }

  predicate IsEscape(s: Text) {
    |s| >= 6 && s[0] == BACKSLASH && s[1] == LOWER_U && AllHex(s[2..6])
  }

  function EscapeValue(s: Text): (v: Code)
    requires IsEscape(s)
  {
    FourDigits(s[2..6]);
    HexValue(s[2..6])
  }

  lemma AppendDigit(d: Text, c: Code)
    requires AllHex(d) && Char2Hex(c) >= 0
    ensures AllHex(d + [c]) && HexValue(d + [c]) == HexValue(d) * 16 + Char2Hex(c)
  {
  }

  lemma OneMoreDigit(d: Text, limit: nat)
    requires d != [] && AllHex(d) && HexValue(d[..|d| - 1]) < limit
    ensures HexValue(d) < 16 * limit
  {
  }

  lemma FourDigits(d: Text)
    requires |d| == 4 && AllHex(d)
    ensures HexValue(d) < 0x10000
  {
    assert d[..3][..2] == d[..2] && d[..2][..1] == d[..1];
    assert d[..1][..0] == [] && HexValue([]) < 1;
    OneMoreDigit(d[..1], 1);
    OneMoreDigit(d[..2], 0x10);
    OneMoreDigit(d[..3], 0x100);
    OneMoreDigit(d, 0x1000);
  }

  // What a text means: each \uXXXX stands for its character (or nothing, for a control character),
  // everything else for itself.
  function Decode(s: Text): Text {
    if s == [] then []
    else if IsEscape(s) then (if EscapeValue(s) >= 32 then [EscapeValue(s)] else []) + Decode(s[6..])
    else [s[0]] + Decode(s[1..])
  }

  predicate EscapeAt(s: Text, i: nat) {
    i + 6 <= |s| && s[i] == BACKSLASH && s[i + 1] == LOWER_U && AllHex(s[i + 2..i + 6])
  }

  // What has been read, followed by what is still to be read.
  ghost function Total(txt: Text, s: Text, i: nat): Text
    requires i <= |s|
  {
    txt + Decode(s[i..])
  }

  lemma ReadEscape(txt: Text, s: Text, i: nat)
    requires i < |s| && EscapeAt(s, i)
    ensures var v := HexValue(s[i + 2..i + 6]);
      0 <= v < 0x10000 && Total(txt, s, i) == Total(if v >= 32 then txt + [v as Code] else txt, s, i + 6)
  {
    var rest := s[i..];
    assert rest[2..6] == s[i + 2..i + 6] && rest[6..] == s[i + 6..];
    FourDigits(s[i + 2..i + 6]);
  }

  lemma ReadPlain(txt: Text, s: Text, i: nat)
    requires i < |s| && !EscapeAt(s, i)
    ensures Total(txt, s, i) == Total(txt + [s[i]], s, i + 1)
  {
  }

  // Reading a wide string at its length gives the terminating zero.
  function CharAt(s: Text, i: nat): Code
    requires i <= |s|
  {
    if i < |s| then s[i] else 0
  }

  lemma NulIsNoDigit()
    ensures Char2Hex(0) < 0
  {
  }

  lemma NoDigits(s: Text, i: nat)
    requires i <= |s|
    ensures AllHex(s[i..i]) && HexValue(s[i..i]) == 0
  {
  }

  lemma OneIsNone(digits: Text, j: nat)
    requires j < |digits| && Char2Hex(digits[j]) < 0
    ensures !AllHex(digits)
  {
  }

  // The inner loop of FormatStringFromGerber, behind a "\\u" at ii.
  method ReadDigits(s: Text, ii: nat) returns (error: bool, value: nat)
    requires ii + 2 <= |s|
    ensures error <==> ii + 6 > |s| || !AllHex(s[ii + 2..ii + 6])
    ensures !error ==> value == HexValue(s[ii + 2..ii + 6])
  {
    hide Char2Hex, AllHex, HexValue;
    NulIsNoDigit();
    NoDigits(s, ii + 2);
    value, error := 0, false;
    for jj := 0 to 4
      invariant ii + 2 + jj <= |s| && AllHex(s[ii + 2..ii + 2 + jj])
      invariant !error && value == HexValue(s[ii + 2..ii + 2 + jj])
    {
      var code := CharAt(s, ii + jj + 2);
      var hexa := Char2Hex(code);
      if hexa >= 0 {
        AppendDigit(s[ii + 2..ii + 2 + jj], code);
        assert s[ii + 2..ii + 2 + jj + 1] == s[ii + 2..ii + 2 + jj] + [code];
        value := value * 16 + hexa;
      } else {
        if ii + 6 <= |s| { OneIsNone(s[ii + 2..ii + 6], jj); }
        return true, value;
      }
    }
  }

  // The loop bound `count - 5` is unsigned, so it wraps around for texts shorter than five; no index
  // gets past the terminating zero even then, and the result is the same.
  method FormatStringFromGerber(s: Text) returns (txt: Text)
    requires |s| < 0x1_0000_0000
    ensures txt == Decode(s)
  {
    txt := [];
    var count := |s|;
    var bound := if count >= 5 then count - 5 else count - 5 + 0x1_0000_0000;
    var ii := 0;
    while ii < count
      invariant ii <= |s| && Total(txt, s, ii) == Total([], s, 0)
    {
      var escape := false;
      if s[ii] == BACKSLASH && ii < bound && CharAt(s, ii + 1) == LOWER_U {
        var error, value := ReadDigits(s, ii);
        if !error {
          ReadEscape(txt, s, ii);
          escape := true;
          if value >= 32 {
            txt := txt + [value];
          }
          ii := ii + 5;
        }
      }
      if !escape {
        ReadPlain(txt, s, ii);
        txt := txt + [s[ii]];
      }
      ii := ii + 1;
    }
    assert s[count..] == [] && s[0..] == s;
    assert Total(txt, s, count) == txt && Total([], s, 0) == Decode(s);
  }

  // ---- The round trip ----

  lemma ReadHexDigit(d: nat)
    requires d < 16
    ensures Char2Hex(HexDigit(d)) == d
  {
  }

  lemma EscapeReadsBack(c: Code, rest: Text)
    ensures IsEscape(Escape(c) + rest) && EscapeValue(Escape(c) + rest) == c % 0x10000
  {
    var v, s := c % 0x10000, Escape(c) + rest;
    var d3, d2, d1, d0 := v / 16 / 16 / 16, v / 16 / 16 % 16, v / 16 % 16, v % 16;
    ReadHexDigit(d3);
    ReadHexDigit(d2);
    ReadHexDigit(d1);
    ReadHexDigit(d0);
    AppendDigit([], HexDigit(d3));
    AppendDigit([] + [HexDigit(d3)], HexDigit(d2));
    AppendDigit([] + [HexDigit(d3)] + [HexDigit(d2)], HexDigit(d1));
    AppendDigit([] + [HexDigit(d3)] + [HexDigit(d2)] + [HexDigit(d1)], HexDigit(d0));
    assert s[2..6] == [] + [HexDigit(d3)] + [HexDigit(d2)] + [HexDigit(d1)] + [HexDigit(d0)];
    assert v == ((d3 * 16 + d2) * 16 + d1) * 16 + d0;
  }

  // The text a reader gets back: escaped codes lose what does not fit in 16 bits, and control
  // characters produced that way disappear.
  function Survives(c: Code, allowUtf8: bool, quote: bool): Text {
    if !MustEscape(c, allowUtf8, quote) then [c]
    else if c % 0x10000 >= 32 then [c % 0x10000]
    else []
  }

  function SurvivesAll(s: Text, allowUtf8: bool, quote: bool): Text {
    if s == [] then [] else Survives(s[0], allowUtf8, quote) + SurvivesAll(s[1..], allowUtf8, quote)
  }

  lemma {:induction false} EncodeCons(s: Text, allowUtf8: bool, quote: bool)
    requires s != []
    ensures EncodeAll(s, allowUtf8, quote) == EncodeChar(s[0], allowUtf8, quote) + EncodeAll(s[1..], allowUtf8, quote)
  {
    if |s| > 1 {
      EncodeCons(s[..|s| - 1], allowUtf8, quote);
      assert s[..|s| - 1][1..] == s[1..][..|s| - 2];
    } else {
      assert s[..0] == [] && s[1..] == [];
    }
  }

  lemma DecodeChar(c: Code, rest: Text, allowUtf8: bool, quote: bool)
    ensures Decode(EncodeChar(c, allowUtf8, quote) + rest) == Survives(c, allowUtf8, quote) + Decode(rest)
  {
    var s := EncodeChar(c, allowUtf8, quote) + rest;
    if MustEscape(c, allowUtf8, quote) {
      EscapeReadsBack(c, rest);
      assert s[6..] == rest;
    } else {
      assert s[1..] == rest;
    }
  }

  lemma {:induction false} DecodeEncoded(s: Text, rest: Text, allowUtf8: bool, quote: bool)
    ensures Decode(EncodeAll(s, allowUtf8, quote) + rest) == SurvivesAll(s, allowUtf8, quote) + Decode(rest)
  {
    hide Decode, EncodeChar, Survives;
    if s == [] {
      assert EncodeAll(s, allowUtf8, quote) + rest == rest;
      assert SurvivesAll(s, allowUtf8, quote) + Decode(rest) == Decode(rest);
    } else {
      EncodeCons(s, allowUtf8, quote);
      var head, tail := EncodeChar(s[0], allowUtf8, quote), EncodeAll(s[1..], allowUtf8, quote) + rest;
      assert EncodeAll(s, allowUtf8, quote) + rest == head + tail;
      DecodeChar(s[0], tail, allowUtf8, quote);
      DecodeEncoded(s[1..], rest, allowUtf8, quote);
    }
  }

  // An escaped character is lost exactly when it does not fit in 16 bits.
  ghost predicate Lossless(s: Text, allowUtf8: bool, quote: bool) {
    allowUtf8 || forall i :: 0 <= i < |s| ==> s[i] < 0x10000
  }

  lemma SurvivesOne(c: Code, allowUtf8: bool, quote: bool)
    ensures var s := Survives(c, allowUtf8, quote);
      |s| <= 1 && (s == [c] <==> allowUtf8 || c < 0x10000) && (s != [] && s != [c] ==> s[0] != c)
  {
  }

  lemma {:induction false} SurvivesUnchanged(s: Text, allowUtf8: bool, quote: bool)
    ensures |SurvivesAll(s, allowUtf8, quote)| <= |s|
    ensures SurvivesAll(s, allowUtf8, quote) == s <==> Lossless(s, allowUtf8, quote)
  {
    if s != [] {
      hide Survives;
      SurvivesUnchanged(s[1..], allowUtf8, quote);
      SurvivesOne(s[0], allowUtf8, quote);
      var first, rest := Survives(s[0], allowUtf8, quote), SurvivesAll(s[1..], allowUtf8, quote);
      assert first + rest == s <==> first == [s[0]] && rest == s[1..] by {
        if first + rest == s && first != [] {
          assert first[0] == (first + rest)[0] && rest == (first + rest)[1..];
        }
      }
      assert forall i :: 0 <= i < |s| - 1 ==> s[1..][i] == s[i + 1];
    }
  }

  // Reading undoes writing, for exactly the texts without such characters.
  lemma RoundTrip(s: Text, allowUtf8: bool, quote: bool)
    ensures Decode(Quoted(EncodeAll(s, allowUtf8, quote), quote)) == Quoted(s, quote)
            <==> Lossless(s, allowUtf8, quote)
  {
    hide EncodeAll, SurvivesAll, Lossless, Decode;
    var e, r := EncodeAll(s, allowUtf8, quote), SurvivesAll(s, allowUtf8, quote);
    SurvivesUnchanged(s, allowUtf8, quote);
    if quote {
      DecodeEncoded(s, [QUOTE], allowUtf8, quote);
      DecodeQuote([]);
      DecodeQuote(e + [QUOTE]);
      assert [QUOTE] + (e + [QUOTE]) == Quoted(e, quote);
      assert Decode(Quoted(e, quote)) == [QUOTE] + (r + [QUOTE]) == Quoted(r, quote);
      QuotedInjective(r, s);
    } else {
      DecodeEncoded(s, [], allowUtf8, quote);
      DecodeQuote([]);
      assert e + [] == e && r + [] == r;
    }
  }

  lemma QuotedInjective(r: Text, s: Text)
    ensures Quoted(r, true) == Quoted(s, true) <==> r == s
  {
    var q, t := Quoted(r, true), Quoted(s, true);
    assert q[1..|q| - 1] == r && t[1..|t| - 1] == s;
  }

  lemma DecodeQuote(rest: Text)
    ensures Decode([]) == [] && Decode([QUOTE] + rest) == [QUOTE] + Decode(rest)
    ensures Decode([QUOTE]) == [QUOTE]
  {
  }

  // ---- Nothing that separates fields is left ----

  predicate Separator(c: Code) { c == PERCENT || c == STAR || c == COMMA }

  ghost predicate IsClean(s: Text) {
    && (forall i :: 0 <= i < |s| ==> !Separator(s[i]))
    && (forall i :: 0 <= i < |s| && s[i] == BACKSLASH ==> IsEscape(s[i..]))
  }

  lemma CleanConcat(a: Text, b: Text)
    requires IsClean(a) && IsClean(b)
    ensures IsClean(a + b)
  {
    var s := a + b;
    forall i | 0 <= i < |s| && s[i] == BACKSLASH ensures IsEscape(s[i..]) {
      if i < |a| {
        assert s[i..] == a[i..] + b && s[i..][2..6] == a[i..][2..6];
      } else {
        assert s[i..] == b[i - |a|..];
      }
    }
  }

  lemma EscapeShape(c: Code)
    ensures var e := Escape(c);
      |e| == 6 && e[0] == BACKSLASH && forall i :: 0 < i < 6 ==> !Separator(e[i]) && e[i] != BACKSLASH
  {
  }

  lemma CleanChar(c: Code, allowUtf8: bool, quote: bool)
    ensures IsClean(EncodeChar(c, allowUtf8, quote))
  {
    if MustEscape(c, allowUtf8, quote) {
      hide Escape, IsEscape;
      EscapeReadsBack(c, []);
      EscapeShape(c);
      assert Escape(c) + [] == Escape(c) && Escape(c)[0..] == Escape(c);
    }
  }

  lemma {:induction false} EncodedIsClean(s: Text, allowUtf8: bool, quote: bool)
    ensures IsClean(EncodeAll(s, allowUtf8, quote)) && IsClean(Quoted(EncodeAll(s, allowUtf8, quote), quote))
  {
    var e := EncodeAll(s, allowUtf8, quote);
    if s != [] {
      EncodedIsClean(s[..|s| - 1], allowUtf8, quote);
      CleanChar(s[|s| - 1], allowUtf8, quote);
      CleanConcat(EncodeAll(s[..|s| - 1], allowUtf8, quote), EncodeChar(s[|s| - 1], allowUtf8, quote));
    }
    CleanConcat([QUOTE], e);
    CleanConcat([QUOTE] + e, [QUOTE]);
  }
}
