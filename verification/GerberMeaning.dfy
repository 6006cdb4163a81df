// What is written into a Gerber file, in the characters of the standard, and what a reader gets from it.
module GerberMeaning {
  import opened GerberEscape
  import opened GerberNet
  import opened GerberReplay
  import opened Options

  // ---- Escapes ----

  const HEX_DIGITS: Text := [48, 49, 50, 51, 52, 53, 54, 55, 56, 57, 65, 66, 67, 68, 69, 70]

  // Percent, star, comma and backslash, a quote in quotes, and codes above 127 without UTF-8 become a
  // backslash, a u and four digits; all other characters stay.
  lemma EscapedExactly(c: Code, allowUtf8: bool, quote: bool)
    ensures EncodeAll([c], allowUtf8, quote) ==
      if c in {37, 42, 44, 92} || (quote && c == 34) || (!allowUtf8 && c > 127)
      then
        var v := c % 65536;
        [92, 117, HEX_DIGITS[v / 4096], HEX_DIGITS[v / 256 % 16], HEX_DIGITS[v / 16 % 16], HEX_DIGITS[v % 16]]
      else [c]
  {
    assert [c][..0] == [];
    var v := c % 65536;
    assert v / 16 / 16 / 16 == v / 4096 && v / 16 / 16 == v / 256;
    assert forall d: nat :: d < 16 ==> HexDigit(d) == HEX_DIGITS[d];
  }

  lemma {:induction false} EncodeConcat(a: Text, b: Text, allowUtf8: bool, quote: bool)
    ensures EncodeAll(a + b, allowUtf8, quote) == EncodeAll(a, allowUtf8, quote) + EncodeAll(b, allowUtf8, quote)
  {
    hide EncodeChar;
    if b == [] {
      assert a + b == a;
    } else {
      var s, front := a + b, b[..|b| - 1];
      assert s[..|s| - 1] == a + front && s[|s| - 1] == b[|b| - 1];
      EncodeConcat(a, front, allowUtf8, quote);
    }
  }

  predicate IsHexCode(c: Code) { 48 <= c <= 57 || 65 <= c <= 70 || 97 <= c <= 102 }

  function HexOf(c: Code): nat
    requires IsHexCode(c)
  {
    if c <= 57 then c - 48 else if c <= 70 then c - 55 else c - 87
  }

  // Digits of either case are read; an escape of a control character disappears.
  lemma ReadsEscape(a: Code, b: Code, c: Code, d: Code, rest: Text)
    requires IsHexCode(a) && IsHexCode(b) && IsHexCode(c) && IsHexCode(d)
    ensures var v := HexOf(a) * 4096 + HexOf(b) * 256 + HexOf(c) * 16 + HexOf(d);
      Decode([92, 117, a, b, c, d] + rest) == (if v >= 32 then [v] else []) + Decode(rest)
  {
    hide HexValue;
    var s, h := [92, 117, a, b, c, d] + rest, [a, b, c, d];
    assert s[2..6] == h && s[6..] == rest;
    HexOfIs(a);
    HexOfIs(b);
    HexOfIs(c);
    HexOfIs(d);
    FourHexDigits(a, b, c, d);
    OneEscape(s);
  }

  predicate StartsEscape(s: Text) {
    && |s| >= 6 && s[0] == 92 && s[1] == 117
    && IsHexCode(s[2]) && IsHexCode(s[3]) && IsHexCode(s[4]) && IsHexCode(s[5])
  }

  // Anything else is read as it is.
  lemma ReadsOthers(s: Text)
    requires s != [] && !StartsEscape(s)
    ensures Decode(s) == [s[0]] + Decode(s[1..])
  {
    hide Char2Hex, HexValue, Decode, AllHex, IsHexCode;
    if |s| >= 6 && s[0] == 92 && s[1] == 117 {
      var i := if !IsHexCode(s[2]) then 2 else if !IsHexCode(s[3]) then 3 else if !IsHexCode(s[4]) then 4 else 5;
      NoHexCode(s[i]);
      OneIsNone(s[2..6], i - 2);
    }
    NoEscape(s);
  }

  lemma NoEscape(s: Text)
    requires s != [] && !IsEscape(s)
    ensures Decode(s) == [s[0]] + Decode(s[1..])
  {
  }

  lemma NoHexCode(c: Code)
    requires !IsHexCode(c)
    ensures Char2Hex(c) < 0
  {
  }

  lemma HexOfIs(c: Code)
    requires IsHexCode(c)
    ensures Char2Hex(c) == HexOf(c) < 16
  {
  }

  lemma FourHexDigits(a: Code, b: Code, c: Code, d: Code)
    requires AllHex([a, b, c, d])
    ensures HexValue([a, b, c, d]) == ((Char2Hex(a) * 16 + Char2Hex(b)) * 16 + Char2Hex(c)) * 16 + Char2Hex(d)
  {
    hide Char2Hex;
    var none: Text := [];
    NoDigits(none, 0);
    assert none[0..0] == none;
    AppendDigit([], a);
    AppendDigit([a], b);
    AppendDigit([a, b], c);
    AppendDigit([a, b, c], d);
    assert [] + [a] == [a] && [a] + [b] == [a, b] && [a, b] + [c] == [a, b, c] && [a, b, c] + [d] == [a, b, c, d];
  }

  lemma OneEscape(s: Text)
    requires IsEscape(s)
    ensures Decode(s) == (if EscapeValue(s) >= 32 then [EscapeValue(s)] else []) + Decode(s[6..])
  {
  }

  // ---- Commands ----

  // "%TO.P,", "%TO.N,", "%TO.C," and "%TD", and the "*%" and line feed that end a command, in character
  // codes.
  lemma Printed(a: Attr, v: Text)
    ensures var letter := if a == P then 80 else if a == N then 78 else 67;
      && Print(Set(a, v)) == [37, 84, 79, 46, letter, 44] + v + [42, 37, 10]
      && Print(Remove(a)) == [37, 84, 79, 46, letter, 42, 37, 10]
    ensures Print(Clear) == [37, 84, 68, 42, 37, 10]
  {
    var c := Set(a, v);
    assert Print(c) == [PERCENT] + ([T, O, DOT, Letter(a), COMMA] + v) + EOL;
    assert [PERCENT] + ([T, O, DOT, Letter(a), COMMA] + v) == [PERCENT, T, O, DOT, Letter(a), COMMA] + v;
  }

  // ---- What a request asks for ----

  predicate Representable(s: Text) { forall c :: c in s ==> c < 65536 }

  lemma NameDecodes(s: Text)
    requires Unquoted(s) && Representable(s)
    ensures Decode(ToGerber(s)) == s && 44 !in ToGerber(s)
  {
    RoundTrip(s, false, false);
    EncodedIsClean(s, false, false);
    assert forall i :: 0 <= i < |s| ==> s[i] in s;
    assert Decode([]) == [];
    assert ToGerber(s) == EncodeAll(s, false, false);
  }

  lemma FieldDecodes(f: Field)
    requires f.useUtf8 || Representable(f.text)
    ensures 44 !in FieldText(f)
    ensures Decode(FieldText(f)) == if f.text == [] then [] else if f.quote then [34] + f.text + [34] else f.text
  {
    RoundTrip(f.text, f.useUtf8, f.quote);
    EncodedIsClean(f.text, f.useUtf8, f.quote);
    assert forall i :: 0 <= i < |f.text| ==> f.text[i] in f.text;
  }

  // The parts between commas.
  function Fields(v: Text): (parts: seq<Text>)
    ensures parts != []
  {
    if v == [] then [[]]
    else
      var rest := Fields(v[1..]);
      if v[0] == 44 then [[]] + rest else [[v[0]] + rest[0]] + rest[1..]
  }

  lemma {:induction false} FirstField(a: Text, rest: Text)
    requires 44 !in a
    ensures Fields(a) == [a] && Fields(a + [44] + rest) == [a] + Fields(rest)
  {
    var t := a + [44] + rest;
    if a == [] {
      assert t[0] == 44 && t[1..] == rest;
    } else {
      assert t[0] == a[0] && t[1..] == a[1..] + [44] + rest;
      FirstField(a[1..], rest);
      assert [a[0]] + a[1..] == a;
    }
  }

  // The net attribute: the name, nothing for what cannot be in a net, N/C for what is in none.
  lemma NetRequested(d: NetData)
    requires Unquoted(d.netname) && Representable(d.netname)
    ensures N in Requested(d) <==> d.net
    ensures d.net ==>
      var v := Requested(d)[N];
      if d.netname != [] then Decode(v) == d.netname
      else if d.notInNet then v == []
      else v == [78, 47, 67]
  {
    RequestedValue(d, N);
    NameDecodes(d.netname);
  }

  // The component attribute, which the pad attribute makes superfluous.
  lemma ComponentRequestedIs(d: NetData)
    requires Unquoted(d.cmpref) && Representable(d.cmpref)
    ensures C in Requested(d) <==> d.cmp && !d.pad
    ensures d.cmp && !d.pad ==> Decode(Requested(d)[C]) == d.cmpref
  {
    RequestedValue(d, C);
    NameDecodes(d.cmpref);
  }

  // The pad attribute: component, pad name, and the pin function where both it and the name are given.
  lemma PadRequested(d: NetData)
    requires Unquoted(d.cmpref) && Representable(d.cmpref)
    requires d.padname.useUtf8 || Representable(d.padname.text)
    requires d.pinFunction.useUtf8 || Representable(d.pinFunction.text)
    ensures P in Requested(d) <==> d.pad
    ensures d.pad ==>
      var parts := Fields(Requested(d)[P]);
      && |parts| == (if d.padname.text != [] && d.pinFunction.text != [] then 3 else 2)
      && Decode(parts[0]) == d.cmpref
      && Decode(parts[1]) == Shown(d.padname)
      && (|parts| == 3 ==> Decode(parts[2]) == Shown(d.pinFunction))
  {
    hide ToGerber, FieldText, Decode, Representable;
    RequestedValue(d, P);
    if d.pad { PadFields(d); }
  }

  function Shown(f: Field): Text { if f.quote && f.text != [] then [34] + f.text + [34] else f.text }

  lemma PadFields(d: NetData)
    requires Unquoted(d.cmpref) && Representable(d.cmpref)
    requires d.padname.useUtf8 || Representable(d.padname.text)
    requires d.pinFunction.useUtf8 || Representable(d.pinFunction.text)
    ensures var parts := Fields(PadValue(d));
      && |parts| == (if d.padname.text != [] && d.pinFunction.text != [] then 3 else 2)
      && Decode(parts[0]) == d.cmpref
      && Decode(parts[1]) == Shown(d.padname)
      && (|parts| == 3 ==> Decode(parts[2]) == Shown(d.pinFunction))
  {
    hide ToGerber, FieldText, Representable, Fields;
    NameDecodes(d.cmpref);
    FieldDecodes(d.padname);
    FieldDecodes(d.pinFunction);
    var cmp, pad, pin := ToGerber(d.cmpref), FieldText(d.padname), FieldText(d.pinFunction);
    NoFields();
    if d.padname.text == [] {
      FirstField(cmp, []);
      assert PadValue(d) == cmp + [44] + [];
    } else if d.pinFunction.text == [] {
      FirstField(cmp, pad);
      FirstField(pad, []);
      assert PadValue(d) == cmp + [44] + pad;
    } else {
      FirstField(cmp, pad + [44] + pin);
      FirstField(pad, pin);
      FirstField(pin, []);
      assert PadValue(d) == cmp + [44] + (pad + [44] + pin);
    }
  }

  lemma NoFields()
    ensures Fields([]) == [[]] && Decode([]) == []
  {
  }

  // ---- What a call prints ----

  predicate Asks(d: NetData, a: Attr) {
    match a
    case P => d.pad
    case N => d.net
    case C => d.cmp && !d.pad
  }

  // The dictionary is cleared when an attribute seems to be there that is not asked for, and only
  // without the keep flag.
  lemma ClearsExactly(prev: seq<Command>, d: NetData)
    ensures Format(prev, d).clear <==>
      prev != Request(d) && !d.tryKeepPrevious && exists a: Attr :: Found(prev, a) && !Asks(d, a)
  {
    hide Found, Request;
    AskedDeltas(d);
    forall a: Attr ensures Found(prev, a) && !Asks(d, a) && !d.tryKeepPrevious ==> Clears(prev, d) {}
  }

  lemma AskedDeltas(d: NetData)
    ensures forall a: Attr :: Asks(d, a) <==> Wanted(d, a) != []
  {
  }

  // Only modified or new attributes are printed: a setting that the last request had is not repeated, and
  // what is removed was there and is not asked for.
  lemma OnlyChanges(prev: seq<Command>, d: NetData, a: Attr, v: Text)
    requires IsRequest(prev) && !Format(prev, d).clear
    ensures Set(a, v) in Format(prev, d).commands <==> Set(a, v) in Request(d) && Set(a, v) !in prev
    ensures Remove(a) in Format(prev, d).commands <==>
      prev != Request(d) && Found(prev, a) && !Asks(d, a) && !(a == C && d.pad)
  {
    hide Found, Request, Changes, DeltaOf, PadDelta, NetDelta, CmpDelta, Wanted, Asks;
    AskedDeltas(d);
    RequestHas(d, a, v);
    ChangesHave(prev, d, a, v);
    ClearsIfAny(prev, d, a);
    if prev != Request(d) { OneDelta(prev, d, a, v); }
  }

  lemma RequestHas(d: NetData, a: Attr, v: Text)
    ensures Set(a, v) in Request(d) <==> Set(a, v) in Wanted(d, a)
    ensures Remove(a) !in Request(d)
  {
    hide PadValue, NetValue, ToGerber;
  }

  lemma ChangesHave(prev: seq<Command>, d: NetData, a: Attr, v: Text)
    ensures var x := AttrDelta(prev, d, a);
      && (Set(a, v) in Changes(prev, d) <==> Set(a, v) in x.setting)
      && (Remove(a) in Changes(prev, d) <==> Remove(a) in x.removal)
  {
    hide DeltaOf, PadCommand, NetCommand, CmpCommand, Found;
    DeltaKinds(prev, d, P);
    DeltaKinds(prev, d, N);
    DeltaKinds(prev, d, C);
  }

  lemma DeltaKinds(prev: seq<Command>, d: NetData, a: Attr)
    ensures var x := AttrDelta(prev, d, a);
      && (forall c :: c in x.setting ==> c.Set? && c.attr == a) && (forall c :: c in x.removal ==> c == Remove(a))
  {
    WantedShape(d, a);
  }

  lemma OneDelta(prev: seq<Command>, d: NetData, a: Attr, v: Text)
    requires IsRequest(prev) && !AttrDelta(prev, d, a).clear
    ensures var x := AttrDelta(prev, d, a);
      && (Set(a, v) in x.setting <==> Set(a, v) in Wanted(d, a) && Set(a, v) !in prev)
      && (Remove(a) in x.removal <==> Found(prev, a) && Wanted(d, a) == [] && !(a == C && d.pad))
  {
    hide Found, PadCommand, NetCommand, CmpCommand, IsRequest;
    WantedShape(d, a);
    if Set(a, v) in prev {
      PrevValue(prev, a, v);
      SetIsFound(prev, a);
    }
  }

  // ---- The order of commands ----

  // What is removed comes first, component, net, pad; then what is set, pad, net, component.
  function Rank(c: Command): nat {
    match c
    case Remove(a) => (match a case C => 0 case N => 1 case P => 2)
    case Set(a, _) => (match a case P => 3 case N => 4 case C => 5)
    case Clear => 6
  }

  predicate Ranked(cs: seq<Command>, from: nat, to: nat) {
    && (forall i :: 0 <= i < |cs| ==> from <= Rank(cs[i]) < to)
    && (forall i, j :: 0 <= i < j < |cs| ==> Rank(cs[i]) < Rank(cs[j]))
  }

  lemma RankedJoin(a: seq<Command>, b: seq<Command>, from: nat, middle: nat, to: nat)
    requires from <= middle <= to && Ranked(a, from, middle) && Ranked(b, middle, to)
    ensures Ranked(a + b, from, to)
  {
  }

  lemma InOrder(prev: seq<Command>, d: NetData)
    ensures Ranked(Request(d), 3, 6) && Ranked(Format(prev, d).commands, 0, 6)
  {
    hide Request, Changes, Ranked;
    RequestInOrder(d);
    ChangesInOrder(prev, d);
    assert Ranked([], 0, 6) by { NothingRanked(); }
    assert Ranked([] + Request(d), 0, 6) by { NothingRanked(); RankedJoin([], Request(d), 0, 3, 6); }
    assert [] + Request(d) == Request(d);
  }

  lemma NothingRanked()
    ensures Ranked([], 0, 6) && Ranked([], 0, 3)
  {
  }

  lemma RequestInOrder(d: NetData)
    ensures Ranked(Request(d), 3, 6)
  {
    hide PadCommand, NetCommand, CmpCommand, Ranked;
    WantedRanked(d);
    RankedJoin(Wanted(d, P), Wanted(d, N), 3, 4, 5);
    RankedJoin(Wanted(d, P) + Wanted(d, N), Wanted(d, C), 3, 5, 6);
  }

  lemma WantedRanked(d: NetData)
    ensures Ranked(Wanted(d, P), 3, 4) && Ranked(Wanted(d, N), 4, 5) && Ranked(Wanted(d, C), 5, 6)
  {
    hide PadCommand, NetCommand, CmpCommand;
    WantedShape(d, P);
    WantedShape(d, N);
    WantedShape(d, C);
  }

  lemma DeltaRanked(prev: seq<Command>, d: NetData, a: Attr, k: nat, n: nat)
    requires k == Rank(Remove(a)) && Ranked(Wanted(d, a), n, n + 1)
    ensures Ranked(AttrDelta(prev, d, a).removal, k, k + 1) && Ranked(AttrDelta(prev, d, a).setting, n, n + 1)
  {
    hide Found, PadCommand, NetCommand, CmpCommand;
  }

  lemma ChangesInOrder(prev: seq<Command>, d: NetData)
    ensures Ranked(Changes(prev, d), 0, 6)
  {
    hide PadDelta, NetDelta, CmpDelta, Ranked, Wanted;
    WantedRanked(d);
    DeltaRanked(prev, d, P, 2, 3);
    DeltaRanked(prev, d, N, 1, 4);
    DeltaRanked(prev, d, C, 0, 5);
    var p, n, c := PadDelta(prev, d), NetDelta(prev, d), CmpDelta(prev, d);
    RankedJoin(n.removal, p.removal, 1, 2, 3);
    RankedJoin(c.removal, n.removal + p.removal, 0, 1, 3);
    RankedJoin(p.setting, n.setting, 3, 4, 5);
    RankedJoin(p.setting + n.setting, c.setting, 3, 5, 6);
    RankedJoin(c.removal + (n.removal + p.removal), p.setting + n.setting + c.setting, 0, 3, 6);
  }
}
