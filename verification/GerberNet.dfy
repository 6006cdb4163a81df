// FormatNetAttribute of common/gbr_metadata.cpp: a file carries only the changes of the object
// attributes; replaying them must give the dictionary that was asked for.
module GerberNet {
  import opened GerberEscape
  import opened Options

  // ---- Commands, their text, and a reader ----

  // .P pad, .N net, .C component
  datatype Attr = P | N | C

  datatype Command = Set(attr: Attr, value: Text) | Remove(attr: Attr) | Clear

  type Dictionary = map<Attr, Text>

  function Execute(c: Command, d: Dictionary): Dictionary {
    match c
    case Set(a, v) => d[a := v]
    case Remove(a) => d - {a}
    case Clear => map[]
  }

  function ExecuteAll(cs: seq<Command>, d: Dictionary): Dictionary {
    if cs == [] then d else ExecuteAll(cs[1..], Execute(cs[0], d))
  }

  const T: Code := 84
  const O: Code := 79
  const D: Code := 68
  const DOT: Code := 46
  const EOL: Text := [STAR, PERCENT, NEWLINE]

  function Letter(a: Attr): Code {
    match a
    case P => 80
    case N => 78
    case C => 67
  }

  function Body(c: Command): Text {
    match c
    case Set(a, v) => [T, O, DOT, Letter(a), COMMA] + v
    case Remove(a) => [T, O, DOT, Letter(a)]
    case Clear => [T, D]
  }

  // "%TO.P,value*%", "%TO.P*%" or "%TD*%"
  function Print(c: Command): Text { [PERCENT] + Body(c) + EOL }

  function PrintAll(cs: seq<Command>): Text {
    if cs == [] then [] else Print(cs[0]) + PrintAll(cs[1..])
  }

  function UpToStar(t: Text): (n: nat)
    ensures n <= |t|
  {
    if t == [] || t[0] == STAR then 0 else 1 + UpToStar(t[1..])
  }

  function ReadBody(b: Text): Option<Command> {
    if b == [T, D] then Some(Clear)
    else if |b| < 4 || b[..3] != [T, O, DOT] || b[3] !in {80, 78, 67} then None
    else
      var a := if b[3] == 80 then P else if b[3] == 78 then N else C;
      if |b| == 4 then Some(Remove(a))
      else if b[4] == COMMA then Some(Set(a, b[5..]))
      else None
  }

  function Read(t: Text): Option<seq<Command>>
    decreases |t|
  {
    if t == [] then Some([])
    else if t[0] != PERCENT then None
    else
      var n := UpToStar(t[1..]);
      if |t| < n + 4 || t[1 + n..n + 4] != EOL then None
      else
        match (ReadBody(t[1..1 + n]), Read(t[n + 4..]))
        case (Some(c), Some(cs)) => Some([c] + cs)
        case _ => None
  }

  // A value free of the characters that end a command.
  predicate FreeOfEnds(v: Text) { STAR !in v && PERCENT !in v }

  predicate Readable(c: Command) { c.Set? ==> FreeOfEnds(c.value) }

  lemma {:induction false} StarAfter(body: Text, rest: Text)
    requires STAR !in body && rest != [] && rest[0] == STAR
    ensures UpToStar(body + rest) == |body|
  {
    if body == [] {
      assert body + rest == rest;
    } else {
      assert (body + rest)[1..] == body[1..] + rest;
      StarAfter(body[1..], rest);
    }
  }

  lemma ReadBodyOf(c: Command)
    ensures ReadBody(Body(c)) == Some(c)
  {
  }

  lemma StarFree(c: Command)
    requires Readable(c)
    ensures STAR !in Body(c)
  {
  }

  lemma ReadPrinted(c: Command, rest: Text)
    requires Readable(c) && Read(rest).Some?
    ensures Read(Print(c) + rest) == Some([c] + Read(rest).value)
  {
    hide Body, ReadBody, UpToStar;
    var t, b := Print(c) + rest, Body(c);
    assert STAR !in b by { StarFree(c); }
    assert UpToStar(t[1..]) == |b| by {
      assert t[1..] == b + (EOL + rest);
      StarAfter(b, EOL + rest);
    }
    assert t[1..1 + |b|] == b;
    assert t[1 + |b|..|b| + 4] == EOL;
    assert t[|b| + 4..] == rest;
    assert ReadBody(b) == Some(c) by { ReadBodyOf(c); }
  }

  // A file is read back as the commands that were printed.
  lemma {:induction false} ReadAllPrinted(cs: seq<Command>)
    requires forall c :: c in cs ==> Readable(c)
    ensures Read(PrintAll(cs)) == Some(cs)
  {
    if cs != [] {
      ReadAllPrinted(cs[1..]);
      ReadPrinted(cs[0], PrintAll(cs[1..]));
      assert [cs[0]] + cs[1..] == cs;
    }
  }

  // ---- Searching for a command in the last text ----

  predicate Occurs(hay: Text, needle: Text, i: nat) {
    i + |needle| <= |hay| && hay[i..i + |needle|] == needle
  }

  predicate Contains(hay: Text, needle: Text) {
    exists i :: 0 <= i <= |hay| && Occurs(hay, needle, i)
  }

  lemma PrintPrefix(c: Command, c': Command, rest: Text)
    requires Readable(c) && Readable(c') && Print(c') <= Print(c) + rest
    ensures c == c'
  {
    var t, b, b' := Print(c) + rest, Body(c), Body(c');
    hide Body, ReadBody, UpToStar;
    var tail := t[|Print(c')|..];
    assert t == Print(c') + tail;
    assert t[1..] == b + (EOL + rest) == b' + (EOL + tail);
    StarFree(c);
    StarFree(c');
    StarAfter(b, EOL + rest);
    StarAfter(b', EOL + tail);
    assert b == t[1..][..|b|] == b';
    ReadBodyOf(c);
    ReadBodyOf(c');
  }

  lemma OnlyAtEnds(c: Command, i: nat)
    requires Readable(c) && i < |Print(c)| && Print(c)[i] == PERCENT
    ensures i == 0 || (i == |Print(c)| - 2 && Print(c)[i + 1] == NEWLINE)
  {
  }

  lemma OccursInFirst(first: Command, rest: Text, c: Command, i: nat)
    requires Readable(first) && Readable(c) && i < |Print(first)| && Occurs(Print(first) + rest, Print(c), i)
    ensures first == c
  {
    var t := Print(first) + rest;
    var found := t[i..i + |Print(c)|];
    assert t[i] == found[0] == PERCENT && t[i + 1] == found[1] == T;
    assert i + 1 < |Print(first)| ==> t[i + 1] == Print(first)[i + 1];
    OnlyAtEnds(first, i);
    assert found == t[..|Print(c)|];
    PrintPrefix(first, c, rest);
  }

  // Where a printed command occurs in a printed list, it is one of the list.
  lemma {:induction false} OccursAt(cs: seq<Command>, c: Command, i: nat)
    requires Readable(c) && forall k :: k in cs ==> Readable(k)
    requires Occurs(PrintAll(cs), Print(c), i)
    ensures c in cs
  {
    hide Occurs, Print, Readable;
    OccursInside(PrintAll(cs), c, i);
    var n, rest := |Print(cs[0])|, PrintAll(cs[1..]);
    if i >= n {
      OccursLater(Print(cs[0]), rest, Print(c), i);
      OccursAt(cs[1..], c, i - n);
    } else {
      OccursInFirst(cs[0], rest, c, i);
    }
  }

  lemma OccursInside(t: Text, c: Command, i: nat)
    requires Occurs(t, Print(c), i)
    ensures i < |t|
  {
  }

  lemma OccursLater(front: Text, rest: Text, needle: Text, i: nat)
    requires |front| <= i && Occurs(front + rest, needle, i)
    ensures Occurs(rest, needle, i - |front|)
  {
    var j := i - |front|;
    assert rest[j..j + |needle|] == (front + rest)[i..i + |needle|];
  }

  lemma {:induction false} ListedOccurs(cs: seq<Command>, c: Command)
    requires c in cs
    ensures Contains(PrintAll(cs), Print(c))
  {
    var rest := PrintAll(cs[1..]);
    if cs[0] == c {
      assert Occurs(Print(c) + rest, Print(c), 0);
    } else {
      ListedOccurs(cs[1..], c);
      OccursBehind(Print(cs[0]), rest, Print(c));
    }
  }

  lemma OccursBehind(front: Text, rest: Text, needle: Text)
    requires Contains(rest, needle)
    ensures Contains(front + rest, needle)
  {
    var i :| 0 <= i <= |rest| && Occurs(rest, needle, i);
    var j := |front| + i;
    assert (front + rest)[j..j + |needle|] == rest[i..i + |needle|];
    assert Occurs(front + rest, needle, j);
  }

  lemma FindCommand(cs: seq<Command>, c: Command)
    requires Readable(c) && forall k :: k in cs ==> Readable(k)
    ensures Contains(PrintAll(cs), Print(c)) <==> c in cs
  {
    if Contains(PrintAll(cs), Print(c)) {
      var i :| 0 <= i <= |PrintAll(cs)| && Occurs(PrintAll(cs), Print(c), i);
      OccursAt(cs, c, i);
    }
    if c in cs { ListedOccurs(cs, c); }
  }

  // ---- Requests ----

  datatype Field = Field(text: Text, useUtf8: bool, quote: bool)

  datatype NetData = NetData(pad: bool, net: bool, cmp: bool, cmpref: Text, padname: Field, pinFunction: Field,
                             netname: Text, notInNet: bool, tryKeepPrevious: bool)

  const NO_NET_NAME: Text := [78, 47, 67]  // "N/C"

  // GBR_DATA_FIELD::GetGerberString
  function FieldText(f: Field): Text {
    if f.text == [] then [] else Quoted(EncodeAll(f.text, f.useUtf8, f.quote), f.quote)
  }

  function PadValue(d: NetData): Text {
    ToGerber(d.cmpref) + [COMMA] +
      if d.padname.text == [] then []
      else FieldText(d.padname) + if d.pinFunction.text == [] then [] else [COMMA] + FieldText(d.pinFunction)
  }

  function NetValue(d: NetData): Text {
    if d.netname != [] then ToGerber(d.netname) else if d.notInNet then [] else NO_NET_NAME
  }

  function PadCommand(d: NetData): seq<Command> { if d.pad then [Set(P, PadValue(d))] else [] }

  function NetCommand(d: NetData): seq<Command> { if d.net then [Set(N, NetValue(d))] else [] }

  // The pad attribute already names the component.
  function CmpCommand(d: NetData): seq<Command> { if d.cmp && !d.pad then [Set(C, ToGerber(d.cmpref))] else [] }

  function Request(d: NetData): seq<Command> { PadCommand(d) + NetCommand(d) + CmpCommand(d) }

  // Names that are not mistaken for text already quoted and converted.
  predicate Unquoted(s: Text) { s == [] || s[0] != QUOTE || s[|s| - 1] != QUOTE }

  predicate Acceptable(d: NetData) { Unquoted(d.cmpref) && Unquoted(d.netname) }

  // The dictionary a request asks for.
  function Requested(d: NetData): Dictionary { ExecuteAll(Request(d), map[]) }

  lemma CleanIsFree(s: Text)
    requires IsClean(s)
    ensures FreeOfEnds(s)
  {
  }

  lemma FieldIsFree(f: Field)
    ensures FreeOfEnds(FieldText(f))
  {
    EncodedIsClean(f.text, f.useUtf8, f.quote);
    if f.text != [] { CleanIsFree(FieldText(f)); }
  }

  lemma ToGerberIsFree(s: Text)
    requires Unquoted(s)
    ensures FreeOfEnds(ToGerber(s))
  {
    EncodedIsClean(s, false, false);
    if s != [] { CleanIsFree(ToGerber(s)); }
  }

  // A list that some request could have printed: at most one setting of each attribute, in order.
  ghost predicate IsRequest(cs: seq<Command>) {
    exists p, n, c :: IsRequestOf(cs, p, n, c)
  }

  ghost predicate IsRequestOf(cs: seq<Command>, p: seq<Command>, n: seq<Command>, c: seq<Command>) {
    && cs == p + n + c
    && (p == [] || (|p| == 1 && p[0].Set? && p[0].attr == P && FreeOfEnds(p[0].value)))
    && (n == [] || (|n| == 1 && n[0].Set? && n[0].attr == N && FreeOfEnds(n[0].value)))
    && (c == [] || (|c| == 1 && c[0].Set? && c[0].attr == C && FreeOfEnds(c[0].value)))
  }

  lemma RequestIsRequest(d: NetData)
    requires Acceptable(d)
    ensures IsRequestOf(Request(d), PadCommand(d), NetCommand(d), CmpCommand(d)) && IsRequest(Request(d))
  {
    ToGerberIsFree(d.cmpref);
    ToGerberIsFree(d.netname);
    FieldIsFree(d.padname);
    FieldIsFree(d.pinFunction);
    assert IsRequestOf(Request(d), PadCommand(d), NetCommand(d), CmpCommand(d));
  }

  // ---- What a call prints ----

  function Mention(a: Attr): Text { [T, O, DOT, Letter(a), COMMA] }

  // A substring search, so it can also hit a field that happens to end in "TO.N" or the like.
  predicate Found(prev: seq<Command>, a: Attr) { Contains(PrintAll(prev), Mention(a)) }

  // For one attribute: what removes it, what sets it, and whether the dictionary has to be cleared.
  datatype Delta = Delta(removal: seq<Command>, setting: seq<Command>, clear: bool)

  function DeltaOf(prev: seq<Command>, a: Attr, wanted: seq<Command>, keep: bool, removable: bool): Delta {
    if !Found(prev, a) then Delta([], wanted, false)
    else if wanted != [] then Delta([], if wanted[0] in prev then [] else wanted, false)
    else if keep then Delta(if removable then [Remove(a)] else [], [], false)
    else Delta([], [], true)
  }

  datatype Step = Step(commands: seq<Command>, clear: bool)

  function PadDelta(prev: seq<Command>, d: NetData): Delta {
    DeltaOf(prev, P, PadCommand(d), d.tryKeepPrevious, true)
  }

  function NetDelta(prev: seq<Command>, d: NetData): Delta {
    DeltaOf(prev, N, NetCommand(d), d.tryKeepPrevious, true)
  }

  // Where a pad is requested, an old component name is left to be updated by it.
  function CmpDelta(prev: seq<Command>, d: NetData): Delta {
    DeltaOf(prev, C, CmpCommand(d), d.tryKeepPrevious, !d.pad)
  }

  function Changes(prev: seq<Command>, d: NetData): seq<Command> {
    var p, n, c := PadDelta(prev, d), NetDelta(prev, d), CmpDelta(prev, d);
    c.removal + (n.removal + p.removal) + (p.setting + n.setting + c.setting)
  }

  predicate Clears(prev: seq<Command>, d: NetData) {
    PadDelta(prev, d).clear || NetDelta(prev, d).clear || CmpDelta(prev, d).clear
  }

  function Format(prev: seq<Command>, d: NetData): Step {
    if prev == Request(d) then Step([], false)
    else if Clears(prev, d) then Step(Request(d), true)
    else Step(Changes(prev, d), false)
  }

  lemma {:induction false} PrintConcat(a: seq<Command>, b: seq<Command>)
    ensures PrintAll(a + b) == PrintAll(a) + PrintAll(b)
  {
    if a == [] {
      assert a + b == b;
    } else {
      assert (a + b)[1..] == a[1..] + b;
      PrintConcat(a[1..], b);
    }
  }

  lemma PrintNothing()
    ensures PrintAll([]) == []
  {
  }

  lemma PrintOne(c: Command)
    ensures PrintAll([c]) == Print(c) != []
  {
  }

  ghost predicate AllReadable(cs: seq<Command>) { forall c :: c in cs ==> Readable(c) }

  lemma RequestReadable(prev: seq<Command>)
    requires IsRequest(prev)
    ensures AllReadable(prev)
  {
  }

  lemma SameText(a: seq<Command>, b: seq<Command>)
    requires AllReadable(a) && AllReadable(b)
    ensures PrintAll(a) == PrintAll(b) <==> a == b
  {
    ReadAllPrinted(a);
    ReadAllPrinted(b);
  }

  lemma AttributeTexts(d: NetData)
    ensures d.pad ==> PrintAll(PadCommand(d)) == [PERCENT] + [T, O, DOT, Letter(P), COMMA] + PadValue(d) + EOL
    ensures d.net ==> PrintAll(NetCommand(d)) == [PERCENT] + [T, O, DOT, Letter(N), COMMA] + NetValue(d) + EOL
    ensures d.cmp && !d.pad ==>
      PrintAll(CmpCommand(d)) == [PERCENT] + [T, O, DOT, Letter(C), COMMA] + (ToGerber(d.cmpref) + EOL)
  {
  }

  lemma PrintRemoval(a: Attr)
    ensures PrintAll([Remove(a)]) == [PERCENT] + [T, O, DOT, Letter(a)] + EOL
  {
  }

  // The texts FormatNetAttribute assembles are those of the request.
  lemma RequestTexts(d: NetData, pad: Text, net: Text, cmp: Text)
    requires pad == PrintAll(PadCommand(d)) && net == PrintAll(NetCommand(d)) && cmp == PrintAll(CmpCommand(d))
    ensures pad + net + cmp == PrintAll(Request(d))
  {
    PrintConcat(PadCommand(d), NetCommand(d));
    PrintConcat(PadCommand(d) + NetCommand(d), CmpCommand(d));
  }

  // One of the three sections of FormatNetAttribute: what becomes of the attribute a, whose new text
  // is `text`.
  method Update(last: Text, a: Attr, text: Text, keep: bool, removable: bool, short: Text, clearDict: bool,
                ghost prev: seq<Command>, ghost wanted: seq<Command>, ghost removals: seq<Command>,
                ghost settings: seq<Command>)
    returns (short': Text, clearDict': bool)
    requires last == PrintAll(prev) && AllReadable(prev) && text == PrintAll(wanted)
    requires |wanted| <= 1 && AllReadable(wanted)
    requires short == PrintAll(removals + settings)
    ensures var d := DeltaOf(prev, a, wanted, keep, removable);
      short' == PrintAll((d.removal + removals) + (settings + d.setting)) && clearDict' == (clearDict || d.clear)
  {
    hide Print;
    short', clearDict' := short, clearDict;
    ghost var d := DeltaOf(prev, a, wanted, keep, removable);
    PrintNothing();
    if wanted != [] {
      PrintOne(wanted[0]);
      assert wanted == [wanted[0]];
      FindCommand(prev, wanted[0]);
    }
    if Contains(last, Mention(a)) {
      if text == [] {
        if keep {
          if removable {
            short' := [PERCENT] + [T, O, DOT, Letter(a)] + EOL + short';
          }
        } else {
          clearDict' := true;
        }
      } else if !Contains(last, text) {
        short' := short' + text;
      }
    } else {
      short' := short' + text;
    }
    PrintConcat(removals + settings, d.setting);
    PrintConcat(d.removal, removals + settings + d.setting);
    if d.removal != [] { PrintRemoval(a); }
    assert d.removal + (removals + settings + d.setting) == (d.removal + removals) + (settings + d.setting);
  }

  // The first half of FormatNetAttribute: the texts of the requested attributes.
  method AttributeStrings(d: NetData) returns (pad: Text, net: Text, cmp: Text)
    ensures pad == PrintAll(PadCommand(d)) && net == PrintAll(NetCommand(d)) && cmp == PrintAll(CmpCommand(d))
  {
    hide PrintAll, ToGerber, FieldText;
    PrintNothing();
    AttributeTexts(d);
    var prepend: Text := [PERCENT];
    pad, net, cmp := [], [], [];
    if d.pad {
      pad := prepend + [T, O, DOT, Letter(P), COMMA];
      pad := pad + ToGerber(d.cmpref) + [COMMA];
      if d.padname.text != [] {
        pad := pad + FieldText(d.padname);
        if d.pinFunction.text != [] {
          pad := pad + [COMMA];
          pad := pad + FieldText(d.pinFunction);
        }
      }
      pad := pad + EOL;
    }
    if d.net {
      net := prepend + [T, O, DOT, Letter(N), COMMA];
      if d.netname == [] {
        if !d.notInNet {
          net := net + NO_NET_NAME;
        }
      } else {
        net := net + ToGerber(d.netname);
      }
      net := net + EOL;
    }
    if d.cmp && !d.pad {
      cmp := prepend + [T, O, DOT, Letter(C), COMMA];
      cmp := cmp + ToGerber(d.cmpref) + EOL;
    }
  }

  lemma WantedReadable(d: NetData)
    requires AllReadable(Request(d))
    ensures AllReadable(PadCommand(d)) && |PadCommand(d)| <= 1
    ensures AllReadable(NetCommand(d)) && |NetCommand(d)| <= 1
    ensures AllReadable(CmpCommand(d)) && |CmpCommand(d)| <= 1
    ensures PrintAll([]) == [] && (PrintAll(PadCommand(d)) == [] <==> !d.pad)
  {
  }

  method ChangedAttributes(last: Text, d: NetData, pad: Text, net: Text, cmp: Text, ghost prev: seq<Command>)
    returns (short: Text, clearDict: bool)
    requires last == PrintAll(prev) && AllReadable(prev) && AllReadable(Request(d))
    requires pad == PrintAll(PadCommand(d)) && net == PrintAll(NetCommand(d)) && cmp == PrintAll(CmpCommand(d))
    ensures short == PrintAll(Changes(prev, d)) && clearDict == Clears(prev, d)
  {
    hide DeltaOf, PadCommand, NetCommand, CmpCommand, PrintAll;
    WantedReadable(d);
    short, clearDict := [], false;
    ghost var none: seq<Command> := [];
    assert none + none == none;
    ghost var p, n := PadDelta(prev, d), NetDelta(prev, d);
    short, clearDict := Update(last, P, pad, d.tryKeepPrevious, true, short, clearDict, prev, PadCommand(d),
                               none, none);
    assert p.removal + none == p.removal && none + p.setting == p.setting;
    short, clearDict := Update(last, N, net, d.tryKeepPrevious, true, short, clearDict, prev, NetCommand(d),
                               p.removal, p.setting);
    short, clearDict := Update(last, C, cmp, d.tryKeepPrevious, pad == [], short, clearDict, prev, CmpCommand(d),
                               n.removal + p.removal, p.setting + n.setting);
  }

  // GBR_NETLIST_METADATA in X2 form. The caller's strings come in and go out; `prev` is the request
  // whose text `last` holds.
  method FormatNetAttribute(printedText: Text, last: Text, data: Option<NetData>, ghost prev: seq<Command>)
    returns (accepted: bool, printed: Text, last': Text, clear: bool)
    requires last == PrintAll(prev) && IsRequest(prev)
    requires data.Some? ==> Acceptable(data.value)
    ensures accepted <==> data.Some? && (data.value.pad || data.value.net || data.value.cmp)
    ensures !accepted ==> printed == printedText && last' == last && !clear
    ensures accepted ==> last' == PrintAll(Request(data.value)) && clear == Format(prev, data.value).clear
    ensures accepted ==>
      printed == if last' == last then printedText else PrintAll(Format(prev, data.value).commands)
  {
    clear, printed, last' := false, printedText, last;
    if data.None? {
      return false, printed, last', clear;
    }
    var d := data.value;
    if !d.pad && !d.net && !d.cmp {
      return false, printed, last', clear;
    }
    var pad, net, cmp := AttributeStrings(d);
    var full := pad + net + cmp;
    RequestTexts(d, pad, net, cmp);
    RequestIsRequest(d);
    RequestReadable(prev);
    RequestReadable(Request(d));
    SameText(prev, Request(d));

    if last != full {
      var short, clearDict := ChangedAttributes(last, d, pad, net, cmp, prev);
      clear := clearDict;
      last' := full;
      if clearDict {
        printed := full;
      } else {
        printed := short;
      }
    }
    accepted := true;
  }
}
