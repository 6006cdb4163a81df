// What a reader of the Gerber file ends up with: the delta encoder replayed, on its own and as
// GERBER_PLOTTER (common/plotters/GERBER_plotter.cpp) uses it.
module GerberReplay {
  import opened GerberEscape
  import opened GerberNet
  import opened Options

  function Get(d: Dictionary, a: Attr): Option<Text> { if a in d then Some(d[a]) else None }

  lemma SameDictionary(d: Dictionary, e: Dictionary)
    requires Get(d, P) == Get(e, P) && Get(d, N) == Get(e, N) && Get(d, C) == Get(e, C)
    ensures d == e
  {
    forall a: Attr ensures a in d <==> a in e {
      match a case P => case N => case C =>
    }
    forall a: Attr | a in d ensures d[a] == e[a] {
      match a case P => case N => case C =>
    }
  }

  lemma {:induction false} ExecuteConcat(a: seq<Command>, b: seq<Command>, d: Dictionary)
    ensures ExecuteAll(a + b, d) == ExecuteAll(b, ExecuteAll(a, d))
  {
    if a == [] {
      assert a + b == b;
    } else {
      assert (a + b)[1..] == a[1..] + b;
      ExecuteConcat(a[1..], b, Execute(a[0], d));
    }
  }

  // At most one command, about the attribute a.
  predicate Concerns(cs: seq<Command>, a: Attr) {
    cs == [] || (|cs| == 1 && !cs[0].Clear? && cs[0].attr == a)
  }

  function Lookup(cs: seq<Command>, before: Option<Text>): Option<Text> {
    if cs == [] then before else if cs[0].Set? then Some(cs[0].value) else None
  }

  lemma ExecuteOne(cs: seq<Command>, a: Attr, d: Dictionary, b: Attr)
    requires Concerns(cs, a)
    ensures Get(ExecuteAll(cs, d), b) == if a == b then Lookup(cs, Get(d, b)) else Get(d, b)
  {
  }

  // Three such lists about different attributes do not interfere.
  lemma ExecuteThree(x: seq<Command>, y: seq<Command>, z: seq<Command>, a: Attr, b: Attr, c: Attr, d: Dictionary,
      k: Attr)
    requires Concerns(x, a) && Concerns(y, b) && Concerns(z, c) && a != b && b != c && a != c
    ensures Get(ExecuteAll(x + y + z, d), k) == Lookup(if k == a then x else if k == b then y else z, Get(d, k))
  {
    ExecuteConcat(x + y, z, d);
    ExecuteConcat(x, y, d);
    var d1 := ExecuteAll(x, d);
    var d2 := ExecuteAll(y, d1);
    ExecuteOne(x, a, d, k);
    ExecuteOne(y, b, d1, k);
    ExecuteOne(z, c, d2, k);
    assert k == a || k == b || k == c by { AllAttributes(a, b, c, k); }
  }

  lemma AllAttributes(a: Attr, b: Attr, c: Attr, k: Attr)
    requires a != b && b != c && a != c
    ensures k in {a, b, c}
  {
  }

  // ---- One call ----

  // The dictionary after a call whose caller clears it first when told to.
  function After(s: Step, d: Dictionary): Dictionary {
    ExecuteAll(s.commands, if s.clear then map[] else d)
  }

  function DictionaryOf(cs: seq<Command>): Dictionary { ExecuteAll(cs, map[]) }

  function Wanted(d: NetData, a: Attr): seq<Command> {
    match a
    case P => PadCommand(d)
    case N => NetCommand(d)
    case C => CmpCommand(d)
  }

  function AttrDelta(prev: seq<Command>, d: NetData, a: Attr): Delta {
    match a
    case P => PadDelta(prev, d)
    case N => NetDelta(prev, d)
    case C => CmpDelta(prev, d)
  }

  lemma RequestedValue(d: NetData, a: Attr)
    ensures Get(Requested(d), a) == Lookup(Wanted(d, a), None)
  {
    ExecuteThree(PadCommand(d), NetCommand(d), CmpCommand(d), P, N, C, map[], a);
  }

  lemma PiecesValue(p: Delta, n: Delta, c: Delta, dict: Dictionary, a: Attr)
    requires Concerns(p.removal, P) && Concerns(n.removal, N) && Concerns(c.removal, C)
    requires Concerns(p.setting, P) && Concerns(n.setting, N) && Concerns(c.setting, C)
    ensures var x := if a == P then p else if a == N then n else c;
      Get(ExecuteAll(c.removal + (n.removal + p.removal) + (p.setting + n.setting + c.setting), dict), a)
        == Lookup(x.setting, Lookup(x.removal, Get(dict, a)))
  {
    var removals, settings := c.removal + n.removal + p.removal, p.setting + n.setting + c.setting;
    assert removals == c.removal + (n.removal + p.removal);
    ExecuteConcat(removals, settings, dict);
    ExecuteThree(c.removal, n.removal, p.removal, C, N, P, dict, a);
    ExecuteThree(p.setting, n.setting, c.setting, P, N, C, ExecuteAll(removals, dict), a);
  }

  lemma ChangesValue(prev: seq<Command>, d: NetData, dict: Dictionary, a: Attr)
    ensures var x := AttrDelta(prev, d, a);
      Get(ExecuteAll(Changes(prev, d), dict), a) == Lookup(x.setting, Lookup(x.removal, Get(dict, a)))
  {
    PiecesValue(PadDelta(prev, d), NetDelta(prev, d), CmpDelta(prev, d), dict, a);
  }

  // The dictionary of a request holds exactly what the request sets.
  lemma PrevValue(prev: seq<Command>, a: Attr, v: Text)
    requires IsRequest(prev)
    ensures Get(DictionaryOf(prev), a) == Some(v) <==> Set(a, v) in prev
  {
    var p, n, c :| IsRequestOf(prev, p, n, c);
    ExecuteThree(p, n, c, P, N, C, map[], a);
  }

  // What a request set is found again.
  lemma SetIsFound(prev: seq<Command>, a: Attr)
    requires IsRequest(prev) && a in DictionaryOf(prev)
    ensures Found(prev, a)
  {
    hide Print, PrintAll, Mention, DictionaryOf, IsRequest;
    var c := Set(a, DictionaryOf(prev)[a]);
    PrevValue(prev, a, c.value);
    ListedOccurs(prev, c);
    var t := PrintAll(prev);
    var i :| 0 <= i <= |t| && Occurs(t, Print(c), i);
    PrintMentions(c);
    OccursWithin(t, Print(c), Mention(a), i);
  }

  lemma PrintMentions(c: Command)
    requires c.Set?
    ensures |Print(c)| >= 6 && Print(c)[1..6] == Mention(c.attr) && |Mention(c.attr)| == 5
  {
  }

  lemma OccursWithin(t: Text, x: Text, y: Text, i: nat)
    requires Occurs(t, x, i) && |x| >= 6 && x[1..6] == y
    ensures Contains(t, y)
  {
    SubSlice(t, i, i + |x|, 1, 6);
    assert Occurs(t, y, i + 1);
  }

  lemma SubSlice(t: Text, i: nat, j: nat, k: nat, l: nat)
    requires i <= j <= |t| && k <= l <= j - i
    ensures t[i..j][k..l] == t[i + k..i + l]
  {
    var a, b := t[i..j][k..l], t[i + k..i + l];
    forall m | 0 <= m < |a| ensures a[m] == b[m] {
      assert a[m] == t[i..j][k + m];
    }
    assert a == b;
  }

  // What one attribute contributes.
  lemma DeltaMeaning(prev: seq<Command>, d: NetData, a: Attr)
    ensures var x, w := AttrDelta(prev, d, a), Wanted(d, a);
      && (w != [] ==> !x.clear && x.removal == [] && (x.setting == w || (x.setting == [] && w[0] in prev)))
      && (w == [] && !x.clear ==> x.setting == [])
      && (w == [] && !x.clear ==> x.removal == if Found(prev, a) && (a != C || !d.pad) then [Remove(a)] else [])
  {
  }

  // The value of one attribute after a call, from a dictionary that may hold more than the last
  // request asked for (`held`), but agrees with it where it asked for something.
  lemma AfterValue(prev: seq<Command>, d: NetData, dict: Dictionary, a: Attr)
    requires IsRequest(prev) && Acceptable(d)
    requires a in DictionaryOf(prev) ==> Get(dict, a) == Get(DictionaryOf(prev), a)
    ensures a in Requested(d) ==> Get(After(Format(prev, d), dict), a) == Get(Requested(d), a)
    ensures Format(prev, d).clear ==> After(Format(prev, d), dict) == Requested(d)
    ensures prev != Request(d) && !Format(prev, d).clear && a !in Requested(d) ==>
      Get(After(Format(prev, d), dict), a) ==
        if Found(prev, a) && (a != C || !d.pad) then None else Get(dict, a)
    ensures prev == Request(d) ==> After(Format(prev, d), dict) == dict
  {
    hide DeltaOf, PadDelta, NetDelta, CmpDelta, Wanted, Found, Request, Changes;
    RequestedValue(d, a);
    ChangesValue(prev, d, dict, a);
    DeltaMeaning(prev, d, a);
    WantedShape(d, a);
    ClearsIfAny(prev, d, a);
    var w := Wanted(d, a);
    if w != [] {
      PrevValue(prev, a, w[0].value);
    }
  }

  lemma WantedShape(d: NetData, a: Attr)
    ensures var w := Wanted(d, a); w == [] || (|w| == 1 && w[0].Set? && w[0].attr == a)
  {
  }

  lemma ClearsIfAny(prev: seq<Command>, d: NetData, a: Attr)
    ensures AttrDelta(prev, d, a).clear ==> Clears(prev, d)
  {
  }

  // Without m_TryKeepPreviousAttributes the reader's dictionary is exactly the one asked for.
  lemma ExactAfterCall(prev: seq<Command>, d: NetData)
    requires IsRequest(prev) && Acceptable(d) && !d.tryKeepPrevious
    ensures After(Format(prev, d), DictionaryOf(prev)) == Requested(d)
  {
    var dict := DictionaryOf(prev);
    forall a: Attr ensures Get(After(Format(prev, d), dict), a) == Get(Requested(d), a) {
      AfterValue(prev, d, dict, a);
      RequestedValue(d, a);
      if a in dict { SetIsFound(prev, a); }
    }
    SameDictionary(After(Format(prev, d), dict), Requested(d));
  }

  // What holds with it, too: .P and .N agree, and so does .C when it is asked for.
  ghost predicate Agrees(dict: Dictionary, wanted: Dictionary) {
    && Get(dict, P) == Get(wanted, P)
    && Get(dict, N) == Get(wanted, N)
    && (C in wanted ==> Get(dict, C) == Get(wanted, C))
  }

  lemma AgreesAfterCall(prev: seq<Command>, d: NetData, dict: Dictionary)
    requires IsRequest(prev) && Acceptable(d) && Agrees(dict, DictionaryOf(prev))
    ensures Agrees(After(Format(prev, d), dict), Requested(d))
  {
    forall a: Attr ensures a in DictionaryOf(prev) ==> Found(prev, a) {
      if a in DictionaryOf(prev) { SetIsFound(prev, a); }
    }
    AfterValue(prev, d, dict, P);
    AfterValue(prev, d, dict, N);
    AfterValue(prev, d, dict, C);
  }

  // One call, from any dictionary that agrees with the last request: it is exact unless a component
  // name that is not asked for stays in the dictionary. It goes when the dictionary is cleared, and when
  // the last request seems to mention it and no pad is asked for.
  lemma ExactlyWhen(prev: seq<Command>, d: NetData, dict: Dictionary)
    requires IsRequest(prev) && Acceptable(d) && Agrees(dict, DictionaryOf(prev))
    ensures After(Format(prev, d), dict) == Requested(d) <==>
      C !in dict || C in Requested(d) || Drops(prev, d)
    ensures C in After(Format(prev, d), dict) <==> C in Requested(d) || (C in dict && !Drops(prev, d))
  {
    var after := After(Format(prev, d), dict);
    AgreesAfterCall(prev, d, dict);
    AfterValue(prev, d, dict, C);
    RequestedValue(d, C);
    ClearsIfAny(prev, d, C);
    if Get(after, C) == Get(Requested(d), C) {
      SameDictionary(after, Requested(d));
    }
  }

  // The call gets rid of a component name it does not ask for.
  predicate Drops(prev: seq<Command>, d: NetData) {
    Format(prev, d).clear || (prev != Request(d) && Found(prev, C) && !d.pad)
  }

  // ---- A sequence of calls ----

  function CallCommands(prev: seq<Command>, d: NetData): seq<Command> {
    var s := Format(prev, d);
    (if s.clear then [Clear] else []) + s.commands
  }

  // Calls that select no attribute are refused and change nothing.
  predicate Accepts(d: NetData) { d.pad || d.net || d.cmp }

  function LastRequest(calls: seq<NetData>): seq<Command> {
    if calls == [] then []
    else if Accepts(calls[|calls| - 1]) then Request(calls[|calls| - 1])
    else LastRequest(calls[..|calls| - 1])
  }

  // Everything written for a sequence of calls.
  function FileOf(calls: seq<NetData>): seq<Command> {
    if calls == [] then []
    else
      var earlier, d := calls[..|calls| - 1], calls[|calls| - 1];
      FileOf(earlier) + if Accepts(d) then CallCommands(LastRequest(earlier), d) else []
  }

  ghost predicate AllAcceptable(calls: seq<NetData>) { forall d :: d in calls ==> Acceptable(d) }

  lemma CallAfter(prev: seq<Command>, d: NetData, dict: Dictionary)
    ensures ExecuteAll(CallCommands(prev, d), dict) == After(Format(prev, d), dict)
  {
    var s := Format(prev, d);
    if s.clear {
      assert ([Clear] + s.commands)[1..] == s.commands;
    } else {
      assert [] + s.commands == s.commands;
    }
  }

  lemma DeltaReadable(x: Delta, y: Delta, z: Delta)
    requires AllReadable(x.removal) && AllReadable(y.removal) && AllReadable(z.removal)
    requires AllReadable(x.setting) && AllReadable(y.setting) && AllReadable(z.setting)
    ensures AllReadable(z.removal + (y.removal + x.removal) + (x.setting + y.setting + z.setting))
  {
  }

  lemma CallReadable(prev: seq<Command>, d: NetData)
    requires Acceptable(d)
    ensures AllReadable(CallCommands(prev, d)) && AllReadable(Format(prev, d).commands)
  {
    RequestIsRequest(d);
    RequestReadable(Request(d));
    WantedReadable(d);
    DeltaReadable(PadDelta(prev, d), NetDelta(prev, d), CmpDelta(prev, d));
    ChangesOrRequest(prev, d);
  }

  lemma ChangesOrRequest(prev: seq<Command>, d: NetData)
    requires AllReadable(Changes(prev, d)) && AllReadable(Request(d))
    ensures AllReadable(CallCommands(prev, d)) && AllReadable(Format(prev, d).commands)
  {
  }

  lemma {:induction false} FileReadable(calls: seq<NetData>)
    requires AllAcceptable(calls)
    ensures AllReadable(FileOf(calls))
  {
    if calls != [] {
      var earlier := calls[..|calls| - 1];
      FileReadable(earlier);
      CallReadable(LastRequest(earlier), calls[|calls| - 1]);
    }
  }

  lemma {:induction false} LastIsRequest(calls: seq<NetData>)
    requires AllAcceptable(calls)
    ensures IsRequest(LastRequest(calls))
  {
    if calls == [] {
      assert IsRequestOf([], [], [], []);
    } else {
      RequestIsRequest(calls[|calls| - 1]);
      LastIsRequest(calls[..|calls| - 1]);
    }
  }

  // What the reader holds after the last call, from what it held before.
  lemma LastCall(calls: seq<NetData>)
    requires calls != []
    ensures var earlier, d := calls[..|calls| - 1], calls[|calls| - 1];
      DictionaryOf(FileOf(calls)) ==
        if Accepts(d) then After(Format(LastRequest(earlier), d), DictionaryOf(FileOf(earlier)))
        else DictionaryOf(FileOf(earlier))
  {
    var earlier, d := calls[..|calls| - 1], calls[|calls| - 1];
    var prev := LastRequest(earlier);
    ExecuteConcat(FileOf(earlier), if Accepts(d) then CallCommands(prev, d) else [], map[]);
    CallAfter(prev, d, DictionaryOf(FileOf(earlier)));
  }

  // The reader of the printed file holds what the last accepted call asked for.
  predicate Exact(calls: seq<NetData>) { DictionaryOf(FileOf(calls)) == DictionaryOf(LastRequest(calls)) }

  // A reader of the printed file, character by character, always holds what the last call asked for.
  lemma {:induction false} FileIsExact(calls: seq<NetData>)
    requires AllAcceptable(calls) && forall d :: d in calls ==> !d.tryKeepPrevious
    ensures Read(PrintAll(FileOf(calls))) == Some(FileOf(calls))
    ensures Exact(calls)
  {
    FileReadable(calls);
    ReadAllPrinted(FileOf(calls));
    if calls != [] {
      var earlier, d := calls[..|calls| - 1], calls[|calls| - 1];
      FileIsExact(earlier);
      LastCall(calls);
      LastIsRequest(earlier);
      ExactAfterCall(LastRequest(earlier), d);
    }
  }

  // With the flag set on any of the calls, .P, .N and every requested .C are still right.
  lemma {:induction false} FileAgrees(calls: seq<NetData>)
    requires AllAcceptable(calls)
    ensures Read(PrintAll(FileOf(calls))) == Some(FileOf(calls))
    ensures Agrees(DictionaryOf(FileOf(calls)), DictionaryOf(LastRequest(calls)))
  {
    FileReadable(calls);
    ReadAllPrinted(FileOf(calls));
    if calls != [] {
      var earlier, d := calls[..|calls| - 1], calls[|calls| - 1];
      FileAgrees(earlier);
      LastCall(calls);
      LastIsRequest(earlier);
      AgreesAfterCall(LastRequest(earlier), d, DictionaryOf(FileOf(earlier)));
    }
  }

  // Whether the reader holds a component name, from the calls alone.
  function HoldsComponent(calls: seq<NetData>): bool {
    calls != [] &&
      var earlier, d := calls[..|calls| - 1], calls[|calls| - 1];
      if !Accepts(d) then HoldsComponent(earlier)
      else CmpCommand(d) != [] || (HoldsComponent(earlier) && !Drops(LastRequest(earlier), d))
  }

  lemma ComponentRequested(d: NetData)
    ensures C in Requested(d) <==> CmpCommand(d) != []
  {
    RequestedValue(d, C);
  }

  // After any calls at all: the dictionary is exact unless a component name is held that the last
  // accepted call did not ask for.
  lemma {:induction false} ExactAtTheEnd(calls: seq<NetData>)
    requires AllAcceptable(calls)
    ensures HoldsComponent(calls) <==> C in DictionaryOf(FileOf(calls))
    ensures Exact(calls) <==> !HoldsComponent(calls) || C in DictionaryOf(LastRequest(calls))
  {
    hide Format, Request, Drops, CmpCommand;
    if calls != [] {
      var earlier, d := calls[..|calls| - 1], calls[|calls| - 1];
      ExactAtTheEnd(earlier);
      FileAgrees(earlier);
      LastCall(calls);
      LastIsRequest(earlier);
      ComponentRequested(d);
      ExactlyWhen(LastRequest(earlier), d, DictionaryOf(FileOf(earlier)));
    }
  }

  // No call that keeps attributes asks for a pad when the last one asked for a component.
  predicate NoPadAfterComponent(calls: seq<NetData>) {
    forall k :: 0 <= k < |calls| && Accepts(calls[k]) && calls[k].tryKeepPrevious && calls[k].pad ==>
      C !in DictionaryOf(LastRequest(calls[..k]))
  }

  // Exact after every one of the calls, exactly under that condition.
  lemma {:induction false} ExactThroughout(calls: seq<NetData>)
    requires AllAcceptable(calls)
    ensures (forall k :: 0 <= k <= |calls| ==> Exact(calls[..k])) <==> NoPadAfterComponent(calls)
  {
    hide LastRequest, DictionaryOf, Exact, FileOf;
    assert calls[..|calls|] == calls;
    if calls == [] {
      FileIsExact([]);
    } else {
      var earlier, d := calls[..|calls| - 1], calls[|calls| - 1];
      ExactThroughout(earlier);
      assert forall k :: 0 <= k <= |earlier| ==> earlier[..k] == calls[..k];
      assert NoPadAfterComponent(calls) <==>
        (NoPadAfterComponent(earlier)
         && (Accepts(d) && d.tryKeepPrevious && d.pad ==> C !in DictionaryOf(LastRequest(earlier))));
      if Exact(earlier) { NextExact(calls); }
    }
  }

  lemma NextExact(calls: seq<NetData>)
    requires AllAcceptable(calls) && calls != [] && Exact(calls[..|calls| - 1])
    ensures var earlier, d := calls[..|calls| - 1], calls[|calls| - 1];
      Exact(calls) <==> (Accepts(d) && d.tryKeepPrevious && d.pad ==> C !in DictionaryOf(LastRequest(earlier)))
  {
    hide FileOf, Drops;
    var earlier, d := calls[..|calls| - 1], calls[|calls| - 1];
    LastCall(calls);
    if Accepts(d) {
      LastIsRequest(earlier);
      NextCall(LastRequest(earlier), d);
    }
  }

  // One call from exactly the last request.
  lemma NextCall(prev: seq<Command>, d: NetData)
    requires IsRequest(prev) && Acceptable(d)
    ensures After(Format(prev, d), DictionaryOf(prev)) == Requested(d) <==>
      (d.tryKeepPrevious && d.pad ==> C !in DictionaryOf(prev))
  {
    ExactlyWhen(prev, d, DictionaryOf(prev));
    ComponentRequested(d);
    if C in DictionaryOf(prev) { SetIsFound(prev, C); }
    if !d.tryKeepPrevious { ExactAfterCall(prev, d); }
    if d.tryKeepPrevious && d.pad { NoClear(prev, d); }
  }

  lemma NoClear(prev: seq<Command>, d: NetData)
    requires d.tryKeepPrevious
    ensures !Format(prev, d).clear
  {
  }

  // ---- A component name that stays ----

  // A pad R,1 of the net A.
  const PAD := NetData(true, true, false, [82], Field([49], false, false), Field([], false, false), [65], false, false)
  const KEPT_COMPONENT := PAD.(pad := false, net := false, cmp := true, tryKeepPrevious := true)
  const KEPT_PAD := PAD.(tryKeepPrevious := true)
  const KEPT_NET := PAD.(pad := false, tryKeepPrevious := true)

  lemma ContainsAll(hay: Text, needle: Text, c: Code)
    requires Contains(hay, needle) && c in needle
    ensures c in hay
  {
    var i :| 0 <= i <= |hay| && Occurs(hay, needle, i);
    var j :| 0 <= j < |needle| && needle[j] == c;
    assert hay[i..i + |needle|][j] == hay[i + j];
  }

  // The text of the pad's request: R, 1 and A. There is no C in it.
  lemma PadText()
    ensures !Found(Request(KEPT_PAD), C)
  {
    hide PrintAll, Request, Contains, Print;
    PadRequest();
    PadPrinted();
    assert Mention(C)[3] == 67;
    if Found(Request(KEPT_PAD), C) { ContainsAll(PrintAll(Request(KEPT_PAD)), Mention(C), 67); }
  }

  lemma PadRequest()
    ensures Request(KEPT_PAD) == [Set(P, [82, COMMA, 49]), Set(N, [65])]
  {
    hide EncodeAll;
    EncodeLetter(82);
    EncodeLetter(49);
    EncodeLetter(65);
    assert PadValue(KEPT_PAD) == [82, COMMA, 49];
  }

  lemma EncodeLetter(c: Code)
    requires 48 <= c <= 90
    ensures EncodeAll([c], false, false) == [c]
  {
    assert [c][..0] == [];
  }

  lemma PadPrinted()
    ensures 67 !in PrintAll([Set(P, [82, COMMA, 49]), Set(N, [65])])
  {
    hide PrintAll;
    var pad, net := Set(P, [82, COMMA, 49]), Set(N, [65]);
    PrintConcat([pad], [net]);
    PrintOne(pad);
    PrintOne(net);
    assert [pad] + [net] == [pad, net];
  }

  // A component, then a pad, then a net, all keeping attributes: the name of the component is wrong
  // after the pad, and after the net still, where no pad is asked for.
  lemma KeepCounterexample()
    ensures var calls := [KEPT_COMPONENT, KEPT_PAD, KEPT_NET];
      AllAcceptable(calls) && Exact(calls[..1]) && !Exact(calls[..2]) && !Exact(calls)
      && C !in DictionaryOf(LastRequest(calls[..2]))
  {
    hide Format, Request, Found, FileOf, Exact, CmpCommand, HoldsComponent;
    var one, two, calls := [KEPT_COMPONENT], [KEPT_COMPONENT, KEPT_PAD], [KEPT_COMPONENT, KEPT_PAD, KEPT_NET];
    assert calls[..1] == one && calls[..2] == two && two[..1] == one;
    forall d | d in calls ensures Acceptable(d) {}
    OnlyOneNames();
    HoldsNext(one);
    NoClear(Request(KEPT_COMPONENT), KEPT_PAD);
    HoldsNext(two);
    PadText();
    NoClear(Request(KEPT_PAD), KEPT_NET);
    HoldsNext(calls);
    ExactAtTheEnd(one);
    ExactAtTheEnd(two);
    ExactAtTheEnd(calls);
  }

  lemma HoldsNext(calls: seq<NetData>)
    requires calls != [] && Accepts(calls[|calls| - 1])
    ensures var earlier, d := calls[..|calls| - 1], calls[|calls| - 1];
      HoldsComponent(calls) <==>
        CmpCommand(d) != [] || (HoldsComponent(earlier) && !Drops(LastRequest(earlier), d))
  {
  }

  lemma OnlyOneNames()
    ensures CmpCommand(KEPT_COMPONENT) != [] && CmpCommand(KEPT_PAD) == CmpCommand(KEPT_NET) == []
    ensures C in DictionaryOf(Request(KEPT_COMPONENT))
    ensures C !in DictionaryOf(Request(KEPT_PAD)) && C !in DictionaryOf(Request(KEPT_NET))
  {
    hide ToGerber, Request;
    ComponentRequested(KEPT_COMPONENT);
    ComponentRequested(KEPT_PAD);
    ComponentRequested(KEPT_NET);
  }

  // ---- The plotter: it forgets the last request whenever it clears ----

  function PlotNext(prev: seq<Command>, d: NetData): seq<Command> {
    if Format(prev, d).clear then [] else Request(d)
  }

  datatype PlotEvent = Object(d: NetData) | BlockEnd

  predicate Passed(e: PlotEvent) { e.Object? && !Accepts(e.d) }

  // What the plotter remembers after an event, and what the reader of its file holds.
  function Remembered(prev: seq<Command>, e: PlotEvent): seq<Command> {
    if Passed(e) then prev else if e.BlockEnd? then [] else PlotNext(prev, e.d)
  }

  function Held(prev: seq<Command>, dict: Dictionary, e: PlotEvent): Dictionary {
    if Passed(e) then dict
    else if e.Object? then After(Format(prev, e.d), dict)
    else if prev == [] then dict else map[]
  }

  class GerberPlotter {
    var attributesDictionary: Text
    var file: Text
    ghost var prev: seq<Command>     // the request whose text is in attributesDictionary
    ghost var written: seq<Command>  // the commands in the file

    ghost predicate Valid()
      reads this
    {
      && attributesDictionary == PrintAll(prev) && IsRequest(prev)
      && file == PrintAll(written) && AllReadable(written)
    }

    constructor ()
      ensures Valid() && prev == [] && written == []
    {
      attributesDictionary, file, prev, written := [], [], [], [];
      assert IsRequestOf([], [], [], []);
    }

    method ClearNetAttribute()
      requires Valid()
      modifies this
      ensures Valid() && prev == []
      ensures written == if old(prev) == [] then old(written) else old(written) + [Clear]
    {
      if attributesDictionary == [] {
        EmptyText(prev);
        return;
      }
      PrintOne(Clear);
      PrintConcat(written, [Clear]);
      file := file + Print(Clear);
      attributesDictionary := [];
      written, prev := written + [Clear], [];
      assert IsRequestOf([], [], [], []);
    }

    method EndBlock()
      requires Valid()
      modifies this
      ensures Valid() && prev == Remembered(old(prev), BlockEnd)
      ensures DictionaryOf(written) == Held(old(prev), DictionaryOf(old(written)), BlockEnd)
    {
      ExecuteConcat(written, [Clear], map[]);
      ClearNetAttribute();
    }

    // The second half of formatNetAttribute; `request` is what `last` says.
    method WriteChanges(last: Text, short: Text, clearDict: bool, ghost request: seq<Command>,
        ghost commands: seq<Command>)
      requires Valid() && IsRequest(request) && request != [] && last == PrintAll(request)
      requires AllReadable(commands) && short == PrintAll(commands)
      modifies this
      ensures Valid() && prev == if clearDict then [] else request
      ensures written == (if clearDict then old(written) + [Clear] else old(written)) + commands
    {
      attributesDictionary, prev := last, request;
      if clearDict {
        ClearNetAttribute();
      }
      PrintConcat(written, commands);
      file := file + short;
      written := written + commands;
    }

    // Objects that select no attribute are passed over.
    method FormatNetAttributes(d: NetData)
      requires Valid() && Acceptable(d)
      modifies this
      ensures Valid() && prev == Remembered(old(prev), Object(d))
      ensures DictionaryOf(written) == Held(old(prev), DictionaryOf(old(written)), Object(d))
    {
      if !Accepts(d) {
        return;
      }
      PlotCall(prev, d, written);
      ghost var commands := Format(prev, d).commands;
      var accepted, short, last, clearDict := FormatNetAttribute([], attributesDictionary, Some(d), prev);
      assert short == PrintAll(commands);
      WriteChanges(last, short, clearDict, Request(d), commands);
    }
  }

  // The effect of one call on a file.
  lemma PlotCall(prev: seq<Command>, d: NetData, written: seq<Command>)
    requires IsRequest(prev) && Acceptable(d) && (d.pad || d.net || d.cmp) && AllReadable(written)
    ensures IsRequest(Request(d)) && Request(d) != []
    ensures PrintAll(prev) == PrintAll(Request(d)) <==> prev == Request(d)
    ensures PrintAll([]) == [] && AllReadable(Format(prev, d).commands)
    ensures var s := Format(prev, d);
      var base := if s.clear then written + [Clear] else written;
      && PrintAll(base + s.commands) == PrintAll(base) + PrintAll(s.commands)
      && DictionaryOf(base + s.commands) == After(s, DictionaryOf(written))
  {
    RequestIsRequest(d);
    RequestReadable(prev);
    RequestReadable(Request(d));
    SameText(prev, Request(d));
    CallReadable(prev, d);
    var s := Format(prev, d);
    var base := if s.clear then written + [Clear] else written;
    PrintConcat(base, s.commands);
    ExecuteConcat(base, s.commands, map[]);
    if s.clear {
      ExecuteConcat(written, [Clear], map[]);
      assert [Clear][1..] == [];
    }
  }

  lemma EmptyText(cs: seq<Command>)
    requires PrintAll(cs) == []
    ensures cs == []
  {
  }

  // ---- When the plotter's file is right ----

  // What the reader should hold: after an object what it asks for, after a block nothing.
  function Meant(dict: Dictionary, e: PlotEvent): Dictionary {
    if Passed(e) then dict else if e.Object? then Requested(e.d) else map[]
  }

  // After every event the reader holds exactly that.
  ghost predicate RightThroughout(prev: seq<Command>, dict: Dictionary, events: seq<PlotEvent>)
    decreases |events|
  {
    events != [] ==>
      var held := Held(prev, dict, events[0]);
      held == Meant(dict, events[0]) && RightThroughout(Remembered(prev, events[0]), held, events[1..])
  }

  // The plotter does not have to drop anything it has forgotten, and no object that keeps attributes
  // asks for a pad after a component.
  predicate CanDrop(prev: seq<Command>, dict: Dictionary, e: PlotEvent) {
    Passed(e) ||
    if prev == [] then dict.Keys <= Meant(dict, e).Keys
    else e.Object? && e.d.tryKeepPrevious && e.d.pad ==> C !in dict
  }

  // That holds at every event; dict is what the events before it mean.
  ghost predicate CanAlwaysDrop(prev: seq<Command>, dict: Dictionary, events: seq<PlotEvent>)
    decreases |events|
  {
    events != [] ==>
      CanDrop(prev, dict, events[0])
      && CanAlwaysDrop(Remembered(prev, events[0]), Meant(dict, events[0]), events[1..])
  }

  lemma NothingFound(a: Attr)
    ensures !Found([], a)
  {
  }

  // With nothing remembered every attribute is printed as new and none is removed.
  lemma FromNothing(d: NetData, dict: Dictionary)
    requires Acceptable(d) && (d.pad || d.net || d.cmp)
    ensures !Format([], d).clear
    ensures After(Format([], d), dict) == Requested(d) <==> dict.Keys <= Requested(d).Keys
  {
    NothingFound(P);
    NothingFound(N);
    NothingFound(C);
    assert IsRequestOf([], [], [], []);
    var after := After(Format([], d), dict);
    forall a: Attr
      ensures Get(after, a) == if a in Requested(d) then Get(Requested(d), a) else Get(dict, a)
    {
      AfterValue([], d, dict, a);
    }
    if dict.Keys <= Requested(d).Keys {
      SameDictionary(after, Requested(d));
    } else {
      var a :| a in dict && a !in Requested(d);
      assert Get(after, a) != Get(Requested(d), a);
    }
  }

  ghost predicate AllPlottable(events: seq<PlotEvent>) { forall e :: e in events && e.Object? ==> Acceptable(e.d) }

  lemma EventExact(prev: seq<Command>, dict: Dictionary, e: PlotEvent)
    requires IsRequest(prev) && (prev == [] || dict == DictionaryOf(prev)) && (e.Object? ==> Acceptable(e.d))
    ensures Held(prev, dict, e) == Meant(dict, e) <==> CanDrop(prev, dict, e)
    ensures var next := Remembered(prev, e); IsRequest(next) && (next == [] || Meant(dict, e) == DictionaryOf(next))
  {
    assert IsRequestOf([], [], [], []);
    if e.Object? && Accepts(e.d) {
      RequestIsRequest(e.d);
      if prev == [] { FromNothing(e.d, dict); } else { NextCall(prev, e.d); }
    }
  }

  // Over every run of objects and block ends, with or without the keep flag.
  lemma {:induction false} PlotterExact(prev: seq<Command>, dict: Dictionary, events: seq<PlotEvent>)
    requires AllPlottable(events) && IsRequest(prev) && (prev == [] || dict == DictionaryOf(prev))
    ensures RightThroughout(prev, dict, events) <==> CanAlwaysDrop(prev, dict, events)
    decreases |events|
  {
    hide Held, Meant, CanDrop, Remembered, IsRequest;
    if events != [] {
      var e := events[0];
      assert e in events && AllPlottable(events[1..]);
      EventExact(prev, dict, e);
      PlotterExact(Remembered(prev, e), Meant(dict, e), events[1..]);
    }
  }

  // A pad, then a track of the same net, then an item of its component: the net of the second
  // sticks to the third.
  const TRACK := PAD.(pad := false)
  const ITEM := PAD.(pad := false, net := false, cmp := true)

  // The track does not ask for the pad attribute, so the plotter clears, and forgets.
  lemma TrackClears()
    ensures PlotNext([], PAD) == Request(PAD) && PlotNext(Request(PAD), TRACK) == []
  {
    RequestIsRequest(PAD);
    FromNothing(PAD, map[]);
    RequestedValue(PAD, P);
    SetIsFound(Request(PAD), P);
    assert PadDelta(Request(PAD), TRACK).clear;
    assert Request(PAD)[0].attr == P && Request(TRACK)[0].attr == N;
  }

  // An event that should leave the reader without a net.
  lemma AfterTrack(e: PlotEvent)
    requires !Passed(e) && N !in Meant(Requested(TRACK), e) && (e.Object? ==> Acceptable(e.d))
    ensures AllPlottable([Object(PAD), Object(TRACK), e])
    ensures !RightThroughout([], map[], [Object(PAD), Object(TRACK), e])
  {
    hide Format, RightThroughout, Request, Requested;
    var events := [Object(PAD), Object(TRACK), e];
    forall x | x in events && x.Object? ensures Acceptable(x.d) {}
    TrackClears();
    RequestedValue(TRACK, N);
    assert IsRequestOf([], [], [], []);
    assert N in Requested(TRACK) by { assert Wanted(TRACK, N) == [Set(N, NetValue(TRACK))]; }
    assert !CanAlwaysDrop([], Requested(TRACK), [e]);
    assert events[1..] == [Object(TRACK), e] && [Object(TRACK), e][1..] == [e];
    assert !CanAlwaysDrop(Request(PAD), Requested(PAD), [Object(TRACK), e]);
    PlotterExact([], map[], events);
  }

  lemma PlotterCounterexample()
    ensures var events := [Object(PAD), Object(TRACK), Object(ITEM)];
      AllPlottable(events) && !RightThroughout([], map[], events)
  {
    RequestedValue(ITEM, N);
    AfterTrack(Object(ITEM));
  }

  // A pad, a track and the end of the block: nothing is remembered, so nothing is cleared.
  lemma BlockCounterexample()
    ensures var events := [Object(PAD), Object(TRACK), BlockEnd];
      AllPlottable(events) && !RightThroughout([], map[], events)
  {
    AfterTrack(BlockEnd);
  }
}
