// ExpandTextVars of common/common.cpp: "${...}" references are replaced by what a resolver says.
module TextVars {

  // A resolver may change the token it is given, whether or not it accepts it.
  datatype Answer = Answer(accepted: bool, token: string)

  datatype Resolver = NoResolver | Resolver(ask: string -> Answer)

  // ---- What a source consists of ----

  datatype Segment = Plain(c: char) | Reference(token: string, closed: bool)

  predicate OpensAt(src: string, i: nat) { i + 1 < |src| && src[i] == '$' && src[i + 1] == '{' }

  // The first closing brace at or behind i, or the end.
  function CloseFrom(src: string, i: nat): (j: nat)
    requires i <= |src|
    ensures i <= j <= |src| && (j < |src| ==> src[j] == '}') && '}' !in src[i..j]
    decreases |src| - i
  {
    if i == |src| || src[i] == '}' then i else CloseFrom(src, i + 1)
  }

  // The segment at i, and where the next one starts. A reference that is not closed takes the rest.
  function First(src: string, i: nat): Segment
    requires i < |src|
  {
    if !OpensAt(src, i) then Plain(src[i])
    else var j := CloseFrom(src, i + 2); Reference(src[i + 2..j], j < |src|)
  }

  function Next(src: string, i: nat): (j: nat)
    requires i < |src|
    ensures i < j <= |src|
  {
    if !OpensAt(src, i) then i + 1
    else var j := CloseFrom(src, i + 2); if j < |src| then j + 1 else j
  }

  function Segments(src: string, i: nat := 0): seq<Segment>
    requires i <= |src|
    decreases |src| - i
  {
    if i == |src| then [] else [First(src, i)] + Segments(src, Next(src, i))
  }

  function Show(s: Segment): string {
    if s.Plain? then [s.c] else "${" + s.token + if s.closed then "}" else ""
  }

  function ShowAll(segments: seq<Segment>): string {
    if segments == [] then "" else Show(segments[0]) + ShowAll(segments[1..])
  }

  lemma FirstShows(src: string, i: nat)
    requires i < |src|
    ensures Show(First(src, i)) == src[i..Next(src, i)]
  {
    if OpensAt(src, i) {
      var j := CloseFrom(src, i + 2);
      assert src[i..i + 2] == "${";
      assert src[i..j] == src[i..i + 2] + src[i + 2..j];
      if j < |src| { assert src[i..j + 1] == src[i..j] + "}"; }
    }
  }

  // The segments are the source, in order.
  lemma {:induction false} SegmentsShow(src: string, i: nat)
    requires i <= |src|
    ensures ShowAll(Segments(src, i)) == src[i..]
    decreases |src| - i
  {
    hide First, Next, Show;
    if i < |src| {
      var j := Next(src, i);
      FirstShows(src, i);
      SegmentsShow(src, j);
      assert Segments(src, i)[1..] == Segments(src, j);
      assert src[i..] == src[i..j] + src[j..];
    }
  }

  // ---- What a segment turns into ----

  predicate HasPrefix(s: string, p: string) { |p| <= |s| && s[..|p|] == p }

  // ^(ERC|DRC)_(WARNING|ERROR).*$
  predicate IsDirective(token: string) {
    || HasPrefix(token, "ERC_WARNING") || HasPrefix(token, "ERC_ERROR")
    || HasPrefix(token, "DRC_WARNING") || HasPrefix(token, "DRC_ERROR")
  }

  function Meaning(s: Segment, r: Resolver): string {
    if s.Plain? then [s.c]
    else if s.token == "" || IsDirective(s.token) then ""
    else if r.NoResolver? then "${" + s.token + "}"
    else
      var a := r.ask(s.token);
      if a.accepted then a.token else "${" + a.token + "}"
  }

  function MeaningAll(segments: seq<Segment>, r: Resolver): string {
    if segments == [] then "" else Meaning(segments[0], r) + MeaningAll(segments[1..], r)
  }

  // What the source turns into.
  function Expanded(src: string, r: Resolver): string { MeaningAll(Segments(src), r) }

  // ---- The scanner ----

  // One round of the outer loop.
  method ExpandOne(source: string, start: nat, resolver: Resolver) returns (piece: string, i: nat)
    requires start < |source|
    ensures piece == Meaning(First(source, start), resolver) && i == Next(source, start)
  {
    hide IsDirective;
    i, piece := start, "";
    if source[i] == '$' && i + 1 < |source| && source[i + 1] == '{' {
      var token := "";
      i := i + 2;
      while i < |source|
        invariant start + 2 <= i <= |source| && token == source[start + 2..i]
        invariant CloseFrom(source, start + 2) == CloseFrom(source, i)
      {
        if source[i] == '}' {
          break;
        }
        token := token + [source[i]];
        i := i + 1;
      }
      if token != "" && !IsDirective(token) {
        var answer := if resolver.NoResolver? then Answer(false, token) else resolver.ask(token);
        piece := if answer.accepted then answer.token else "${" + answer.token + "}";
      }
    } else {
      piece := [source[i]];
    }
    if i < |source| {
      i := i + 1;
    }
  }

  method ExpandTextVars(source: string, resolver: Resolver) returns (newbuf: string)
    ensures newbuf == Expanded(source, resolver)
  {
    hide First, Next, Meaning;
    newbuf := "";
    var i := 0;
    while i < |source|
      invariant i <= |source|
      invariant newbuf + MeaningAll(Segments(source, i), resolver) == MeaningAll(Segments(source), resolver)
    {
      assert Segments(source, i)[1..] == Segments(source, Next(source, i));
      var piece;
      piece, i := ExpandOne(source, i, resolver);
      newbuf := newbuf + piece;
    }
  }

  // ---- A single reference, and none ----

  lemma {:induction false} CloseIs(src: string, i: nat, j: nat)
    requires i <= j <= |src| && (forall k :: i <= k < j ==> src[k] != '}') && (j < |src| ==> src[j] == '}')
    ensures CloseFrom(src, i) == j
    decreases j - i
  {
    if i < j { CloseIs(src, i + 1, j); }
  }

  // Closed, or open up to the end.
  lemma OneReference(t: string, closed: bool)
    requires '}' !in t
    ensures Segments("${" + t + if closed then "}" else "") == [Reference(t, closed)]
  {
    var src := "${" + t + if closed then "}" else "";
    CloseIs(src, 2, 2 + |t|);
    assert src[2..2 + |t|] == t;
  }

  // The answer of the resolver takes the place of a reference that is accepted; the token it leaves is
  // put back into a reference otherwise. A reference left open is treated like one that is closed.
  lemma ReferenceExpands(t: string, r: Resolver, closed: bool)
    requires t != "" && '}' !in t
    requires !("ERC_WARNING" <= t) && !("ERC_ERROR" <= t) && !("DRC_WARNING" <= t) && !("DRC_ERROR" <= t)
    ensures Expanded("${" + t + if closed then "}" else "", r) ==
      match r
      case NoResolver => "${" + t + "}"
      case Resolver(ask) => if ask(t).accepted then ask(t).token else "${" + ask(t).token + "}"
  {
    OneReference(t, closed);
    SingleMeaning(Reference(t, closed), r);
  }

  lemma SingleMeaning(s: Segment, r: Resolver)
    ensures MeaningAll([s], r) == Meaning(s, r)
  {
    assert Meaning(s, r) + "" == Meaning(s, r);
  }

  // Empty references and directives of the rule checkers turn into nothing.
  lemma NothingExpands(p: string, rest: string, r: Resolver, closed: bool)
    requires p in {"ERC_WARNING", "ERC_ERROR", "DRC_WARNING", "DRC_ERROR"} && '}' !in rest
    ensures Expanded("${" + (p + rest) + if closed then "}" else "", r) == ""
    ensures Expanded("${}", r) == Expanded("${", r) == ""
  {
    assert p <= p + rest && '}' !in p;
    OneReference(p + rest, closed);
    SingleMeaning(Reference(p + rest, closed), r);
    OneReference("", true);
    OneReference("", false);
    assert "${" + "" + "}" == "${}" && "${" + "" + "" == "${";
    SingleMeaning(Reference("", true), r);
    SingleMeaning(Reference("", false), r);
  }

  // Without a reference a source stays as it is.
  lemma {:induction false} NoReference(src: string, r: Resolver, i: nat)
    requires i <= |src| && forall k: nat :: !OpensAt(src, k)
    ensures MeaningAll(Segments(src, i), r) == src[i..]
    decreases |src| - i
  {
    hide OpensAt, CloseFrom;
    if i < |src| {
      NoReference(src, r, i + 1);
      assert Segments(src, i)[1..] == Segments(src, i + 1);
      assert [src[i]] + src[i + 1..] == src[i..];
    }
  }

  lemma PlainText(src: string, r: Resolver)
    requires forall k :: 0 <= k < |src| - 1 ==> !(src[k] == '$' && src[k + 1] == '{')
    ensures Expanded(src, r) == src
  {
    forall k: nat ensures !OpensAt(src, k) {}
    NoReference(src, r, 0);
    assert src[0..] == src;
  }

  // ---- Joining sources ----

  predicate AllClosed(segments: seq<Segment>) {
    forall s :: s in segments ==> s.Reference? ==> s.closed
  }

  // No reference is left open by a, and none is opened across the seam.
  predicate Seam(a: string, b: string) {
    AllClosed(Segments(a)) && !(a != "" && a[|a| - 1] == '$' && b != "" && b[0] == '{')
  }

  lemma {:induction false} CloseInFront(a: string, b: string, i: nat)
    requires i <= |a| && CloseFrom(a, i) < |a|
    ensures CloseFrom(a + b, i) == CloseFrom(a, i)
    decreases |a| - i
  {
    if a[i] != '}' { CloseInFront(a, b, i + 1); }
  }

  lemma FirstInFront(a: string, b: string, i: nat)
    requires i < |a| && (First(a, i).Reference? ==> First(a, i).closed)
    requires !(a[|a| - 1] == '$' && b != "" && b[0] == '{')
    ensures First(a + b, i) == First(a, i) && Next(a + b, i) == Next(a, i)
  {
    if OpensAt(a, i) {
      CloseInFront(a, b, i + 2);
      var j := CloseFrom(a, i + 2);
      assert (a + b)[i + 2..j] == a[i + 2..j];
    }
  }

  lemma {:induction false} SegmentsBehind(a: string, b: string, i: nat)
    requires i <= |b|
    ensures Segments(a + b, |a| + i) == Segments(b, i)
    decreases |b| - i
  {
    if i < |b| {
      FirstBehind(a, b, i);
      SegmentsBehind(a, b, Next(b, i));
    }
  }

  lemma {:induction false} CloseBehind(a: string, b: string, i: nat)
    requires i <= |b|
    ensures CloseFrom(a + b, |a| + i) == |a| + CloseFrom(b, i)
    decreases |b| - i
  {
    if i < |b| && b[i] != '}' { CloseBehind(a, b, i + 1); }
  }

  lemma FirstBehind(a: string, b: string, i: nat)
    requires i < |b|
    ensures First(a + b, |a| + i) == First(b, i) && Next(a + b, |a| + i) == |a| + Next(b, i)
  {
    if OpensAt(b, i) {
      CloseBehind(a, b, i + 2);
      var j := CloseFrom(b, i + 2);
      assert (a + b)[|a| + i + 2..|a| + j] == b[i + 2..j];
    }
  }

  lemma {:induction false} SegmentsJoin(a: string, b: string, i: nat)
    requires i <= |a| && AllClosed(Segments(a, i))
    requires !(a != "" && a[|a| - 1] == '$' && b != "" && b[0] == '{')
    ensures Segments(a + b, i) == Segments(a, i) + Segments(b)
    decreases |a| - i
  {
    hide First, Next;
    if i == |a| {
      SegmentsBehind(a, b, 0);
    } else {
      assert First(a, i) in Segments(a, i);
      FirstInFront(a, b, i);
      assert forall s :: s in Segments(a, Next(a, i)) ==> s in Segments(a, i);
      SegmentsJoin(a, b, Next(a, i));
    }
  }

  lemma {:induction false} MeaningJoin(x: seq<Segment>, y: seq<Segment>, r: Resolver)
    ensures MeaningAll(x + y, r) == MeaningAll(x, r) + MeaningAll(y, r)
  {
    if x == [] {
      assert x + y == y;
    } else {
      assert (x + y)[1..] == x[1..] + y;
      MeaningJoin(x[1..], y, r);
    }
  }

  // Expansion distributes over concatenation at such a seam.
  lemma Distributes(a: string, b: string, r: Resolver)
    requires Seam(a, b)
    ensures Expanded(a + b, r) == Expanded(a, r) + Expanded(b, r)
  {
    SegmentsJoin(a, b, 0);
    MeaningJoin(Segments(a), Segments(b), r);
  }

  // ---- A resolver that declines everything ----

  ghost predicate Declines(r: Resolver) {
    r.Resolver? ==> forall t :: r.ask(t) == Answer(false, t)
  }

  // Left as it is: a plain character, or a closed reference that is neither empty nor a directive.
  predicate Kept(s: Segment) { s.Plain? || (s.closed && s.token != "" && !IsDirective(s.token)) }

  ghost predicate OnlyLastOpen(segments: seq<Segment>) {
    segments != [] ==>
      && (segments[0].Reference? && !segments[0].closed ==> |segments| == 1)
      && OnlyLastOpen(segments[1..])
  }

  lemma {:induction false} SegmentsOnlyLastOpen(src: string, i: nat)
    requires i <= |src|
    ensures OnlyLastOpen(Segments(src, i))
    decreases |src| - i
  {
    if i < |src| {
      SegmentsOnlyLastOpen(src, Next(src, i));
      assert Segments(src, i)[1..] == Segments(src, Next(src, i));
    }
  }

  lemma OneSegment(s: Segment, r: Resolver)
    requires Declines(r)
    ensures Kept(s) ==> Meaning(s, r) == Show(s)
    ensures !Kept(s) && (s.closed || s.token == "" || IsDirective(s.token)) ==> |Meaning(s, r)| + 2 <= |Show(s)|
    ensures !Kept(s) && !(s.closed || s.token == "" || IsDirective(s.token)) ==> |Meaning(s, r)| == |Show(s)| + 1
  {
  }

  // Dropping shortens the text by more than closing an open reference, which happens at most once,
  // lengthens it.
  lemma {:induction false} Lengths(segments: seq<Segment>, r: Resolver)
    requires Declines(r) && OnlyLastOpen(segments)
    ensures |MeaningAll(segments, r)| <= |ShowAll(segments)| + 1
    ensures (forall s :: s in segments ==> Kept(s)) ==> MeaningAll(segments, r) == ShowAll(segments)
    ensures (exists s :: s in segments && !Kept(s)) ==> |MeaningAll(segments, r)| != |ShowAll(segments)|
  {
    hide Meaning, Show, Kept, IsDirective;
    if segments != [] {
      var s, rest := segments[0], segments[1..];
      OneSegment(s, r);
      KeptIsClosed(s);
      Lengths(rest, r);
      assert segments == [s] + rest;
      assert rest == [] ==> MeaningAll(rest, r) == ShowAll(rest) == "";
    }
  }

  lemma KeptIsClosed(s: Segment)
    ensures Kept(s) ==> s.Plain? || s.closed
    ensures !Kept(s) ==> s.Reference?
  {
  }

  // A source comes back unchanged exactly when all its references are closed and none is empty or a
  // directive.
  lemma IdentityExactly(src: string, r: Resolver)
    requires Declines(r)
    ensures Expanded(src, r) == src <==> forall s :: s in Segments(src) ==> Kept(s)
  {
    hide Meaning, Show, Kept;
    SegmentsShow(src, 0);
    SegmentsOnlyLastOpen(src, 0);
    Lengths(Segments(src), r);
    assert src[0..] == src;
  }
}
