// Tokens are disjoint slices of the text, in order, and only blanks and comment lines are skipped.
module DsnSlices {
  import opened DsnNumber
  import opened DsnLexer

  predicate Suffix(text: string, s: string) { |s| <= |text| && text[|text| - |s|..] == s }

  // line and unread are what is left of the text, and unread starts a line.
  predicate Located(text: string, line: string, unread: string) {
    && |line| + |unread| <= |text|
    && Suffix(text, line + unread)
    && LineStart(text, |text| - |unread|)
  }

  function At(text: string, line: string, unread: string): int { |text| - |line| - |unread| }

  predicate LineStart(text: string, p: int) { p <= 0 || p >= |text| || text[p - 1] == '\n' }

  // The line that starts at p.
  function LineAt(text: string, p: int): string
    requires 0 <= p <= |text|
  {
    text[p..][..FirstLine(text[p..])]
  }

  predicate CommentAt(text: string, p: nat, k: int) {
    p <= k && p <= |text| && LineStart(text, p) && k < p + |LineAt(text, p)| && IsComment(LineAt(text, p))
  }

  // White space, or on a line whose first character other than a blank is #.
  ghost predicate Skippable(text: string, k: int)
    requires 0 <= k < |text|
  {
    IsSpace(text[k]) || exists p: nat :: CommentAt(text, p, k)
  }

  // ---- Skipping ----

  lemma Dropped(text: string, line: string, unread: string, n: nat)
    requires Located(text, line, unread) && n <= |line|
    ensures Located(text, line[n..], unread)
    ensures forall i :: 0 <= i < n ==> text[At(text, line, unread) + i] == line[i]
  {
  }

  lemma NextLineLocated(text: string, unread: string, n: nat)
    requires Suffix(text, unread) && unread != "" && n == FirstLine(unread)
    ensures n <= |unread| && Located(text, unread[..n], unread[n..])
    ensures 0 <= |text| - |unread| && LineAt(text, |text| - |unread|) == unread[..n]
  {
    hide FirstLine, Suffix, LineStart, LineAt;
    FeedBefore(text, unread, n);
    NextLineIs(text, unread);
    Cut(unread, n);
  }

  lemma Cut(s: string, n: nat)
    requires n <= |s|
    ensures s[..n] + s[n..] == s
  {
  }

  lemma NextLineIs(text: string, unread: string)
    requires Suffix(text, unread)
    ensures LineAt(text, |text| - |unread|) == unread[..FirstLine(unread)]
  {
  }

  lemma FeedBefore(text: string, unread: string, n: nat)
    requires Suffix(text, unread) && 0 < n <= |unread| && (n < |unread| ==> unread[n - 1] == '\n')
    ensures |unread| <= |text| && LineStart(text, |text| - |unread| + n)
  {
  }

  lemma {:induction false} LinesSkipped(text: string, unread: string)
    requires Located(text, "", unread)
    ensures var (rest, lines) := SeekLine(unread); Located(text, rest, lines)
    ensures var (rest, lines) := SeekLine(unread);
      forall k :: |text| - |unread| <= k < At(text, rest, lines) ==> Skippable(text, k)
    decreases |unread|
  {
    hide Suffix, FirstLine, Blanks, Skippable, IsSpace, LineAt;
    if unread != "" {
      var n := FirstLine(unread);
      assert "" + unread == unread;
      NextLineLocated(text, unread, n);
      var line, p := unread[..n], |text| - |unread|;
      LineSkipped(text, line, unread[n..]);
      if Blanks(line) == n || IsComment(line) {
        Dropped(text, line, unread[n..], n);
        assert line[n..] == "";
        LinesSkipped(text, unread[n..]);
      } else {
        Dropped(text, line, unread[n..], Blanks(line));
      }
    }
  }

  // The blanks in front of a line that just began, and all of a comment.
  lemma LineSkipped(text: string, line: string, unread: string)
    requires Located(text, line, unread) && LineStart(text, At(text, line, unread))
    requires LineAt(text, At(text, line, unread)) == line
    ensures forall k :: At(text, line, unread) <= k < At(text, line, unread) + Blanks(line) ==> Skippable(text, k)
    ensures IsComment(line) ==>
      forall k :: At(text, line, unread) <= k < At(text, line, unread) + |line| ==> Skippable(text, k)
  {
    hide Suffix, FirstLine, Blanks, IsComment, LineAt;
    var p := At(text, line, unread);
    BlanksSkipped(text, line, unread);
    if IsComment(line) {
      forall k | p <= k < p + |line| ensures Skippable(text, k) { assert CommentAt(text, p, k); }
    }
  }

  lemma BlanksSkipped(text: string, line: string, unread: string)
    requires Located(text, line, unread)
    ensures forall k :: At(text, line, unread) <= k < At(text, line, unread) + Blanks(line) ==> Skippable(text, k)
  {
  }

  lemma SeekSkips(text: string, line: string, unread: string)
    requires Located(text, line, unread)
    ensures var (rest, lines) := Seek(line, unread); Located(text, rest, lines)
    ensures var (rest, lines) := Seek(line, unread);
      forall k :: At(text, line, unread) <= k < At(text, rest, lines) ==> Skippable(text, k)
  {
    hide Suffix, Blanks, Skippable, SeekLine;
    var n := Blanks(line);
    BlanksSkipped(text, line, unread);
    Dropped(text, line, unread, n);
    if n == |line| {
      assert line[n..] == "";
      LinesSkipped(text, unread);
    }
  }

  // ---- Tokens ----

  datatype Span = Span(token: Token, text: string, cur: nat, head: nat)

  // Where the tokens of the text behind line and unread stand.
  function Spans(keywords: set<string>, text: string, line: string, unread: string): seq<Span>
    requires |line| + |unread| <= |text|
    decreases |line| + |unread|
  {
    var at := Seek(line, unread);
    match Lex(keywords, line, unread)
    case Lexeme(token, t, line', unread') =>
      [Span(token, t, At(text, at.0, at.1), At(text, line', unread'))] + Spans(keywords, text, line', unread')
    case _ => []
  }

  // The slice spells the token.
  predicate Spells(keywords: set<string>, slice: string, token: Token, t: string) {
    match token
    case LEFT => slice == t == "("
    case RIGHT => slice == t == ")"
    case BAR => slice == t == "|"
    case STRING => |slice| >= 2 && slice[0] == '"' && ReadQuoted(slice[1..]) == Closed(t, "")
    case NONE => false
    case EOF => false
    case _ => slice == t != "" && (forall i :: 0 <= i < |t| ==> !IsSep(t[i])) && token == WordToken(keywords, t)
  }

  // A word goes on up to a separator or the end of its line.
  predicate Ends(text: string, head: nat, token: Token)
    requires head <= |text|
  {
    token.LEFT? || token.RIGHT? || token.BAR? || token.STRING? || LineStart(text, head) || IsSep(text[head])
  }

  predicate SpanHolds(keywords: set<string>, text: string, s: Span) {
    && s.cur < s.head <= |text|
    && Spells(keywords, text[s.cur..s.head], s.token, s.text)
    && Ends(text, s.head, s.token)
  }

  // The part of a quoted string that is read decides how it is read.
  lemma {:induction false} ReadPart(s: string)
    requires ReadQuoted(s).Closed?
    ensures var q := ReadQuoted(s);
      |q.rest| < |s| && s[|s| - |q.rest|..] == q.rest && ReadQuoted(s[..|s| - |q.rest|]) == Closed(q.text, "")
    decreases |s|
  {
    hide Escape, ReadQuoted;
    assert s[0..] == s;
    if s == "" || s[0] == '"' || (s[0] == '\\' && |s| == 1) {
      QuotedEnd(s, 0);
      assert s[..1][0..] == s[..1] && s[..1][1..] == "";
      QuotedEnd(s[..1], 0);
    } else {
      var e := if s[0] == '\\' then Escape(s[1..]) else (s[0], 0);
      var after := 1 + e.1;
      QuotedStep(s, 0, after, e.0);
      ReadPart(s[after..]);
      ReadStep(s, after, e.0, ReadQuoted(s[after..]));
    }
  }

  lemma ReadStep(s: string, after: nat, c: char, q: Quoted)
    requires 0 < after <= |s| && s[0] != '"'
    requires if s[0] == '\\' then 1 < |s| && (c, after - 1) == Escape(s[1..]) else c == s[0] && after == 1
    requires q.Closed? && |q.rest| < |s| - after && s[|s| - |q.rest|..] == q.rest
    requires ReadQuoted(s[after..][..|s| - after - |q.rest|]) == Closed(q.text, "")
    ensures ReadQuoted(s[..|s| - |q.rest|]) == Closed([c] + q.text, "")
  {
    hide Escape, ReadQuoted;
    var n := |s| - |q.rest|;
    var part := s[..n];
    assert part[0..] == part && part[after..] == s[after..][..n - after];
    if s[0] == '\\' {
      EscapePart(s[1..], n - 1);
      assert part[1..] == s[1..][..n - 1];
    }
    QuotedStep(part, 0, after, c);
  }

  // An escape looks no further than the first character it does not use.
  lemma EscapePart(s: string, n: nat)
    requires s != "" && Escape(s).1 < n <= |s|
    ensures Escape(s[..n]) == Escape(s)
  {
  }

  // What LexAt takes off the line spells its token.
  lemma TakenSpells(keywords: set<string>, line: string, unread: string)
    requires line != "" && !IsSpace(line[0]) && LexAt(keywords, line, unread).Lexeme?
    ensures var r := LexAt(keywords, line, unread);
      var n := |line| - |r.line|;
      && r.line == line[n..] && Spells(keywords, line[..n], r.token, r.text)
      && (r.line == "" || r.token.LEFT? || r.token.RIGHT? || r.token.BAR? || r.token.STRING? || IsSep(r.line[0]))
  {
    hide ReadQuoted, IsNumber, Word;
    var r := LexAt(keywords, line, unread);
    var n := |line| - |r.line|;
    if line[0] == '"' {
      ReadPart(line[1..]);
      assert line[..n][1..] == line[1..][..n - 1];
      assert r.line == line[n..];
    }
  }

  lemma TokenSpelled(keywords: set<string>, text: string, line: string, unread: string)
    requires Located(text, line, unread) && line != "" && !IsSpace(line[0])
    requires LexAt(keywords, line, unread).Lexeme?
    ensures var r := LexAt(keywords, line, unread);
      Located(text, r.line, unread) && 0 <= At(text, line, unread)
      && SpanHolds(keywords, text, Span(r.token, r.text, At(text, line, unread), At(text, r.line, unread)))
  {
    hide LexAt, Spells, LineStart, Suffix;
    var r := LexAt(keywords, line, unread);
    var n := |line| - |r.line|;
    TakenSpells(keywords, line, unread);
    Dropped(text, line, unread, n);
    var cur, head := At(text, line, unread), At(text, line, unread) + n;
    assert text[cur..head] == line[..n];
    WordEnds(text, r.line, unread);
  }

  lemma WordEnds(text: string, line: string, unread: string)
    requires Located(text, line, unread)
    ensures var head := At(text, line, unread);
      0 <= head && if line == "" then LineStart(text, head) else text[head] == line[0]
  {
  }

  // ---- Every run ----

  predicate Ordered(spans: seq<Span>, from: int) {
    spans == [] || (from <= spans[0].cur < spans[0].head && Ordered(spans[1..], spans[0].head))
  }

  predicate Covered(spans: seq<Span>, k: nat) { exists i :: 0 <= i < |spans| && spans[i].cur <= k < spans[i].head }

  // The tokens as the lexer delivers them.
  function Delivered(spans: seq<Span>, last: Stream): Stream {
    if spans == [] then last else More(spans[0].token, spans[0].text, Delivered(spans[1..], last))
  }

  function Last(s: Stream): Stream { if s.More? then Last(s.rest) else s }

  lemma {:induction false} OrderedMeans(spans: seq<Span>, from: int, i: nat, j: nat)
    requires Ordered(spans, from) && i < j < |spans|
    ensures from <= spans[i].cur && spans[i].head <= spans[j].cur
  {
    if i > 0 {
      OrderedMeans(spans[1..], spans[0].head, i - 1, j - 1);
    } else if j > 1 {
      OrderedMeans(spans[1..], spans[0].head, 0, j - 1);
    }
  }

  lemma {:induction false} EveryToken(keywords: set<string>, text: string, line: string, unread: string)
    requires Located(text, line, unread)
    ensures var spans := Spans(keywords, text, line, unread);
      && Ordered(spans, At(text, line, unread))
      && (forall i :: 0 <= i < |spans| ==> SpanHolds(keywords, text, spans[i]))
    decreases |line| + |unread|
  {
    hide Suffix, Lex, Seek, LexAt, SpanHolds;
    SeekSkips(text, line, unread);
    if Lex(keywords, line, unread).Lexeme? {
      FirstToken(keywords, text, line, unread);
      var r := Lex(keywords, line, unread);
      EveryToken(keywords, text, r.line, r.unread);
      var spans := Spans(keywords, text, line, unread);
      assert spans[1..] == Spans(keywords, text, r.line, r.unread);
      forall i | 0 <= i < |spans| ensures SpanHolds(keywords, text, spans[i]) {
        assert i > 0 ==> spans[i] == spans[1..][i - 1];
      }
    }
  }

  lemma FirstToken(keywords: set<string>, text: string, line: string, unread: string)
    requires Located(text, line, unread) && Lex(keywords, line, unread).Lexeme?
    ensures var r, (rest, lines) := Lex(keywords, line, unread), Seek(line, unread);
      && Located(text, rest, lines) && Located(text, r.line, r.unread)
      && At(text, line, unread) <= At(text, rest, lines) < At(text, r.line, r.unread)
      && SpanHolds(keywords, text, Span(r.token, r.text, At(text, rest, lines), At(text, r.line, r.unread)))
  {
    hide Suffix, Seek, LexAt, SpanHolds;
    SeekSkips(text, line, unread);
    var at := Seek(line, unread);
    TokenSpelled(keywords, text, at.0, at.1);
  }

  lemma {:induction false} TokensAreSpans(keywords: set<string>, text: string, line: string, unread: string)
    requires |line| + |unread| <= |text|
    ensures var s := Tokens(keywords, line, unread);
      s == Delivered(Spans(keywords, text, line, unread), Last(s)) && !Last(s).More?
    decreases |line| + |unread|
  {
    hide Lex, Seek;
    if Lex(keywords, line, unread).Lexeme? {
      var r := Lex(keywords, line, unread);
      TokensAreSpans(keywords, text, r.line, r.unread);
      assert Spans(keywords, text, line, unread)[1..] == Spans(keywords, text, r.line, r.unread);
    }
  }

  // How far the lexer gets: to the end of the text, or to the quote of a string that is left open.
  function Stop(keywords: set<string>, text: string, line: string, unread: string): int
    decreases |line| + |unread|
  {
    var at := Seek(line, unread);
    match Lex(keywords, line, unread)
    case Lexeme(_, _, line', unread') => Stop(keywords, text, line', unread')
    case AtEnd => |text|
    case Unterminated => At(text, at.0, at.1)
  }

  // Up to there, whatever no token covers is white space or comment.
  lemma {:induction false} NothingElseSkipped(keywords: set<string>, text: string, line: string, unread: string, k: nat)
    requires Located(text, line, unread)
    requires At(text, line, unread) <= k < |text| && k < Stop(keywords, text, line, unread)
    ensures Covered(Spans(keywords, text, line, unread), k) || Skippable(text, k)
    decreases |line| + |unread|
  {
    hide Suffix, Seek, LexAt, SpanHolds, Skippable;
    SeekSkips(text, line, unread);
    var r := Lex(keywords, line, unread);
    if r.Lexeme? {
      FirstToken(keywords, text, line, unread);
      var spans := Spans(keywords, text, line, unread);
      assert spans[1..] == Spans(keywords, text, r.line, r.unread);
      if k < spans[0].head {
        assert spans[0].cur <= k ==> Covered(spans, k);
      } else {
        NothingElseSkipped(keywords, text, r.line, r.unread, k);
        if Covered(spans[1..], k) {
          var i :| 0 <= i < |spans[1..]| && spans[1..][i].cur <= k < spans[1..][i].head;
          assert spans[i + 1] == spans[1..][i];
        }
      }
    }
  }

  // Behind every token the lexer stops at the end of the text or at the quote of a string left open.
  lemma {:induction false} StopsWhere(keywords: set<string>, text: string, line: string, unread: string)
    requires Located(text, line, unread)
    ensures var s, stop := Last(Tokens(keywords, line, unread)), Stop(keywords, text, line, unread);
      && At(text, line, unread) <= stop <= |text|
      && (s.End? ==> stop == |text|)
      && (s.Broken? ==> stop < |text| && text[stop] == '"')
      && forall i :: 0 <= i < |Spans(keywords, text, line, unread)| ==>
        Spans(keywords, text, line, unread)[i].head <= stop
    decreases |line| + |unread|
  {
    hide Suffix, Seek, SpanHolds, Skippable, LexAt;
    SeekSkips(text, line, unread);
    var r := Lex(keywords, line, unread);
    if r.Lexeme? {
      FirstToken(keywords, text, line, unread);
      StopsWhere(keywords, text, r.line, r.unread);
      var spans := Spans(keywords, text, line, unread);
      assert spans[1..] == Spans(keywords, text, r.line, r.unread);
      assert forall i :: 0 < i < |spans| ==> spans[i] == spans[1..][i - 1];
    } else if r.Unterminated? {
      var at := Seek(line, unread);
      OpenQuote(keywords, at.0, at.1);
      WordEnds(text, at.0, at.1);
    }
  }

  lemma OpenQuote(keywords: set<string>, line: string, unread: string)
    requires line != "" && !IsSpace(line[0]) && LexAt(keywords, line, unread).Unterminated?
    ensures line[0] == '"' && ReadQuoted(line[1..]).Open?
  {
  }

  // A text lexed from its start: it ends, with every token a slice in order, and nothing else is skipped
  // before the end of the text or the string that is left open.
  lemma WholeText(keywords: set<string>, text: string)
    ensures var s, spans := Tokens(keywords, "", text), Spans(keywords, text, "", text);
      var stop := Stop(keywords, text, "", text);
      && s == Delivered(spans, Last(s)) && (Last(s).End? || Last(s).Broken?)
      && (forall i :: 0 <= i < |spans| ==> SpanHolds(keywords, text, spans[i]) && spans[i].head <= stop)
      && (forall i, j :: 0 <= i < j < |spans| ==> spans[i].head <= spans[j].cur)
      && (Last(s).End? ==> stop == |text|)
      && (Last(s).Broken? ==> 0 <= stop < |text| && text[stop] == '"')
      && forall k :: 0 <= k < |text| && k < stop ==> Covered(spans, k) || Skippable(text, k)
  {
    hide Suffix, Tokens, Spans, SpanHolds, Ordered, Skippable, Covered, Stop;
    FromTheStart(text);
    TokensAreSpans(keywords, text, "", text);
    EveryToken(keywords, text, "", text);
    StopsWhere(keywords, text, "", text);
    var spans := Spans(keywords, text, "", text);
    forall i, j | 0 <= i < j < |spans| ensures spans[i].head <= spans[j].cur { OrderedMeans(spans, 0, i, j); }
    forall k | 0 <= k < |text| && k < Stop(keywords, text, "", text) ensures Covered(spans, k) || Skippable(text, k) {
      NothingElseSkipped(keywords, text, "", text, k);
    }
  }

  lemma FromTheStart(text: string)
    ensures Located(text, "", text) && At(text, "", text) == 0
  {
  }
}
