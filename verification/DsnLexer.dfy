// The s-expression lexer: common/dsnlexer.cpp outside specctra mode, comments skipped.
module DsnLexer {
  import opened Decimal
  import opened DsnNumber

  datatype Token = NONE | EOF | LEFT | RIGHT | BAR | STRING | NUMBER | SYMBOL | Keyword(name: string)

  // A word that is a keyword by coincidence is still a symbol.
  predicate IsSymbol(t: Token) { t.SYMBOL? || t.STRING? || t.Keyword? }

  // ---- Characters ----

  predicate IsSpace(c: char) { c == ' ' || c == '\n' || c == '\r' || c == '\t' || c == '\0' }

  predicate IsSep(c: char) { IsSpace(c) || c == '(' || c == ')' || c == '|' }

  predicate IsOctal(c: char) { '0' <= c <= '7' }

  predicate IsHex(c: char) { IsDigit(c) || 'a' <= c <= 'f' || 'A' <= c <= 'F' }

  function HexDigitValue(c: char): (v: nat)
    requires IsHex(c)
    ensures v < 16
  {
    if IsDigit(c) then c as int - '0' as int
    else if 'a' <= c <= 'f' then c as int - 'a' as int + 10
    else c as int - 'A' as int + 10
  }

  // How many characters in front are blanks; how many come before the first separator; how many make
  // up the first line, with its line feed.
  function Blanks(s: string): (n: nat)
    ensures n <= |s| && (n < |s| ==> !IsSpace(s[n])) && forall i :: 0 <= i < n ==> IsSpace(s[i])
  {
    if s != "" && IsSpace(s[0]) then 1 + Blanks(s[1..]) else 0
  }

  function Word(s: string): (n: nat)
    ensures n <= |s| && (n < |s| ==> IsSep(s[n])) && forall i :: 0 <= i < n ==> !IsSep(s[i])
  {
    if s != "" && !IsSep(s[0]) then 1 + Word(s[1..]) else 0
  }

  function FirstLine(s: string): (n: nat)
    ensures n <= |s| && (s != "" ==> n > 0) && forall i :: 0 <= i < n - 1 ==> s[i] != '\n'
    ensures n < |s| ==> s[n - 1] == '\n'
  {
    if s == "" then 0 else if s[0] == '\n' then 1 else 1 + FirstLine(s[1..])
  }

  // ---- Quoted strings ----

  // The text up to the closing quote with escapes resolved, and what follows the quote.
  datatype Quoted = Closed(text: string, rest: string) | Open

  function Prepend(front: string, q: Quoted): Quoted {
    if q.Closed? then Closed(front + q.text, q.rest) else Open
  }

  // Up to three octal digits, up to two hexadecimal ones.
  function OctalDigits(s: string): (n: nat)
    ensures n <= |s| && n <= 3 && forall i :: 0 <= i < n ==> IsOctal(s[i])
  {
    if |s| == 0 || !IsOctal(s[0]) then 0
    else if |s| == 1 || !IsOctal(s[1]) then 1
    else if |s| == 2 || !IsOctal(s[2]) then 2
    else 3
  }

  function HexDigits(s: string): (n: nat)
    ensures n <= |s| && n <= 2 && forall i :: 0 <= i < n ==> IsHex(s[i])
  {
    if |s| == 0 || !IsHex(s[0]) then 0 else if |s| == 1 || !IsHex(s[1]) then 1 else 2
  }

  // The byte they stand for.
  function OctalByte(s: string): (b: nat)
    requires 0 < |s| <= 3 && forall i :: 0 <= i < |s| ==> IsOctal(s[i])
    ensures b < 256
  {
    var d := seq(|s|, i requires 0 <= i < |s| => s[i] as int - '0' as int);
    (if |s| == 1 then d[0] else if |s| == 2 then d[0] * 8 + d[1] else d[0] * 64 + d[1] * 8 + d[2]) % 256
  }

  function HexByte(s: string): (b: nat)
    requires 0 < |s| <= 2 && forall i :: 0 <= i < |s| ==> IsHex(s[i])
    ensures b < 256
  {
    if |s| == 1 then HexDigitValue(s[0]) else HexDigitValue(s[0]) * 16 + HexDigitValue(s[1])
  }

  function NamedEscape(c: char): char {
    match c
    case 'a' => '\U{0007}'
    case 'b' => '\U{0008}'
    case 'f' => '\U{000C}'
    case 'n' => '\n'
    case 'r' => '\r'
    case 't' => '\t'
    case 'v' => '\U{000B}'
    case _ => c
  }

  predicate HasName(c: char) { c in "\"\\abfnrtv" }

  // The character an escape stands for, given what follows its backslash, and how much of it is used.
  // A backslash in front of anything else stands for itself.
  function Escape(s: string): (r: (char, nat))
    requires s != ""
    ensures r.1 <= |s|
  {
    if HasName(s[0]) then (NamedEscape(s[0]), 1)
    else if s[0] == 'x' then
      var n := HexDigits(s[1..]);
      (if n == 0 then 'x' else HexByte(s[1..][..n]) as char, 1 + n)
    else
      var n := OctalDigits(s);
      (if n == 0 then '\\' else OctalByte(s[..n]) as char, n)
  }

  function ReadQuoted(s: string): (q: Quoted)
    ensures q.Closed? ==> |q.rest| < |s|
    decreases |s|
  {
    if s == "" then Open
    else if s[0] == '\\' then
      if |s| == 1 then Open
      else var e := Escape(s[1..]); Prepend([e.0], ReadQuoted(s[1..][e.1..]))
    else if s[0] == '"' then Closed("", s[1..])
    else Prepend([s[0]], ReadQuoted(s[1..]))
  }

  // ---- One token ----

  // A token, its text, and what is left of its line and of the lines behind.
  datatype Lexed = Lexeme(token: Token, text: string, line: string, unread: string) | AtEnd | Unterminated

  function FindToken(keywords: set<string>, word: string): Token {
    if word in keywords then Keyword(word) else SYMBOL
  }

  function WordToken(keywords: set<string>, word: string): Token {
    if IsNumber(word) then NUMBER else FindToken(keywords, word)
  }

  function LexAt(keywords: set<string>, line: string, unread: string): (r: Lexed)
    requires line != "" && !IsSpace(line[0])
    ensures r.Lexeme? ==> |r.line| < |line| && r.unread == unread
    ensures !r.AtEnd? && (r.Lexeme? ==> !r.token.EOF?)
  {
    if line[0] == '(' then Lexeme(LEFT, "(", line[1..], unread)
    else if line[0] == ')' then Lexeme(RIGHT, ")", line[1..], unread)
    else if line[0] == '|' then Lexeme(BAR, "|", line[1..], unread)
    else if line[0] == '"' then
      var q := ReadQuoted(line[1..]);
      if q.Closed? then Lexeme(STRING, q.text, q.rest, unread) else Unterminated
    else
      var n := Word(line);
      Lexeme(WordToken(keywords, line[..n]), line[..n], line[n..], unread)
  }

  // A line whose first character other than a blank is #.
  predicate IsComment(line: string) { Blanks(line) < |line| && line[Blanks(line)] == '#' }

  // Where the next token starts in lines not read yet; comments are skipped. Nothing is left at the end.
  function SeekLine(unread: string): (r: (string, string))
    ensures |r.0| + |r.1| <= |unread| && (r.0 != "" ==> !IsSpace(r.0[0])) && (r.0 == "" ==> r.1 == "")
    decreases |unread|
  {
    if unread == "" then ("", "")
    else
      var n := FirstLine(unread);
      var line := unread[..n];
      if Blanks(line) == n || IsComment(line) then SeekLine(unread[n..]) else (line[Blanks(line)..], unread[n..])
  }

  function Seek(line: string, unread: string): (r: (string, string))
    ensures |r.0| + |r.1| <= |line| + |unread| && (r.0 != "" ==> !IsSpace(r.0[0])) && (r.0 == "" ==> r.1 == "")
  {
    if Blanks(line) == |line| then SeekLine(unread) else (line[Blanks(line)..], unread)
  }

  function Lex(keywords: set<string>, line: string, unread: string): (r: Lexed)
    ensures r.Lexeme? ==> |r.line| + |r.unread| < |line| + |unread|
  {
    var at := Seek(line, unread);
    if at.0 == "" then AtEnd else LexAt(keywords, at.0, at.1)
  }

  // ---- Every token ----

  // What repeated calls give: tokens, then the end of the input or an unterminated string.
  datatype Stream = More(token: Token, text: string, rest: Stream) | End | Broken

  function Tokens(keywords: set<string>, line: string, unread: string): Stream
    decreases |line| + |unread|
  {
    var r := Lex(keywords, line, unread);
    match r
    case Lexeme(token, text, line', unread') => More(token, text, Tokens(keywords, line', unread'))
    case AtEnd => End
    case Unterminated => Broken
  }

  // ---- The lexer ----

  method SkipBlanks(line: string, start: nat) returns (cur: nat)
    requires start <= |line|
    ensures start <= cur <= |line| && line[cur..] == line[start..][Blanks(line[start..])..]
  {
    cur := start;
    while cur < |line| && IsSpace(line[cur])
      invariant start <= cur <= |line| && Blanks(line[start..]) == cur - start + Blanks(line[cur..])
    {
      assert line[cur..][1..] == line[cur + 1..];
      cur := cur + 1;
    }
    assert Blanks(line[cur..]) == 0;
  }

  method ReadWord(line: string, cur: nat) returns (text: string, head: nat)
    requires cur <= |line|
    ensures var n := Word(line[cur..]);
      text == line[cur..][..n] && head == cur + n
  {
    hide IsSep;
    text, head := "", cur;
    while head < |line| && !IsSep(line[head])
      invariant cur <= head <= |line| && text == line[cur..head]
      invariant Word(line[cur..]) == head - cur + Word(line[head..])
    {
      assert line[head..][1..] == line[head + 1..];
      text := text + [line[head]];
      head := head + 1;
    }
  }

  // What the buffer holds: behind its limit there is a NUL.
  function Peek(line: string, i: nat): char { if i < |line| then line[i] else '\0' }

  // The escape behind the backslash at head - 1.
  method ReadEscape(line: string, start: nat) returns (c: char, head: nat)
    requires start < |line|
    ensures (c, head - start) == Escape(line[start..]) && start <= head <= |line|
  {
    hide OctalByte, HexByte;
    var i := 0;
    ghost var s := line[start..];
    head := start + 1;
    if HasName(line[start]) {
      c := NamedEscape(line[start]);
    } else if line[start] == 'x' {
      ghost var t := s[1..];
      while i < 2 && IsHex(Peek(line, head + i))
        invariant i <= 2 && i <= |t| && forall k :: 0 <= k < i ==> IsHex(t[k])
      {
        assert line[head + i] == t[i];
        i := i + 1;
      }
      assert i < |t| ==> Peek(line, head + i) == t[i];
      assert i == HexDigits(t);
      assert t[..i] == line[head..head + i];
      c := if i > 0 then HexByte(line[head..head + i]) as char else 'x';
      head := head + i;
    } else {
      head := head - 1;
      while i < 3 && IsOctal(Peek(line, head + i))
        invariant i <= 3 && i <= |s| && forall k :: 0 <= k < i ==> IsOctal(s[k])
      {
        assert line[head + i] == s[i];
        i := i + 1;
      }
      assert i < |s| ==> Peek(line, head + i) == s[i];
      assert i == OctalDigits(s);
      assert s[..i] == line[head..head + i];
      c := if i > 0 then OctalByte(line[head..head + i]) as char else '\\';
      head := head + i;
    }
  }

  // One step of reading a quoted string from its buffer.
  lemma QuotedStep(line: string, head: nat, after: nat, c: char)
    requires head < |line| && head < after <= |line|
    requires if line[head] == '\\' then head + 1 < |line| && (c, after - head - 1) == Escape(line[head + 1..])
      else line[head] != '"' && c == line[head] && after == head + 1
    ensures ReadQuoted(line[head..]) == Prepend([c], ReadQuoted(line[after..]))
  {
    hide Escape, Prepend;
    var s := line[head..];
    assert s[1..] == line[head + 1..];
    if line[head] == '\\' { assert line[head + 1..][after - head - 1..] == line[after..]; }
  }

  lemma PrependTwice(a: string, b: string, q: Quoted)
    ensures Prepend(a, Prepend(b, q)) == Prepend(a + b, q)
  {
  }

  lemma QuotedEnd(line: string, head: nat)
    requires head <= |line|
    requires head == |line| || line[head] == '"' || (line[head] == '\\' && head + 1 == |line|)
    ensures ReadQuoted(line[head..])
      == if head < |line| && line[head] == '"' then Closed("", line[head + 1..]) else Open
  {
  }

  // The quoted string whose opening quote is at cur - 1.
  method ReadString(line: string, cur: nat) returns (closed: bool, text: string, head: nat)
    requires cur <= |line|
    ensures head <= |line|
    ensures ReadQuoted(line[cur..]) == if closed then Closed(text, line[head..]) else Open
  {
    hide Escape, ReadQuoted;
    text, head := "", cur;
    while head < |line|
      invariant cur <= head <= |line|
      invariant ReadQuoted(line[cur..]) == Prepend(text, ReadQuoted(line[head..]))
    {
      ghost var was, before := head, text;
      var c := line[head];
      if line[head] == '\\' {
        head := head + 1;
        if head >= |line| {
          QuotedEnd(line, was);
          return false, text, head;
        }
        c, head := ReadEscape(line, head);
      } else if line[head] == '"' {
        QuotedEnd(line, head);
        return true, text, head + 1;
      } else {
        head := head + 1;
      }
      text := text + [c];
      QuotedStep(line, was, head, c);
      PrependTwice(before, [c], ReadQuoted(line[head..]));
    }
    QuotedEnd(line, head);
    closed := false;
  }

  // The lexer's fields: reader's text not read yet, its current line from start to limit, and next.
  class Lexer {
    const keywords: set<string>
    var unread: string
    var line: string
    var next: nat
    var curTok: Token
    var prevTok: Token
    var curText: string

    predicate Valid()
      reads this
    {
      next <= |line| && (curTok.EOF? ==> next == |line| && unread == "")
    }

    ghost function Remaining(): Stream
      requires Valid()
      reads this
    {
      Tokens(keywords, line[next..], unread)
    }

    constructor (keywords: set<string>, source: string)
      ensures Valid() && curTok == NONE && this.keywords == keywords && Remaining() == Tokens(keywords, "", source)
    {
      this.keywords, unread, line, next := keywords, source, "", 0;
      curTok, prevTok, curText := NONE, NONE, "";
    }

    // The next line, with its line feed; nothing at the end of the input.
    method ReadLine() returns (len: nat)
      modifies `unread, `line, `next
      ensures next == 0 && len == |line| == FirstLine(old(unread))
      ensures line == old(unread)[..len] && unread == old(unread)[len..]
    {
      len := 0;
      while len < |unread|
        invariant len <= |unread| && FirstLine(unread) == len + FirstLine(unread[len..])
      {
        assert unread[len..][1..] == unread[len + 1..];
        len := len + 1;
        if unread[len - 1] == '\n' {
          break;
        }
      }
      line, unread, next := unread[..len], unread[len..], 0;
    }

    // To where the next token starts.
    method SeekToken() returns (found: bool, cur: nat)
      requires Valid()
      modifies `unread, `line, `next
      ensures next <= |line| && if found then cur < |line| else line == "" && unread == "" && cur == 0
      ensures old(Seek(line[next..], unread)) == (line[cur..], unread)
    {
      hide Blanks, FirstLine;
      ghost var sought := Seek(line[next..], unread);
      cur := next;
      var reading := true;
      if cur < |line| {
        cur := SkipBlanks(line, cur);
        reading := cur >= |line|;
      }
      assert reading ==> sought == SeekLine(unread);
      while reading
        invariant 0 <= cur <= |line| && next <= |line|
        invariant if reading then sought == SeekLine(unread) else cur < |line| && sought == (line[cur..], unread)
        decreases reading, |unread|
      {
        var len := ReadLine();
        if len == 0 {
          return false, 0;
        }
        cur := SkipBlanks(line, 0);
        assert line[0..] == line && cur == Blanks(line);
        reading := cur >= |line| || line[cur] == '#';
      }
      found := true;
    }

    // The token that starts at cur.
    method TakeToken(cur: nat) returns (ok: bool)
      requires cur < |line| && !IsSpace(line[cur]) && next <= |line|
      modifies `next, `curTok, `curText
      ensures next <= |line| && (ok ==> !curTok.EOF?)
      ensures var r := LexAt(keywords, line[cur..], unread);
        if ok then r.Lexeme? && curTok == r.token && curText == r.text && next <= |line| && line[next..] == r.line
        else r.Unterminated? && curTok == old(curTok) && next == old(next)
    {
      hide Word, ReadQuoted, IsNumber;
      assert line[cur..][1..] == line[cur + 1..];
      if line[cur] == '(' {
        curText, curTok, next := "(", LEFT, cur + 1;
      } else if line[cur] == ')' {
        curText, curTok, next := ")", RIGHT, cur + 1;
      } else if line[cur] == '|' {
        curText, curTok, next := "|", BAR, cur + 1;
      } else if line[cur] == '"' {
        var closed, text, head := ReadString(line, cur + 1);
        curText := text;
        if !closed {
          return false;
        }
        curTok, next := STRING, head;
      } else {
        var text, head := ReadWord(line, cur);
        assert line[cur..][Word(line[cur..])..] == line[head..];
        curText, next := text, head;
        var number := ScanNumber(text);
        curTok := if number then NUMBER else FindToken(keywords, text);
      }
      ok := true;
    }

    // Each call takes the first of the remaining tokens; an unterminated string is an error.
    method NextTok() returns (ok: bool)
      requires Valid()
      modifies this
      ensures Valid() && prevTok == old(curTok)
      ensures match old(Remaining())
        case More(token, text, rest) => ok && curTok == token && curText == text && Remaining() == rest
        case End => ok && curTok == EOF && Remaining() == End
        case Broken => !ok && curTok == old(curTok)
    {
      hide Seek, LexAt;
      AtTheEnd(keywords);
      prevTok := curTok;
      if curTok.EOF? {
        assert line[next..] == "";
        return true;
      }
      var found, cur := SeekToken();
      if !found {
        curTok := EOF;
        return true;
      }
      ok := TakeToken(cur);
    }

    // The token a caller insists on; anything else is an error.
    method NeedRIGHT() returns (ok: bool)
      requires Valid()
      modifies this
      ensures Valid() && (ok <==> old(Remaining()).More? && old(Remaining()).token.RIGHT?)
      ensures ok ==> Remaining() == old(Remaining()).rest
    {
      ok := NextTok();
      ok := ok && curTok.RIGHT?;
    }

    method NeedBAR() returns (ok: bool)
      requires Valid()
      modifies this
      ensures Valid() && (ok <==> old(Remaining()).More? && old(Remaining()).token.BAR?)
      ensures ok ==> Remaining() == old(Remaining()).rest
    {
      ok := NextTok();
      ok := ok && curTok.BAR?;
    }

    method NeedSYMBOLorNUMBER() returns (ok: bool)
      requires Valid()
      modifies this
      ensures var s := old(Remaining());
        Valid() && (ok <==> s.More? && (IsSymbol(s.token) || s.token.NUMBER?))
      ensures ok ==> Remaining() == old(Remaining()).rest && curText == old(Remaining()).text
    {
      ok := NextTok();
      ok := ok && (IsSymbol(curTok) || curTok.NUMBER?);
    }
  }

  lemma AtTheEnd(keywords: set<string>)
    ensures Lex(keywords, "", "") == AtEnd && Tokens(keywords, "", "") == End
  {
  }
}
