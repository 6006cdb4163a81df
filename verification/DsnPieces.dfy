// What the lexer makes of a line, piece by piece, in the characters of the text.
module DsnPieces {
  import opened Decimal
  import opened DsnNumber
  import opened DsnLexer

  // ---- Lexing one piece after the other ----

  lemma {:induction false} LeadingBlanks(keywords: set<string>, blanks: string, line: string, unread: string)
    requires forall i :: 0 <= i < |blanks| ==> IsSpace(blanks[i])
    ensures Tokens(keywords, blanks + line, unread) == Tokens(keywords, line, unread)
  {
    hide LexAt, SeekLine, IsSpace;
    if blanks == "" {
      assert blanks + line == line;
    } else {
      LeadingBlanks(keywords, blanks[1..], line, unread);
      var s := blanks + line;
      assert s[1..] == blanks[1..] + line;
      OneBlank(s, unread);
    }
  }

  lemma OneBlank(s: string, unread: string)
    requires s != "" && IsSpace(s[0])
    ensures Seek(s, unread) == Seek(s[1..], unread)
  {
  }

  lemma {:induction false} FirstLineIs(body: string, unread: string)
    requires '\n' !in body
    ensures FirstLine(body + "\n" + unread) == |body| + 1
  {
    var s := body + "\n" + unread;
    if body != "" {
      assert s[0] == body[0] && body[0] in body;
      assert s[1..] == body[1..] + "\n" + unread;
      forall c | c in body[1..] ensures c in body {}
      FirstLineIs(body[1..], unread);
    } else {
      assert s[0] == '\n';
    }
  }

  lemma Mark(keywords: set<string>, c: char, line: string, unread: string)
    requires c == '(' || c == ')' || c == '|'
    ensures Tokens(keywords, [c] + line, unread)
      == More(if c == '(' then LEFT else if c == ')' then RIGHT else BAR, [c], Tokens(keywords, line, unread))
  {
  }

  lemma {:induction false} WordIs(word: string, line: string)
    requires (forall i :: 0 <= i < |word| ==> !IsSep(word[i])) && (line == "" || IsSep(line[0]))
    ensures Word(word + line) == |word|
  {
    hide IsSep;
    if word == "" {
      assert word + line == line;
    } else {
      assert (word + line)[1..] == word[1..] + line;
      WordIs(word[1..], line);
    }
  }

  lemma OneWord(keywords: set<string>, word: string, line: string, unread: string)
    requires word != "" && word[0] != '"' && (forall i :: 0 <= i < |word| ==> !IsSep(word[i]))
    requires line == "" || IsSep(line[0])
    ensures Tokens(keywords, word + line, unread) ==
      More(WordToken(keywords, word), word, Tokens(keywords, line, unread))
  {
    hide Word, IsNumber, ReadQuoted, WordToken;
    var s := word + line;
    WordIs(word, line);
    assert s[0] == word[0] && !IsSep(word[0]);
    assert Blanks(s) == 0 && s[0..] == s;
    assert s[..|word|] == word && s[|word|..] == line;
  }

  lemma {:induction false} BlanksAre(blanks: string, line: string)
    requires (forall i :: 0 <= i < |blanks| ==> IsSpace(blanks[i])) && line != "" && !IsSpace(line[0])
    ensures Blanks(blanks + line) == |blanks|
  {
    hide IsSpace;
    if blanks == "" {
      assert blanks + line == line;
    } else {
      assert (blanks + line)[1..] == blanks[1..] + line;
      BlanksAre(blanks[1..], line);
    }
  }

  lemma LineEnds(keywords: set<string>, unread: string)
    ensures Tokens(keywords, "\n", unread) == Tokens(keywords, "", unread)
  {
  }

  // ---- In literal characters ----

  predicate IsBlank(c: char) { c in {' ', '\n', '\r', '\t', '\0'} }

  predicate IsBreak(c: char) { IsBlank(c) || c in {'(', ')', '|'} }

  lemma Characters(c: char)
    ensures IsBlank(c) <==> IsSpace(c)
    ensures IsBreak(c) <==> IsSep(c)
  {
  }

  // Blanks in front are skipped; parentheses and bars are tokens of their own.
  lemma FirstCharacter(keywords: set<string>, c: char, line: string, unread: string)
    ensures IsBlank(c) ==> Tokens(keywords, [c] + line, unread) == Tokens(keywords, line, unread)
    ensures c == '(' ==> Tokens(keywords, [c] + line, unread) == More(LEFT, "(", Tokens(keywords, line, unread))
    ensures c == ')' ==> Tokens(keywords, [c] + line, unread) == More(RIGHT, ")", Tokens(keywords, line, unread))
    ensures c == '|' ==> Tokens(keywords, [c] + line, unread) == More(BAR, "|", Tokens(keywords, line, unread))
  {
    hide Tokens;
    Characters(c);
    if IsBlank(c) {
      LeadingBlanks(keywords, [c], line, unread);
    } else if c in {'(', ')', '|'} {
      Mark(keywords, c, line, unread);
    }
  }

  // A word goes on up to a blank, parenthesis or bar; it is a number, a keyword or a symbol.
  lemma WordTaken(keywords: set<string>, word: string, line: string, unread: string)
    requires word != "" && word[0] != '"' && (forall i :: 0 <= i < |word| ==> !IsBreak(word[i]))
    requires line == "" || IsBreak(line[0])
    ensures Tokens(keywords, word + line, unread) ==
      More(if IsNumber(word) then NUMBER else if word in keywords then Keyword(word) else SYMBOL, word,
           Tokens(keywords, line, unread))
  {
    hide Tokens, IsNumber, IsBreak, IsSep;
    forall i | 0 <= i < |word| ensures !IsSep(word[i]) { Characters(word[i]); }
    if line != "" { Characters(line[0]); }
    OneWord(keywords, word, line, unread);
  }

  // The end of a line is skipped, and so is a line whose first character other than a blank is #.
  lemma CommentSkipped(keywords: set<string>, blanks: string, comment: string, unread: string)
    requires (forall i :: 0 <= i < |blanks| ==> blanks[i] in {' ', '\t', '\r', '\0'}) && '\n' !in comment
    ensures Tokens(keywords, "", blanks + "#" + comment + "\n" + unread) == Tokens(keywords, "", unread)
  {
    hide LexAt;
    var body := blanks + ("#" + comment);
    var line := body + "\n";
    assert '\n' !in body;
    FirstLineIs(body, unread);
    assert blanks + "#" + comment + "\n" + unread == line + unread;
    assert (line + unread)[..|line|] == line && (line + unread)[|line|..] == unread;
    BlanksAre(blanks, "#" + comment + "\n");
    assert line == blanks + ("#" + comment + "\n");
    assert line[|blanks|] == '#' && IsComment(line);
    assert SeekLine(line + unread) == SeekLine(unread);
  }

  // ---- Escapes ----

  lemma BackslashReads(s: string)
    requires s != ""
    ensures ReadQuoted("\\" + s) == Prepend([Escape(s).0], ReadQuoted(s[Escape(s).1..]))
  {
    hide Escape;
    var t := "\\" + s;
    assert t[0] == '\\' && t[1..] == s;
  }

  // The character codes of the named escapes.
  lemma NamedEscapes(s: string)
    ensures ReadQuoted("\\n" + s) == Prepend([10 as char], ReadQuoted(s))
    ensures ReadQuoted("\\r" + s) == Prepend([13 as char], ReadQuoted(s))
    ensures ReadQuoted("\\t" + s) == Prepend([9 as char], ReadQuoted(s))
    ensures ReadQuoted("\\a" + s) == Prepend([7 as char], ReadQuoted(s))
    ensures ReadQuoted("\\b" + s) == Prepend([8 as char], ReadQuoted(s))
    ensures ReadQuoted("\\f" + s) == Prepend([12 as char], ReadQuoted(s))
    ensures ReadQuoted("\\v" + s) == Prepend([11 as char], ReadQuoted(s))
    ensures ReadQuoted("\\\"" + s) == Prepend([34 as char], ReadQuoted(s))
    ensures ReadQuoted("\\\\" + s) == Prepend([92 as char], ReadQuoted(s))
  {
    hide ReadQuoted, Prepend;
    NamedEscapeIs('n', 10, s);
    NamedEscapeIs('r', 13, s);
    NamedEscapeIs('t', 9, s);
    NamedEscapeIs('a', 7, s);
    NamedEscapeIs('b', 8, s);
    NamedEscapeIs('f', 12, s);
    NamedEscapeIs('v', 11, s);
    NamedEscapeIs('"', 34, s);
    NamedEscapeIs('\\', 92, s);
  }

  lemma NamedEscapeIs(name: char, code: nat, s: string)
    requires HasName(name) && code < 128 && NamedEscape(name) == code as char
    ensures ReadQuoted(['\\', name] + s) == Prepend([code as char], ReadQuoted(s))
  {
    hide ReadQuoted;
    var t := [name] + s;
    BackslashReads(t);
    assert t[1..] == s && ['\\', name] + s == "\\" + t;
  }

  function DigitOf(c: char): nat
    requires '0' <= c <= '9' || 'a' <= c <= 'f' || 'A' <= c <= 'F'
  {
    if c <= '9' then c as int - 48 else if c <= 'F' then c as int - 55 else c as int - 87
  }

  predicate IsHexDigit(c: char) { '0' <= c <= '9' || 'a' <= c <= 'f' || 'A' <= c <= 'F' }

  // \x and two hexadecimal digits, or one; without a digit it stands for an x.
  lemma HexEscape(a: char, b: char, s: string)
    requires IsHexDigit(a) && IsHexDigit(b)
    ensures ReadQuoted("\\x" + ([a, b] + s)) == Prepend([(DigitOf(a) * 16 + DigitOf(b)) as char], ReadQuoted(s))
  {
    hide ReadQuoted, Prepend;
    HexCount([a, b], s);
    HexRead([a, b], s);
    assert TwoDigits(a, b) == HexByte([a, b]);
  }

  lemma ShortHexEscape(a: char, s: string)
    requires IsHexDigit(a) && (s == "" || !IsHexDigit(s[0]))
    ensures ReadQuoted("\\x" + ([a] + s)) == Prepend([DigitOf(a) as char], ReadQuoted(s))
    ensures ReadQuoted("\\x" + s) == Prepend("x", ReadQuoted(s))
  {
    hide ReadQuoted, Prepend;
    HexCount([a], s);
    HexRead([a], s);
    HexCount("", s);
    HexRead("", s);
    assert "" + s == s;
  }

  function TwoDigits(a: char, b: char): nat
    requires IsHexDigit(a) && IsHexDigit(b)
  {
    DigitOf(a) * 16 + DigitOf(b)
  }

  lemma HexCount(digits: string, s: string)
    requires |digits| <= 2 && (forall i :: 0 <= i < |digits| ==> IsHexDigit(digits[i]))
    requires |digits| == 2 || s == "" || !IsHexDigit(s[0])
    ensures HexDigits(digits + s) == |digits|
  {
    var t := digits + s;
    assert forall i :: 0 <= i < |digits| ==> t[i] == digits[i];
    assert |digits| < |t| ==> t[|digits|] == s[0];
  }

  lemma HexRead(digits: string, s: string)
    requires HexDigits(digits + s) == |digits|
    ensures forall i :: 0 <= i < |digits| ==> IsHex(digits[i])
    ensures ReadQuoted("\\x" + (digits + s))
      == Prepend([if digits == "" then 'x' else HexByte(digits) as char], ReadQuoted(s))
  {
    hide ReadQuoted, HexDigits, HexByte, Prepend;
    var t := digits + s;
    BackslashReads("x" + t);
    assert ("x" + t)[1..] == t && "\\x" + t == "\\" + ("x" + t);
    assert t[..|digits|] == digits && ("x" + t)[1 + |digits|..] == s;
    assert forall i :: 0 <= i < |digits| ==> digits[i] == t[i];
  }

  // Up to three octal digits, modulo 256; a backslash in front of anything else stands for itself.
  lemma OctalEscape(digits: string, s: string)
    requires 1 <= |digits| <= 3 && (forall i :: 0 <= i < |digits| ==> '0' <= digits[i] <= '7')
    requires |digits| == 3 || s == "" || !('0' <= s[0] <= '7')
    ensures ReadQuoted("\\" + (digits + s)) == Prepend([(OctalSum(digits) % 256) as char], ReadQuoted(s))
  {
    hide ReadQuoted, Prepend, OctalByte;
    OctalCount(digits, s);
    var t := digits + s;
    BackslashReads(t);
    assert t[..|digits|] == digits && t[|digits|..] == s && t[0] == digits[0];
    OctalByteIs(digits);
  }

  function OctalSum(digits: string): nat
    requires forall i :: 0 <= i < |digits| ==> '0' <= digits[i] <= '7'
  {
    if digits == "" then 0 else OctalSum(digits[..|digits| - 1]) * 8 + (digits[|digits| - 1] as int - 48)
  }

  lemma OctalCount(digits: string, s: string)
    requires 1 <= |digits| <= 3 && (forall i :: 0 <= i < |digits| ==> '0' <= digits[i] <= '7')
    requires |digits| == 3 || s == "" || !('0' <= s[0] <= '7')
    ensures OctalDigits(digits + s) == |digits|
  {
    var t := digits + s;
    assert forall i :: 0 <= i < |digits| ==> t[i] == digits[i];
    assert |digits| < |t| ==> t[|digits|] == s[0];
  }

  lemma OctalByteIs(digits: string)
    requires 1 <= |digits| <= 3 && (forall i :: 0 <= i < |digits| ==> '0' <= digits[i] <= '7')
    ensures OctalByte(digits) == OctalSum(digits) % 256
  {
    var n := |digits|;
    assert digits[..n - 1][..if n >= 2 then n - 2 else 0] == digits[..if n >= 2 then n - 2 else 0];
    assert OctalSum("") == 0;
    assert OctalSum(digits[..1]) == digits[0] as int - 48;
    if n >= 2 {
      assert digits[..2][..1] == digits[..1];
      assert OctalSum(digits[..2]) == (digits[0] as int - 48) * 8 + (digits[1] as int - 48);
    }
    assert digits[..n] == digits;
  }

  lemma OtherEscapes(c: char, s: string)
    requires c !in {'"', '\\', 'a', 'b', 'f', 'n', 'r', 't', 'v', 'x'} && !('0' <= c <= '7')
    ensures ReadQuoted("\\" + ([c] + s)) == Prepend("\\", ReadQuoted([c] + s))
  {
    hide ReadQuoted;
    BackslashReads([c] + s);
    assert ([c] + s)[0..] == [c] + s;
  }
}
