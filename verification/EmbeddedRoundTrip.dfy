// What is written for a table of embedded files is parsed back to that table.
module EmbeddedRoundTrip {
  import opened Decimal
  import opened DsnNumber
  import opened DsnLexer
  import opened DsnPieces
  import opened EmbeddedFiles
  import opened Options

  // Free of quotes, backslashes, line breaks and NULs.
  predicate Unescaped(s: string) {
    forall i :: 0 <= i < |s| ==> s[i] != '"' && s[i] != '\\' && s[i] != '\n' && s[i] != '\0'
  }

  lemma {:induction false} UnescapedIsRead(s: string, line: string)
    requires Unescaped(s)
    ensures ReadQuoted(s + "\"" + line) == Closed(s, line)
  {
    hide Escape;
    var t := s + "\"" + line;
    if s == "" {
      assert t[0] == '"' && t[1..] == line;
    } else {
      assert t[0] == s[0] && t[1..] == s[1..] + "\"" + line;
      UnescapedIsRead(s[1..], line);
      assert [s[0]] + s[1..] == s;
    }
  }

  lemma QuotedWord(keywords: set<string>, s: string, line: string, unread: string)
    requires Unescaped(s)
    ensures Tokens(keywords, "\"" + s + "\"" + line, unread) == More(STRING, s, Tokens(keywords, line, unread))
  {
    hide Word, IsNumber, ReadQuoted, WordToken, Unescaped;
    UnescapedIsRead(s, line);
    var t := "\"" + s + "\"" + line;
    assert t[0] == '"' && t[1..] == s + "\"" + line && t[0..] == t;
    assert Blanks(t) == 0;
  }

  lemma {:induction false} UnescapedUpToNul(s: string)
    requires Unescaped(s)
    ensures UpToNul(s) == s
  {
    if s != "" {
      UnescapedUpToNul(s[1..]);
      assert [s[0]] + s[1..] == s;
    }
  }

  lemma {:induction false} IndentIsBlank(n: nat)
    ensures forall i :: 0 <= i < |Indent(n)| ==> Indent(n)[i] == ' '
  {
    if n > 0 { IndentIsBlank(n - 1); }
  }

  // A written line: indentation, something that starts with neither a blank nor #, a line feed.
  lemma Line(keywords: set<string>, n: nat, body: string, unread: string)
    requires body != "" && '\n' !in body && body[0] != '#' && !IsSpace(body[0])
    ensures Tokens(keywords, "", Indent(n) + body + "\n" + unread) == Tokens(keywords, body + "\n", unread)
  {
    hide Tokens, Indent, IsSpace;
    IndentIsBlank(n);
    SpaceIsBlank();
    IndentedLine(keywords, Indent(n), body, unread);
  }

  lemma SpaceIsBlank()
    ensures IsSpace(' ')
  {
  }

  lemma IndentedLine(keywords: set<string>, indent: string, body: string, unread: string)
    requires (forall i :: 0 <= i < |indent| ==> indent[i] == ' ')
    requires body != "" && '\n' !in body && body[0] != '#' && !IsSpace(body[0])
    ensures Tokens(keywords, "", indent + body + "\n" + unread) == Tokens(keywords, body + "\n", unread)
  {
    hide LexAt;
    var line := indent + body + "\n";
    assert '\n' !in indent + body;
    FirstLineIs(indent + body, unread);
    assert (line + unread)[..|line|] == line && (line + unread)[|line|..] == unread;
    BlanksAre(indent, body + "\n");
    assert line == indent + (body + "\n");
    assert line[|indent|..] == body + "\n";
    assert Blanks(body + "\n") == 0;
  }

  // ---- Lexing the written lines ----

  function Opened(word: string, s: Stream): Stream { More(LEFT, "(", More(Keyword(word), word, s)) }

  function Shut(s: Stream): Stream { More(RIGHT, ")", s) }

  predicate Lower(s: string) { forall i :: 0 <= i < |s| ==> 'a' <= s[i] <= 'z' || s[i] == '_' }

  predicate IsKeyword(w: string) { w in KEYWORDS && w != "" && 'a' <= w[0] <= 'z' && Lower(w) }

  lemma LowerWord(word: string)
    requires IsKeyword(word)
    ensures WordToken(KEYWORDS, word) == Keyword(word)
    ensures word != "" && word[0] != '"' && (forall i :: 0 <= i < |word| ==> !IsSep(word[i])) && '\n' !in word
  {
    hide IsNumber;
    LetterFirst(word);
  }

  lemma UsedKeywords()
    ensures IsKeyword("embedded_files") && IsKeyword("file") && IsKeyword("name") && IsKeyword("type")
    ensures IsKeyword("data") && IsKeyword("checksum")
  {
  }

  lemma TypeKeyword(t: FileType)
    ensures IsKeyword(TypeName(t)) && NamedType(Keyword(TypeName(t))) == Some(t)
  {
  }

  lemma OpenLine(n: nat, word: string, unread: string)
    requires IsKeyword(word)
    ensures Tokens(KEYWORDS, "", OpenText(n, word) + unread) == Opened(word, Tokens(KEYWORDS, "", unread))
  {
    hide Tokens, Indent, IsKeyword, WordToken;
    LowerWord(word);
    Line(KEYWORDS, n, "(" + word, unread);
    assert Indent(n) + ("(" + word) + "\n" + unread == OpenText(n, word) + unread;
    Mark(KEYWORDS, '(', word + "\n", unread);
    assert "(" + word + "\n" == ['('] + (word + "\n");
    OneWord(KEYWORDS, word, "\n", unread);
    LineEnds(KEYWORDS, unread);
  }

  lemma CloseLine(n: nat, unread: string)
    ensures Tokens(KEYWORDS, "", CloseText(n) + unread) == Shut(Tokens(KEYWORDS, "", unread))
  {
    hide Tokens, Indent;
    Line(KEYWORDS, n, ")", unread);
    assert Indent(n) + ")" + "\n" + unread == CloseText(n) + unread;
    Mark(KEYWORDS, ')', "\n", unread);
    assert ")" + "\n" == [')'] + "\n";
    LineEnds(KEYWORDS, unread);
  }

  // An opening parenthesis, a keyword, a space and more on the same line.
  lemma FieldLine(n: nat, word: string, value: string, unread: string)
    requires IsKeyword(word) && '\n' !in value
    ensures Tokens(KEYWORDS, "", Indent(n) + "(" + word + " " + value + ")\n" + unread)
      == Opened(word, Tokens(KEYWORDS, value + ")\n", unread))
  {
    hide Tokens, Indent, IsKeyword, WordToken;
    LowerWord(word);
    var body := "(" + word + " " + value + ")";
    Line(KEYWORDS, n, body, unread);
    assert Indent(n) + body + "\n" + unread == Indent(n) + "(" + word + " " + value + ")\n" + unread;
    var rest := value + ")\n";
    assert body + "\n" == ['('] + (word + (" " + rest));
    Mark(KEYWORDS, '(', word + (" " + rest), unread);
    OneWord(KEYWORDS, word, " " + rest, unread);
    LeadingBlanks(KEYWORDS, " ", rest, unread);
  }

  lemma FieldEnds(unread: string)
    ensures Tokens(KEYWORDS, ")\n", unread) == Shut(Tokens(KEYWORDS, "", unread))
  {
  }

  lemma QuotedLine(n: nat, word: string, value: string, unread: string)
    requires IsKeyword(word) && Unescaped(value)
    ensures Tokens(KEYWORDS, "", QuotedText(n, word, value) + unread)
      == Opened(word, More(STRING, value, Shut(Tokens(KEYWORDS, "", unread))))
  {
    hide Tokens, Indent, IsKeyword, UpToNul, Unescaped;
    UnescapedUpToNul(value);
    var quoted := "\"" + value + "\"";
    UnescapedHasNoBreak(value);
    FieldLine(n, word, quoted, unread);
    assert Indent(n) + "(" + word + " " + quoted + ")\n" + unread
      == QuotedText(n, word, value) + unread;
    QuotedWord(KEYWORDS, value, ")\n", unread);
    FieldEnds(unread);
  }

  lemma UnescapedHasNoBreak(s: string)
    requires Unescaped(s)
    ensures '\n' !in s
  {
  }

  lemma TypeLine(n: nat, value: string, unread: string)
    requires IsKeyword(value)
    ensures Tokens(KEYWORDS, "", TypeText(n, value) + unread)
      == Opened("type", More(Keyword(value), value, Shut(Tokens(KEYWORDS, "", unread))))
  {
    hide Tokens, Indent, IsKeyword, WordToken;
    UsedKeywords();
    LowerWord(value);
    FieldLine(n, "type", value, unread);
    assert Indent(n) + "(" + "type" + " " + value + ")\n" + unread == TypeText(n, value) + unread;
    OneWord(KEYWORDS, value, ")\n", unread);
    FieldEnds(unread);
  }

  // ---- Data ----

  predicate IsBase64(c: char) {
    'A' <= c <= 'Z' || 'a' <= c <= 'z' || '0' <= c <= '9' || c == '+' || c == '/' || c == '='
  }

  predicate Base64(s: string) { forall i :: 0 <= i < |s| ==> IsBase64(s[i]) }

  // The words of the data and the closing bar.
  function ChunkStream(data: string, first: nat, s: Stream): Stream
    decreases |data| - first
  {
    if first >= |data| then More(BAR, "|", s)
    else
      var word := Chunk(data, first);
      More(WordToken(KEYWORDS, word), word, ChunkStream(data, first + MIME_BASE64_LENGTH, s))
  }

  lemma ChunkShape(data: string, first: nat)
    requires Base64(data) && first < |data|
    ensures var c := Chunk(data, first);
      c != "" && c[0] != '"' && c[0] != '#' && !IsSpace(c[0]) && '\n' !in c
      && forall i :: 0 <= i < |c| ==> !IsSep(c[i])
  {
  }

  // A line of data: the word, and the bar behind the last one.
  lemma ChunkWord(word: string, closing: bool, unread: string)
    requires word != "" && word[0] != '"' && (forall i :: 0 <= i < |word| ==> !IsSep(word[i]))
    ensures var s := Tokens(KEYWORDS, "", unread);
      Tokens(KEYWORDS, word + (if closing then "|" else "") + "\n", unread)
        == More(WordToken(KEYWORDS, word), word, if closing then More(BAR, "|", s) else s)
  {
    hide Tokens, WordToken;
    var rest := (if closing then "|" else "") + "\n";
    assert word + (if closing then "|" else "") + "\n" == word + rest;
    OneWord(KEYWORDS, word, rest, unread);
    LineEnds(KEYWORDS, unread);
    if closing {
      Mark(KEYWORDS, '|', "\n", unread);
      assert rest == ['|'] + "\n";
    } else {
      assert rest == "\n";
    }
  }

  lemma ChunkLine(data: string, first: nat, nest: nat, unread: string)
    requires Base64(data) && first < |data|
    ensures var (s, word) := (Tokens(KEYWORDS, "", unread), Chunk(data, first));
      var closing := |data| - first <= MIME_BASE64_LENGTH;
      var words := More(WordToken(KEYWORDS, word), word, if closing then More(BAR, "|", s) else s);
      Tokens(KEYWORDS, "", WrittenChunk(data, first, nest) + unread)
        == if first == 0 then More(BAR, "|", words) else words
  {
    hide Tokens, WordToken, Indent, Chunk, Base64;
    ChunkShape(data, first);
    var word, closing := Chunk(data, first), |data| - first <= MIME_BASE64_LENGTH;
    var tail := word + if closing then "|" else "";
    ChunkWord(word, closing, unread);
    if first == 0 {
      Line(KEYWORDS, nest + 3, "|" + tail, unread);
      assert WrittenChunk(data, first, nest) + unread == Indent(nest + 3) + ("|" + tail) + "\n" + unread;
      assert "|" + tail + "\n" == ['|'] + (tail + "\n");
      Mark(KEYWORDS, '|', tail + "\n", unread);
    } else {
      SpacedLine(nest + 3, tail, unread);
      assert WrittenChunk(data, first, nest) + unread == Indent(nest + 3) + " " + tail + "\n" + unread;
    }
  }

  // One more space in front.
  lemma SpacedLine(n: nat, body: string, unread: string)
    requires body != "" && '\n' !in body && body[0] != '#' && !IsSpace(body[0])
    ensures Tokens(KEYWORDS, "", Indent(n) + " " + body + "\n" + unread) == Tokens(KEYWORDS, body + "\n", unread)
  {
    hide Tokens, Indent, IsSpace;
    IndentIsBlank(n);
    SpaceIsBlank();
    IndentedLine(KEYWORDS, Indent(n) + " ", body, unread);
  }

  lemma {:induction false} ChunksLexed(data: string, first: nat, nest: nat, unread: string)
    requires Base64(data) && first < |data|
    ensures var words := ChunkStream(data, first, Tokens(KEYWORDS, "", unread));
      Tokens(KEYWORDS, "", WrittenChunks(data, first, nest) + unread)
        == if first == 0 then More(BAR, "|", words) else words
    decreases |data| - first
  {
    hide Tokens, WordToken, WrittenChunk, Chunk, Base64;
    var next := first + MIME_BASE64_LENGTH;
    var rest := WrittenChunks(data, next, nest) + unread;
    assert WrittenChunks(data, first, nest) + unread == WrittenChunk(data, first, nest) + rest;
    ChunkLine(data, first, nest, rest);
    if next < |data| {
      ChunksLexed(data, next, nest, unread);
    } else {
      assert rest == unread;
    }
  }

  // ---- Files ----

  function DataStream(data: string, s: Stream): Stream {
    Opened("data", if data == "" then Shut(s) else More(BAR, "|", ChunkStream(data, 0, Shut(s))))
  }

  function FileStream(f: EmbeddedFile, writeData: bool, s: Stream): Stream {
    var sum := Opened("checksum", More(STRING, f.sha, Shut(Shut(s))));
    var kind := TypeName(f.fileType);
    Opened("file", Opened("name", More(STRING, f.name, Shut(Opened("type", More(Keyword(kind), kind, Shut(
      if writeData then DataStream(f.data, sum) else sum)))))))
  }

  function FilesStream(files: seq<EmbeddedFile>, writeData: bool, s: Stream): Stream {
    if files == [] then s else FileStream(files[0], writeData, FilesStream(files[1..], writeData, s))
  }

  predicate Writable(f: EmbeddedFile) { Unescaped(f.name) && Unescaped(f.sha) && Base64(f.data) }

  lemma DataLexed(data: string, nest: nat, unread: string)
    requires Base64(data)
    ensures Tokens(KEYWORDS, "", WrittenData(data, nest) + unread) == DataStream(data, Tokens(KEYWORDS, "", unread))
  {
    hide Tokens, OpenText, CloseText, Base64, IsKeyword;
    UsedKeywords();
    var last := CloseText(nest + 2) + unread;
    var rest := WrittenChunks(data, 0, nest) + last;
    assert WrittenData(data, nest) + unread == OpenText(2, "data") + rest;
    OpenLine(2, "data", rest);
    CloseLine(nest + 2, unread);
    if data == "" {
      assert rest == last;
    } else {
      ChunksLexed(data, 0, nest, last);
    }
  }

  lemma FileLexed(f: EmbeddedFile, nest: nat, writeData: bool, unread: string)
    requires Writable(f)
    ensures Tokens(KEYWORDS, "", WrittenFile(f, nest, writeData) + unread)
      == FileStream(f, writeData, Tokens(KEYWORDS, "", unread))
  {
    hide Tokens, OpenText, CloseText, TypeText, QuotedText, Base64, Unescaped, IsKeyword, WrittenData, TypeName,
      DataStream;
    UsedKeywords();
    TypeKeyword(f.fileType);
    var r5 := CloseText(nest + 1) + unread;
    var r4 := QuotedText(nest + 2, "checksum", f.sha) + r5;
    var r3 := (if writeData then WrittenData(f.data, nest) else "") + r4;
    var r2 := TypeText(nest + 2, TypeName(f.fileType)) + r3;
    var r1 := QuotedText(nest + 2, "name", f.name) + r2;
    SixPieces(OpenText(nest + 1, "file"), QuotedText(nest + 2, "name", f.name),
              TypeText(nest + 2, TypeName(f.fileType)),
              if writeData then WrittenData(f.data, nest) else "", QuotedText(nest + 2, "checksum", f.sha),
              CloseText(nest + 1), unread);
    OpenLine(nest + 1, "file", r1);
    QuotedLine(nest + 2, "name", f.name, r2);
    TypeLine(nest + 2, TypeName(f.fileType), r3);
    if writeData { DataLexed(f.data, nest, r4); } else { assert r3 == r4; }
    QuotedLine(nest + 2, "checksum", f.sha, r5);
    CloseLine(nest + 1, unread);
  }

  lemma SixPieces(a: string, b: string, c: string, d: string, e: string, f: string, rest: string)
    ensures a + b + c + d + e + f + rest == a + (b + (c + (d + (e + (f + rest)))))
  {
  }

  lemma {:induction false} FilesLexed(files: seq<EmbeddedFile>, nest: nat, writeData: bool, unread: string)
    requires forall f :: f in files ==> Writable(f)
    ensures Tokens(KEYWORDS, "", WrittenFiles(files, nest, writeData) + unread)
      == FilesStream(files, writeData, Tokens(KEYWORDS, "", unread))
  {
    hide Tokens, WrittenFile, FileStream, Writable;
    if files == [] {
      assert "" + unread == unread;
    } else {
      var rest := WrittenFiles(files[1..], nest, writeData) + unread;
      assert WrittenFiles(files, nest, writeData) + unread == WrittenFile(files[0], nest, writeData) + rest;
      FileLexed(files[0], nest, writeData, rest);
      FilesLexed(files[1..], nest, writeData, unread);
    }
  }

  // ---- Parsing them ----

  predicate NumberFree(data: string, first: nat)
    decreases |data| - first
  {
    first >= |data| || (!IsNumber(Chunk(data, first)) && NumberFree(data, first + MIME_BASE64_LENGTH))
  }

  // Data that can be read: there is some, and no line of it is a number.
  predicate ReadableData(data: string) { data != "" && NumberFree(data, 0) }

  lemma {:induction false} ChunksCollected(data: string, first: nat, s: Stream)
    ensures var r := Collected(ChunkStream(data, first, s), if first < |data| then data[..first] else data);
      if NumberFree(data, first) then r == Some((data, s)) else r.None?
    decreases |data| - first
  {
    hide IsNumber;
    if first < |data| {
      var next := first + MIME_BASE64_LENGTH;
      ChunksCollected(data, next, s);
      assert data[..first] + Chunk(data, first) == if next < |data| then data[..next] else data;
    }
  }

  function Entry(f: EmbeddedFile, writeData: bool): EmbeddedFile {
    EmbeddedFile(f.name, f.fileType, false, if writeData then f.data else "", f.sha)
  }

  lemma NameParsed(f: EmbeddedFile, s: Stream, file: Option<EmbeddedFile>)
    ensures AllFields(Opened("name", More(STRING, f.name, Shut(s))), file)
      == AllFields(s, Some(EmbeddedFile(f.name, OTHER, false, "", "")))
  {
  }

  lemma TypeParsed(t: FileType, s: Stream, file: EmbeddedFile)
    ensures AllFields(Opened("type", More(Keyword(TypeName(t)), TypeName(t), Shut(s))), Some(file))
      == AllFields(s, Some(file.(fileType := t)))
  {
    hide TypeName, NamedType;
    TypeKeyword(t);
  }

  lemma ChecksumParsed(sha: string, s: Stream, file: EmbeddedFile)
    ensures AllFields(Opened("checksum", More(STRING, sha, Shut(s))), Some(file)) ==
      AllFields(s, Some(file.(sha := sha)))
  {
  }

  lemma DataParsed(data: string, s: Stream, file: EmbeddedFile)
    requires file.data == ""
    ensures var r := AllFields(DataStream(data, s), Some(file));
      if ReadableData(data) then r == AllFields(s, Some(file.(data := data))) else r.Refused? && r.reason.Malformed?
  {
    hide NumberFree, Collected, ChunkStream;
    var fields := DataStream(data, s);
    if data != "" {
      ChunksCollected(data, 0, Shut(s));
      assert data[..0] == "";
      NoBreak(data, Shut(s));
    }
    assert OneField(fields.rest, Some(file)) == DataField(fields.rest.rest, Some(file));
  }

  lemma NoBreak(data: string, s: Stream)
    ensures !ChunkStream(data, 0, s).Broken?
  {
  }

  lemma FileParsed(f: EmbeddedFile, writeData: bool, s: Stream)
    ensures var stream := FileStream(f, writeData, s);
      && Is(stream, LEFT) && Is(stream.rest, Keyword("file"))
      && var r := AllFields(stream.rest.rest, None);
        if writeData && !ReadableData(f.data) then r == Refused(Malformed)
        else r == Fields(Some(Entry(f, writeData)), s)
  {
    hide AllFields, DataStream, ReadableData, TypeName;
    var sum := Opened("checksum", More(STRING, f.sha, Shut(Shut(s))));
    var named := EmbeddedFile(f.name, OTHER, false, "", "");
    var typed := named.(fileType := f.fileType);
    var behind := if writeData then DataStream(f.data, sum) else sum;
    NameParsed(f, Opened("type", More(Keyword(TypeName(f.fileType)), TypeName(f.fileType), Shut(behind))), None);
    TypeParsed(f.fileType, behind, named);
    if writeData { DataParsed(f.data, sum, typed); }
    ChecksumParsed(f.sha, Shut(s), typed.(data := if writeData then f.data else ""));
    EndParsed(Entry(f, writeData), s);
  }

  lemma EndParsed(file: EmbeddedFile, s: Stream)
    ensures AllFields(Shut(s), Some(file)) == Fields(Some(file), s)
  {
  }

  // ---- The round trip ----

  // Written with its data, a file comes back when its data can be read and is what its checksum says.
  predicate Sound(valid: (string, string) -> bool, f: EmbeddedFile, writeData: bool) {
    writeData ==> ReadableData(f.data) && valid(f.data, f.sha)
  }

  function Restored(f: EmbeddedFile, writeData: bool): EmbeddedFile { Entry(f, writeData).(isValid := writeData) }

  function AddedAll(table: map<string, EmbeddedFile>, files: seq<EmbeddedFile>, writeData: bool)
      : map<string, EmbeddedFile>
    decreases |files|
  {
    if files == [] then table else AddedAll(Added(table, Restored(files[0], writeData)), files[1..], writeData)
  }

  // The entry before is finished when the next one starts.
  lemma {:induction false} FilesParsed(valid: (string, string) -> bool, files: seq<EmbeddedFile>, writeData: bool,
                                       s: Stream,
                                       before: Option<EmbeddedFile>, table: map<string, EmbeddedFile>)
    ensures var out := Parsed(valid, FilesStream(files, writeData, Shut(s)), before, table);
      var start := Finished(valid, before, table);
      if start.Some? && forall f :: f in files ==> Sound(valid, f, writeData)
      then out == Loaded(AddedAll(start.value, files, writeData), s)
      else out.Failed? && out.reason == Malformed
  {
    hide AllFields, Added, FileStream, Entry, Finished, Sound;
    var start := Finished(valid, before, table);
    if files != [] && start.Some? {
      var f, rest := files[0], FilesStream(files[1..], writeData, Shut(s));
      FileParsed(f, writeData, rest);
      EntryFinished(valid, f, writeData, start.value);
      if !(writeData && !ReadableData(f.data)) {
        FilesParsed(valid, files[1..], writeData, s, Some(Entry(f, writeData)), start.value);
      }
      assert forall g :: g in files <==> g == f || g in files[1..];
    } else if files != [] {
      FileParsed(files[0], writeData, FilesStream(files[1..], writeData, Shut(s)));
    }
  }

  lemma EntryFinished(valid: (string, string) -> bool, f: EmbeddedFile, writeData: bool,
                      table: map<string, EmbeddedFile>)
    ensures var r := Finished(valid, Some(Entry(f, writeData)), table);
      && (Sound(valid, f, writeData) ==>
        !(writeData && !ReadableData(f.data)) && r == Some(Added(table, Restored(f, writeData))))
      && (!Sound(valid, f, writeData) ==> (writeData && !ReadableData(f.data)) || r.None?)
  {
  }

  predicate Distinct(files: seq<EmbeddedFile>) {
    forall i, j :: 0 <= i < j < |files| ==> files[i].name != files[j].name
  }

  // The table holds the files under their names and nothing else.
  ghost predicate Holds(table: map<string, EmbeddedFile>, files: seq<EmbeddedFile>, writeData: bool) {
    && (forall f :: f in files ==> f.name in table && table[f.name] == Restored(f, writeData))
    && (forall name :: name in table ==> exists f :: f in files && f.name == name)
  }

  lemma {:induction false} HeldSoFar(table: map<string, EmbeddedFile>, done: seq<EmbeddedFile>,
      files: seq<EmbeddedFile>,
                                     writeData: bool)
    requires Distinct(done + files) && Holds(table, done, writeData)
    ensures Holds(AddedAll(table, files, writeData), done + files, writeData)
    decreases |files|
  {
    if files == [] {
      assert done + files == done;
    } else {
      var more := done + [files[0]];
      assert [files[0]] + files[1..] == files && more + files[1..] == done + files;
      OneMoreHeld(table, done, files[0], files[1..], writeData);
      HeldSoFar(Added(table, Restored(files[0], writeData)), more, files[1..], writeData);
    }
  }

  lemma OneMoreHeld(table: map<string, EmbeddedFile>, done: seq<EmbeddedFile>, f: EmbeddedFile, rest: seq<EmbeddedFile>,
                    writeData: bool)
    requires Distinct(done + ([f] + rest)) && Holds(table, done, writeData)
    ensures Holds(Added(table, Restored(f, writeData)), done + [f], writeData)
  {
    var all := done + ([f] + rest);
    assert all[|done|] == f;
    forall g | g in done ensures g.name != f.name {
      var i :| 0 <= i < |done| && done[i] == g;
      assert all[i] == g;
    }
    assert forall g :: g in done + [f] <==> g in done || g == f;
    assert f in done + [f];
  }

  // What follows the header of the block.
  function BehindHeader(s: Stream): Stream { if s.More? && s.rest.More? then s.rest.rest else Broken }

  // The written block, wherever it stands in its file, opens with its header and is parsed to its end. The
  // table holds the files exactly when each can be read and is what its checksum says; otherwise there is
  // a parse error.
  lemma WriteThenParse(valid: (string, string) -> bool, files: seq<EmbeddedFile>, nest: nat, writeData: bool,
      after: string)
    requires Distinct(files) && forall f :: f in files ==> Writable(f)
    ensures var s := Tokens(KEYWORDS, "", Written(files, nest, writeData) + after);
      var out := Parsed(valid, BehindHeader(s), None, map[]);
      && Is(s, LEFT) && Is(s.rest, Keyword("embedded_files"))
      && if forall f :: f in files ==> Sound(valid, f, writeData)
         then out.Loaded? && Holds(out.files, files, writeData) && out.rest == Tokens(KEYWORDS, "", after)
         else out.Failed? && out.reason.Malformed?
  {
    hide Tokens, OpenText, CloseText, WrittenFiles, FilesStream, Parsed, Sound, Writable, Distinct, AddedAll, IsKeyword;
    UsedKeywords();
    var last := CloseText(nest) + after;
    var rest := WrittenFiles(files, nest, writeData) + last;
    assert Written(files, nest, writeData) + after == OpenText(nest, "embedded_files") + rest;
    OpenLine(nest, "embedded_files", rest);
    FilesLexed(files, nest, writeData, last);
    CloseLine(nest, after);
    FilesParsed(valid, files, writeData, Tokens(KEYWORDS, "", after), None, map[]);
    assert [] + files == files;
    HeldSoFar(map[], [], files, writeData);
  }

  // Sound entries marked as valid come back unchanged.
  lemma BackAsTheyWere(valid: (string, string) -> bool, files: seq<EmbeddedFile>, nest: nat, after: string)
    requires Distinct(files) && forall f :: f in files ==> Writable(f) && f.isValid && Sound(valid, f, true)
    ensures var out := Parsed(valid, BehindHeader(Tokens(KEYWORDS, "", Written(files, nest, true) +
      after)), None, map[]);
      out.Loaded? && out.files.Keys == (set f | f in files :: f.name)
      && forall f :: f in files ==> out.files[f.name] == f
  {
    hide Tokens, Written, Parsed, Sound, Writable, Distinct;
    WriteThenParse(valid, files, nest, true, after);
    var out := Parsed(valid, BehindHeader(Tokens(KEYWORDS, "", Written(files, nest, true) + after)), None, map[]);
    forall f | f in files ensures f.name in out.files && out.files[f.name] == f { assert Restored(f, true) == f; }
  }
}
