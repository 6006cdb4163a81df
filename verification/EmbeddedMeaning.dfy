// The written block in literal characters, and what each field does to an entry.
module EmbeddedMeaning {
  import opened DsnLexer
  import opened DsnPieces
  import opened EmbeddedFiles
  import opened EmbeddedRoundTrip
  import opened Options

  function Spaces(n: nat): string { seq(n, _ => ' ') }

  lemma {:induction false} IndentIsSpaces(n: nat)
    ensures Indent(n) == Spaces(2 * n)
  {
    if n > 0 { IndentIsSpaces(n - 1); }
  }

  lemma {:induction false} UpToNulIs(s: string)
    requires '\0' !in s
    ensures UpToNul(s) == s
  {
    if s != "" {
      UpToNulIs(s[1..]);
      assert [s[0]] + s[1..] == s;
    }
  }

  // The lines with a keyword, two spaces a level.
  lemma LinesWithKeyword(n: nat, word: string, value: string)
    requires '\0' !in value
    ensures OpenText(n, word) == Spaces(2 * n) + "(" + word + "\n"
    ensures CloseText(n) == Spaces(2 * n) + ")\n"
    ensures TypeText(n, word) == Spaces(2 * n) + "(type " + word + ")\n"
    ensures QuotedText(n, word, value) == Spaces(2 * n) + "(" + word + " \"" + value + "\")\n"
  {
    hide Indent, UpToNul;
    IndentIsSpaces(n);
    UpToNulIs(value);
  }

  lemma TypeWords()
    ensures TypeName(DATASHEET) == "datasheet" && TypeName(FONT) == "font" && TypeName(MODEL) == "model"
    ensures TypeName(WORKSHEET) == "worksheet" && TypeName(OTHER) == "other"
  {
  }

  // 76 characters a line, a bar in front of the first and one behind the last; a space stands for the bar
  // in front of the others.
  lemma LinesWritten(data: string, first: nat, nest: nat)
    requires first < |data|
    ensures var line := Spaces(2 * nest + 6) + (if first == 0 then "|" else " ");
      WrittenChunks(data, first, nest) ==
        if first + 76 < |data| then line + data[first..first + 76] + "" + "\n" + WrittenChunks(data, first + 76, nest)
        else line + data[first..] + "|" + "\n"
  {
    hide Indent;
    IndentIsSpaces(nest + 3);
    var line := WrittenChunk(data, first, nest);
    assert first + 76 >= |data| ==> WrittenChunks(data, first + 76, nest) == "" && line + "" == line;
  }

  function Line(n: nat, text: string): string { Spaces(2 * n) + text + "\n" }

  lemma LinesAre(n: nat, word: string, value: string)
    requires '\0' !in value
    ensures OpenText(n, word) == Line(n, "(" + word) && CloseText(n) == Line(n, ")")
    ensures TypeText(n, word) == Line(n, "(type " + word + ")")
    ensures QuotedText(n, word, value) == Line(n, "(" + word + " \"" + value + "\")")
  {
    LinesWithKeyword(n, word, value);
  }

  // The order of the lines of a file; the line that opens the data has an indent of its own.
  lemma FileWritten(f: EmbeddedFile, n: nat, writeData: bool)
    requires '\0' !in f.name && '\0' !in f.sha
    ensures WrittenFile(f, n, writeData) ==
      Line(n + 1, "(file") + Line(n + 2, "(name \"" + f.name + "\")") + Line(n + 2, "(type " +
        TypeName(f.fileType) + ")")
        + (if writeData then Line(2, "(data") + WrittenChunks(f.data, 0, n) + Line(n + 2, ")") else "")
        + Line(n + 2, "(checksum \"" + f.sha + "\")") + Line(n + 1, ")")
  {
    hide WrittenChunks, TypeName, Line, OpenText, CloseText, TypeText, QuotedText;
    LinesAre(n + 1, "file", "");
    LinesAre(n + 2, "name", f.name);
    LinesAre(n + 2, TypeName(f.fileType), "");
    LinesAre(2, "data", "");
    LinesAre(n + 2, "checksum", f.sha);
    assert "(" + "file" == "(file" && "(" + "data" == "(data";
    assert "(" + "name" + " \"" == "(name \"" && "(" + "checksum" + " \"" == "(checksum \"";
  }

  // ---- What the fields do ----

  // A name starts a new entry, with nothing else in it.
  lemma NameStarts(name: string, t: Token, s: Stream, file: Option<EmbeddedFile>)
    requires IsSymbol(t) || t.NUMBER?
    ensures AllFields(Opened("name", More(t, name, Shut(s))), file)
      == AllFields(s, Some(EmbeddedFile(name, OTHER, false, "", "")))
  {
  }

  // The last checksum and the last type count.
  lemma ChecksumSets(sum: string, t: Token, s: Stream, file: EmbeddedFile)
    requires IsSymbol(t) || t.NUMBER?
    ensures AllFields(Opened("checksum", More(t, sum, Shut(s))), Some(file)) == AllFields(s, Some(file.(sha := sum)))
  {
  }

  lemma TypeSets(word: string, s: Stream, file: EmbeddedFile)
    requires word in {"datasheet", "font", "model", "worksheet", "other"}
    ensures AllFields(Opened("type", More(Keyword(word), word, Shut(s))), Some(file)) ==
      AllFields(s, Some(file.(fileType :=
        if word == "datasheet" then DATASHEET
        else if word == "font" then FONT
        else if word == "model" then MODEL
        else if word == "worksheet" then WORKSHEET
        else OTHER)))
  {
    hide AllFields;
    var fields := Opened("type", More(Keyword(word), word, Shut(s)));
    OneTypeField(word, s, file);
    FieldThen(fields, Some(file));
  }

  function TypeOf(word: string): FileType {
    if word == "datasheet" then DATASHEET
    else if word == "font" then FONT
    else if word == "model" then MODEL
    else if word == "worksheet" then WORKSHEET
    else OTHER
  }

  lemma OneTypeField(word: string, s: Stream, file: EmbeddedFile)
    requires word in {"datasheet", "font", "model", "worksheet", "other"}
    ensures OneField(More(Keyword("type"), "type", More(Keyword(word), word, Shut(s))), Some(file))
      == Fields(Some(file.(fileType := TypeOf(word))), s)
  {
  }

  lemma FieldThen(s: Stream, file: Option<EmbeddedFile>)
    requires Is(s, LEFT) && OneField(s.rest, file).Fields?
    ensures AllFields(s, file) == AllFields(OneField(s.rest, file).rest, OneField(s.rest, file).file)
  {
  }

  // The words of symbols between bars.
  function Words(words: seq<string>, s: Stream): Stream {
    if words == [] then More(BAR, "|", s) else More(SYMBOL, words[0], Words(words[1..], s))
  }

  function Joined(words: seq<string>): string { if words == [] then "" else words[0] + Joined(words[1..]) }

  lemma {:induction false} WordsCollected(words: seq<string>, s: Stream, data: string)
    ensures Collected(Words(words, s), data) == Some((data + Joined(words), s))
  {
    if words == [] {
      assert data + "" == data;
    } else {
      WordsCollected(words[1..], s, data + words[0]);
      assert data + words[0] + Joined(words[1..]) == data + Joined(words);
    }
  }

  // Data is added to what there is.
  lemma DataAdds(words: seq<string>, s: Stream, file: EmbeddedFile)
    ensures AllFields(Opened("data", More(BAR, "|", Words(words, Shut(s)))), Some(file))
      == AllFields(s, Some(file.(data := file.data + Joined(words))))
  {
    hide Collected, Words;
    WordsCollected(words, Shut(s), file.data);
    NotBroken(words, Shut(s));
    var fields := Opened("data", More(BAR, "|", Words(words, Shut(s))));
    assert OneField(fields.rest, Some(file)) == DataField(fields.rest.rest, Some(file));
  }

  lemma NotBroken(words: seq<string>, s: Stream)
    ensures !Words(words, s).Broken?
  {
  }

  // An entry is added unless its name is taken; one with data only if it is valid.
  lemma EntriesAdded(valid: (string, string) -> bool, f: EmbeddedFile, files: map<string, EmbeddedFile>)
    ensures f.data != "" && !valid(f.data, f.sha) ==> Finished(valid, Some(f), files).None?
    ensures (f.data == "" || valid(f.data, f.sha)) && f.name in files ==> Finished(valid, Some(f), files) == Some(files)
    ensures (f.data == "" || valid(f.data, f.sha)) && f.name !in files ==>
      Finished(valid, Some(f), files) == Some(files[f.name := if f.data == "" then f else f.(isValid := true)])
  {
  }
}
