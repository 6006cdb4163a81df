// The table of embedded files, its writer and its parser: common/embedded_files.cpp.
module EmbeddedFiles {
  import opened DsnLexer
  import opened Options

  datatype FileType = FONT | MODEL | WORKSHEET | DATASHEET | OTHER

  // data is compressed and encoded; sha is the checksum of what it was made from.
  datatype EmbeddedFile = EmbeddedFile(name: string, fileType: FileType, isValid: bool, data: string, sha: string)

  const KEYWORDS: set<string> :=
    {"checksum", "data", "datasheet", "embedded_files", "embedded_fonts", "file", "font", "model", "name", "other",
     "reference", "type", "worksheet"}

  function TypeName(t: FileType): string {
    match t
    case DATASHEET => "datasheet"
    case FONT => "font"
    case MODEL => "model"
    case WORKSHEET => "worksheet"
    case OTHER => "other"
  }

  // ---- Writing ----

  // Two spaces a level.
  function Indent(n: nat): string { if n == 0 then "" else "  " + Indent(n - 1) }

  // A string as printf sees it: up to the first NUL.
  function UpToNul(s: string): string { if s == "" || s[0] == '\0' then "" else [s[0]] + UpToNul(s[1..]) }

  const MIME_BASE64_LENGTH: nat := 76

  function Chunk(data: string, first: nat): string
    requires first <= |data|
  {
    if |data| - first <= MIME_BASE64_LENGTH then data[first..] else data[first..first + MIME_BASE64_LENGTH]
  }

  function WrittenChunk(data: string, first: nat, nest: nat): string
    requires first <= |data|
  {
    Indent(nest + 3) + (if first == 0 then "|" else " ") + Chunk(data, first)
      + (if |data| - first <= MIME_BASE64_LENGTH then "|" else "") + "\n"
  }

  function WrittenChunks(data: string, first: nat, nest: nat): string
    decreases |data| - first
  {
    if first >= |data| then ""
    else WrittenChunk(data, first, nest) + WrittenChunks(data, first + MIME_BASE64_LENGTH, nest)
  }

  // The kinds of line.
  function OpenText(n: nat, word: string): string { Indent(n) + "(" + word + "\n" }

  function CloseText(n: nat): string { Indent(n) + ")\n" }

  function TypeText(n: nat, word: string): string { Indent(n) + "(type " + word + ")\n" }

  function QuotedText(n: nat, word: string, value: string): string {
    Indent(n) + "(" + word + " \"" + UpToNul(value) + "\")\n"
  }

  // The line that opens the data is indented by two levels wherever it is.
  function WrittenData(data: string, nest: nat): string {
    OpenText(2, "data") + WrittenChunks(data, 0, nest) + CloseText(nest + 2)
  }

  function WrittenFile(f: EmbeddedFile, nest: nat, writeData: bool): string {
    OpenText(nest + 1, "file")
      + QuotedText(nest + 2, "name", f.name)
      + TypeText(nest + 2, TypeName(f.fileType))
      + (if writeData then WrittenData(f.data, nest) else "")
      + QuotedText(nest + 2, "checksum", f.sha)
      + CloseText(nest + 1)
  }

  function WrittenFiles(files: seq<EmbeddedFile>, nest: nat, writeData: bool): string {
    if files == [] then "" else WrittenFile(files[0], nest, writeData) + WrittenFiles(files[1..], nest, writeData)
  }

  function Written(files: seq<EmbeddedFile>, nest: nat, writeData: bool): string {
    OpenText(nest, "embedded_files") + WrittenFiles(files, nest, writeData) + CloseText(nest)
  }

  method WriteData(data: string, nest: nat) returns (out: string)
    ensures out == WrittenData(data, nest)
  {
    hide WrittenChunk, OpenText, CloseText;
    out := OpenText(2, "data");
    ghost var header := out;
    var first: nat := 0;
    while first < |data|
      invariant out + WrittenChunks(data, first, nest) == header + WrittenChunks(data, 0, nest)
    {
      ghost var before := out;
      out := out + WrittenChunk(data, first, nest);
      assert before + (WrittenChunk(data, first, nest) + WrittenChunks(data, first + MIME_BASE64_LENGTH, nest))
        == out + WrittenChunks(data, first + MIME_BASE64_LENGTH, nest);
      first := first + MIME_BASE64_LENGTH;
    }
    assert out + "" == out;
    out := out + CloseText(nest + 2);
  }

  // The entries in the order of the map.
  method WriteEmbeddedFiles(files: seq<EmbeddedFile>, nest: nat, writeData: bool) returns (out: string)
    ensures out == Written(files, nest, writeData)
  {
    hide WrittenFile, OpenText, CloseText;
    out := OpenText(nest, "embedded_files");
    ghost var header := out;
    var i := 0;
    while i < |files|
      invariant 0 <= i <= |files|
      invariant out + WrittenFiles(files[i..], nest, writeData) == header + WrittenFiles(files, nest, writeData)
    {
      ghost var before, rest := out, WrittenFiles(files[i + 1..], nest, writeData);
      assert files[i..][1..] == files[i + 1..];
      var text := WriteFile(files[i], nest, writeData);
      out := out + text;
      assert before + (text + rest) == out + rest;
      i := i + 1;
    }
    assert out + "" == out;
    out := out + CloseText(nest);
  }

  method WriteFile(f: EmbeddedFile, nest: nat, writeData: bool) returns (out: string)
    ensures out == WrittenFile(f, nest, writeData)
  {
    hide OpenText, CloseText, QuotedText, TypeText, TypeName, WrittenData;
    out := OpenText(nest + 1, "file");
    out := out + QuotedText(nest + 2, "name", f.name);
    out := out + TypeText(nest + 2, TypeName(f.fileType));
    if writeData {
      var data := WriteData(f.data, nest);
      out := out + data;
    } else {
      assert out + "" == out;
    }
    out := out + QuotedText(nest + 2, "checksum", f.sha);
    out := out + CloseText(nest + 1);
  }

  // ---- Parsing ----

  // The exception of the parser, or a field in front of the name, where the source follows a null pointer.
  datatype Reason = Malformed | NoName

  datatype Fields = Fields(file: Option<EmbeddedFile>, rest: Stream) | Refused(reason: Reason)

  datatype Outcome = Loaded(files: map<string, EmbeddedFile>, rest: Stream)
                   | Failed(reason: Reason, files: map<string, EmbeddedFile>)

  function Size(s: Stream): nat { if s.More? then 1 + Size(s.rest) else 0 }

  predicate Is(s: Stream, t: Token) { s.More? && s.token == t }

  predicate IsText(s: Stream) { s.More? && (IsSymbol(s.token) || s.token.NUMBER?) }

  // The words up to the closing bar, put together.
  function Collected(s: Stream, data: string): (r: Option<(string, Stream)>)
    ensures r.Some? ==> Size(r.value.1) < Size(s)
  {
    if Is(s, BAR) then Some((data, s.rest))
    else if s.More? && IsSymbol(s.token) then Collected(s.rest, data + s.text)
    else None
  }

  function NamedType(t: Token): Option<FileType> {
    if t == Keyword("datasheet") then Some(DATASHEET)
    else if t == Keyword("font") then Some(FONT)
    else if t == Keyword("model") then Some(MODEL)
    else if t == Keyword("worksheet") then Some(WORKSHEET)
    else if t == Keyword("other") then Some(OTHER)
    else None
  }

  // A field, its value read, is closed by a parenthesis.
  function Closing(file: EmbeddedFile, s: Stream): (r: Fields)
    ensures r.Fields? ==> Size(r.rest) < Size(s)
  {
    if Is(s, RIGHT) then Fields(Some(file), s.rest) else Refused(Malformed)
  }

  // A name starts a new entry; a checksum and a type are set; data is added to what there is.
  function NameField(s: Stream): (r: Fields)
    ensures r.Fields? ==> Size(r.rest) < Size(s)
  {
    if IsText(s) then Closing(EmbeddedFile(s.text, OTHER, false, "", ""), s.rest) else Refused(Malformed)
  }

  function ChecksumField(s: Stream, file: Option<EmbeddedFile>): (r: Fields)
    ensures r.Fields? ==> Size(r.rest) < Size(s)
  {
    if !IsText(s) then Refused(Malformed)
    else if file.None? then Refused(NoName)
    else Closing(file.value.(sha := s.text), s.rest)
  }

  function TypeField(s: Stream, file: Option<EmbeddedFile>): (r: Fields)
    ensures r.Fields? ==> Size(r.rest) < Size(s)
  {
    if !s.More? || NamedType(s.token).None? then Refused(Malformed)
    else if file.None? then Refused(NoName)
    else Closing(file.value.(fileType := NamedType(s.token).value), s.rest)
  }

  function DataField(s: Stream, file: Option<EmbeddedFile>): (r: Fields)
    ensures r.Fields? ==> Size(r.rest) < Size(s)
  {
    if !Is(s, BAR) || s.rest.Broken? then Refused(Malformed)
    else if file.None? then Refused(NoName)
    else
      var all := Collected(s.rest, file.value.data);
      if all.None? then Refused(Malformed) else Closing(file.value.(data := all.value.0), all.value.1)
  }

  // The field behind an opening parenthesis.
  function OneField(s: Stream, file: Option<EmbeddedFile>): (r: Fields)
    ensures r.Fields? ==> Size(r.rest) < Size(s)
  {
    if Is(s, Keyword("checksum")) then ChecksumField(s.rest, file)
    else if Is(s, Keyword("data")) then DataField(s.rest, file)
    else if Is(s, Keyword("name")) then NameField(s.rest)
    else if Is(s, Keyword("type")) then TypeField(s.rest, file)
    else Refused(Malformed)
  }

  function AllFields(s: Stream, file: Option<EmbeddedFile>): (r: Fields)
    ensures r.Fields? ==> Size(r.rest) < Size(s)
    decreases Size(s)
  {
    if Is(s, RIGHT) then Fields(file, s.rest)
    else if !Is(s, LEFT) then Refused(Malformed)
    else
      var r := OneField(s.rest, file);
      if r.Fields? then AllFields(r.rest, r.file) else r
  }

  // An entry of that name that is there already stays.
  function Added(files: map<string, EmbeddedFile>, f: EmbeddedFile): map<string, EmbeddedFile> {
    if f.name in files then files else files[f.name := f]
  }

  // A finished entry is checked if it has data, and added; None is a checksum error.
  function Finished(valid: (string, string) -> bool, file: Option<EmbeddedFile>, files: map<string, EmbeddedFile>)
    : Option<map<string, EmbeddedFile>>
  {
    if file.None? then Some(files)
    else if file.value.data == "" then Some(Added(files, file.value))
    else if valid(file.value.data, file.value.sha) then Some(Added(files, file.value.(isValid := true)))
    else None
  }

  function Parsed(valid: (string, string) -> bool, s: Stream, file: Option<EmbeddedFile>,
                  files: map<string, EmbeddedFile>): Outcome
    decreases Size(s)
  {
    if Is(s, RIGHT) then
      var r := Finished(valid, file, files);
      if r.Some? then Loaded(r.value, s.rest) else Failed(Malformed, files)
    else if !(Is(s, LEFT) && Is(s.rest, Keyword("file"))) then Failed(Malformed, files)
    else
      var r := Finished(valid, file, files);
      if r.None? then Failed(Malformed, files)
      else
        var next := AllFields(s.rest.rest, None);
        assert Size(s.rest.rest) < Size(s);
        if next.Fields? then Parsed(valid, next.rest, next.file, r.value) else Failed(next.reason, r.value)
  }

  class Table {
    var files: map<string, EmbeddedFile>

    constructor ()
      ensures files == map[]
    {
      files := map[];
    }

    method AddFile(f: EmbeddedFile)
      modifies this
      ensures files == Added(old(files), f)
      ensures f.name in old(files) ==> files == old(files)
      ensures f.name !in old(files) ==> files == old(files)[f.name := f]
    {
      if f.name !in files {
        files := files[f.name := f];
      }
    }
  }

  datatype Status = Done | Error(reason: Reason)

  // The parser is a lexer over the same input; valid says whether data decodes to what has that checksum.
  class Parser {
    const lexer: Lexer
    const valid: (string, string) -> bool

    constructor (lexer: Lexer, valid: (string, string) -> bool)
      ensures this.lexer == lexer && this.valid == valid
    {
      this.lexer, this.valid := lexer, valid;
    }

    // The lexer took the first token of s, or found the end.
    ghost predicate Took(s: Stream)
      reads lexer
    {
      && lexer.Valid() && !s.Broken?
      && if s.More? then lexer.curTok == s.token && lexer.curText == s.text && lexer.Remaining() == s.rest
         else lexer.curTok.EOF?
    }

    method CollectData(start: string, ghost from: Stream) returns (status: Status, data: string)
      requires Took(from)
      modifies lexer
      ensures lexer.Valid()
      ensures var r := Collected(from, start);
        if r.Some? then status.Done? && data == r.value.0 && lexer.Remaining() == r.value.1
        else status == Error(Malformed)
    {
      ghost var s := from;
      data := start;
      while !lexer.curTok.BAR?
        invariant Took(s) && Collected(from, start) == Collected(s, data)
        decreases Size(s)
      {
        if !IsSymbol(lexer.curTok) {
          return Error(Malformed), data;
        }
        data := data + lexer.curText;
        var ok := lexer.NextTok();
        if !ok {
          return Error(Malformed), data;
        }
        s := s.rest;
      }
      status := Done;
    }

    method ParseField(entry: Option<EmbeddedFile>) returns (status: Status, file: Option<EmbeddedFile>)
      requires lexer.Valid()
      modifies lexer
      ensures lexer.Valid()
      ensures match OneField(old(lexer.Remaining()), entry)
        case Fields(f, rest) => status.Done? && file == f && lexer.Remaining() == rest
        case Refused(reason) => status == Error(reason)
    {
      hide Collected, Tokens;
      file := entry;
      var ok := lexer.NextTok();
      if !ok {
        return Error(Malformed), file;
      }
      match lexer.curTok {
        case Keyword("checksum") =>
          ok := lexer.NeedSYMBOLorNUMBER();
          if !ok {
            return Error(Malformed), file;
          }
          if file.None? {
            return Error(NoName), file;
          }
          file := Some(file.value.(sha := lexer.curText));
        case Keyword("data") =>
          ok := lexer.NeedBAR();
          if !ok {
            return Error(Malformed), file;
          }
          ghost var s := lexer.Remaining();
          ok := lexer.NextTok();
          if !ok {
            return Error(Malformed), file;
          }
          if file.None? {
            return Error(NoName), file;
          }
          var data;
          status, data := CollectData(file.value.data, s);
          if status.Error? {
            return;
          }
          file := Some(file.value.(data := data));
        case Keyword("name") =>
          ok := lexer.NeedSYMBOLorNUMBER();
          if !ok {
            return Error(Malformed), file;
          }
          file := Some(EmbeddedFile(lexer.curText, OTHER, false, "", ""));
        case Keyword("type") =>
          ok := lexer.NextTok();
          if !ok || NamedType(lexer.curTok).None? {
            return Error(Malformed), file;
          }
          if file.None? {
            return Error(NoName), file;
          }
          file := Some(file.value.(fileType := NamedType(lexer.curTok).value));
        case _ =>
          return Error(Malformed), file;
      }
      ok := lexer.NeedRIGHT();
      status := if ok then Done else Error(Malformed);
    }

    // The entry of one file, behind its keyword.
    method ParseFile() returns (status: Status, file: Option<EmbeddedFile>)
      requires lexer.Valid()
      modifies lexer
      ensures lexer.Valid()
      ensures match AllFields(old(lexer.Remaining()), None)
        case Fields(f, rest) => status.Done? && file == f && lexer.Remaining() == rest
        case Refused(reason) => status == Error(reason)
    {
      hide OneField, Tokens;
      ghost var s := lexer.Remaining();
      file := None;
      var ok := lexer.NextTok();
      while ok && !lexer.curTok.RIGHT?
        invariant lexer.Valid() && AllFields(s, file) == AllFields(old(lexer.Remaining()), None)
        invariant if ok then Took(s) else s.Broken?
        decreases Size(s)
      {
        if !lexer.curTok.LEFT? {
          return Error(Malformed), file;
        }
        status, file := ParseField(file);
        if status.Error? {
          return;
        }
        s := lexer.Remaining();
        ok := lexer.NextTok();
      }
      status := if ok then Done else Error(Malformed);
    }

    // A finished entry goes to the table.
    method Finish(file: Option<EmbeddedFile>, table: Table) returns (status: Status)
      modifies table
      ensures match Finished(valid, file, old(table.files))
        case Some(files) => status.Done? && table.files == files
        case None => status == Error(Malformed) && table.files == old(table.files)
    {
      status := Done;
      if file.Some? {
        var entry := file.value;
        if entry.data != "" {
          entry := entry.(isValid := valid(entry.data, entry.sha));
          if !entry.isValid {
            return Error(Malformed);
          }
        }
        table.AddFile(entry);
      }
    }

    // What follows (embedded_files is read up to its closing parenthesis.
    method ParseEmbedded(table: Table) returns (status: Status)
      requires lexer.Valid()
      modifies lexer, table
      ensures lexer.Valid()
      ensures match Parsed(valid, old(lexer.Remaining()), None, old(table.files))
        case Loaded(files, rest) => status.Done? && table.files == files && lexer.Remaining() == rest
        case Failed(reason, files) => status == Error(reason) && table.files == files
    {
      hide AllFields, Finished, Tokens;
      ghost var s := lexer.Remaining();
      var file: Option<EmbeddedFile> := None;
      var ok := lexer.NextTok();
      while ok && !lexer.curTok.RIGHT?
        invariant lexer.Valid()
        invariant Parsed(valid, s, file, table.files) == Parsed(valid, old(lexer.Remaining()), None, old(table.files))
        invariant if ok then Took(s) else s.Broken?
        decreases Size(s)
      {
        if !lexer.curTok.LEFT? {
          return Error(Malformed);
        }
        ok := lexer.NextTok();
        if !ok || lexer.curTok != Keyword("file") {
          return Error(Malformed);
        }
        status := Finish(file, table);
        if status.Error? {
          return;
        }
        assert lexer.Remaining() == s.rest.rest && Size(s) == 1 + Size(s.rest) == 2 + Size(s.rest.rest);
        status, file := ParseFile();
        if status.Error? {
          return;
        }
        s := lexer.Remaining();
        ok := lexer.NextTok();
      }
      if !ok {
        return Error(Malformed);
      }
      status := Finish(file, table);
    }
  }
}
