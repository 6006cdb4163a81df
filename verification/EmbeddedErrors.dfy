// Where the parser of embedded files goes wrong: exactly when it follows a null pointer, when it takes a
// number for a checksum, and what it cannot read of what was written.
module EmbeddedErrors {
  import opened Decimal
  import opened DsnNumber
  import opened DsnLexer
  import opened DsnPieces
  import opened EmbeddedFiles
  import opened EmbeddedRoundTrip
  import opened Options

  // ---- The null pointer ----

  // A field that needs an entry, complete up to where the entry is used.
  predicate NeedsEntry(s: Stream) {
    || (Is(s, Keyword("checksum")) && IsText(s.rest))
    || (Is(s, Keyword("type")) && s.rest.More? && NamedType(s.rest.token).Some?)
    || (Is(s, Keyword("data")) && Is(s.rest, BAR) && !s.rest.rest.Broken?)
  }

  lemma OneFieldExactly(s: Stream, file: Option<EmbeddedFile>)
    ensures OneField(s, file) == Refused(NoName) <==> file.None? && NeedsEntry(s)
    ensures OneField(s, file).Fields? ==> OneField(s, file).file.Some?
  {
  }

  // Behind a name no field goes wrong that way.
  lemma {:induction false} NeverBehindName(s: Stream, file: EmbeddedFile)
    ensures AllFields(s, Some(file)) != Refused(NoName)
    decreases Size(s)
  {
    hide OneField;
    if Is(s, LEFT) {
      OneFieldExactly(s.rest, Some(file));
      var r := OneField(s.rest, Some(file));
      if r.Fields? { NeverBehindName(r.rest, r.file.value); }
    }
  }

  // The fields of a file lead to the null pointer exactly when the first one needs an entry.
  lemma FirstField(s: Stream)
    ensures AllFields(s, None) == Refused(NoName) <==> Is(s, LEFT) && NeedsEntry(s.rest)
  {
    hide OneField;
    if Is(s, LEFT) {
      OneFieldExactly(s.rest, None);
      var r := OneField(s.rest, None);
      if r.Fields? { NeverBehindName(r.rest, r.file.value); }
    }
  }

  // A file that the parser gets to starts with a field that needs an entry.
  predicate StartsNameless(valid: (string, string) -> bool, s: Stream, file: Option<EmbeddedFile>,
                           files: map<string, EmbeddedFile>)
    decreases Size(s)
  {
    && Is(s, LEFT) && Is(s.rest, Keyword("file")) && Finished(valid, file, files).Some?
    && var fields := s.rest.rest;
      assert Size(fields) < Size(s);
      if Is(fields, LEFT) && NeedsEntry(fields.rest) then true
      else
        var r := AllFields(fields, None);
        r.Fields? && StartsNameless(valid, r.rest, r.file, Finished(valid, file, files).value)
  }

  lemma {:induction false} NullPointerExactly(valid: (string, string) -> bool, s: Stream, file: Option<EmbeddedFile>,
                                              files: map<string, EmbeddedFile>)
    ensures var out := Parsed(valid, s, file, files);
      out.Failed? && out.reason.NoName? <==> StartsNameless(valid, s, file, files)
    decreases Size(s)
  {
    hide AllFields, Finished, NeedsEntry;
    if Is(s, LEFT) && Is(s.rest, Keyword("file")) && Finished(valid, file, files).Some? {
      var fields := s.rest.rest;
      assert Size(fields) < Size(s);
      FirstField(fields);
      var r := AllFields(fields, None);
      if r.Fields? { NullPointerExactly(valid, r.rest, r.file, Finished(valid, file, files).value); }
    }
  }

  // (file, then (checksum "") on the next line.
  lemma NullPointer(valid: (string, string) -> bool, after: string)
    ensures var s := Tokens(KEYWORDS, "", OpenText(0, "file") + (QuotedText(0, "checksum", "") + after));
      Parsed(valid, s, None, map[]) == Failed(NoName, map[])
  {
    hide Tokens, OpenText, QuotedText, IsKeyword;
    UsedKeywords();
    QuotedLine(0, "checksum", "", after);
    OpenLine(0, "file", QuotedText(0, "checksum", "") + after);
  }

  // ---- Checksums ----

  // The field as it would be if the token of the value were looked at.
  function ChecksumMeant(s: Stream, file: Option<EmbeddedFile>): Fields {
    if !s.More? || !IsSymbol(s.token) then Refused(Malformed) else ChecksumField(s, file)
  }

  // The check that looks at the wrong token matters exactly for numbers.
  lemma NumberChecksums(s: Stream, file: Option<EmbeddedFile>)
    ensures ChecksumField(s, file) == ChecksumMeant(s, file) <==>
      !(Is(s, NUMBER) && (file.None? || Is(s.rest, RIGHT)))
  {
  }

  // (checksum 1) is taken.
  lemma NumberChecksum(f: EmbeddedFile, after: string)
    ensures var s := Tokens(KEYWORDS, "", "(checksum 1)\n" + after);
      AllFields(s, Some(f)) == AllFields(Tokens(KEYWORDS, "", after), Some(f.(sha := "1")))
      && Is(s, LEFT) && Is(s.rest, Keyword("checksum"))
      && ChecksumMeant(s.rest.rest, Some(f)) == Refused(Malformed)
  {
    hide Tokens, IsKeyword, WordToken;
    UsedKeywords();
    FieldLine(0, "checksum", "1", after);
    assert Indent(0) + "(" + "checksum" + " " + "1" + ")\n" + after == "(checksum 1)\n" + after;
    OneIsNumber();
    OneWord(KEYWORDS, "1", ")\n", after);
    FieldEnds(after);
  }

  lemma OneIsNumber()
    ensures IsNumber("1") && WordToken(KEYWORDS, "1") == NUMBER && IsNumber("1234")
  {
    assert NumberSplits("1", 0, 1) && SignEnd("1", 0) == 0;
    assert NumberSplits("1234", 0, 4) && SignEnd("1234", 0) == 0;
  }

  // ---- Written, but not readable ----

  lemma OneFileFails(valid: (string, string) -> bool, f: EmbeddedFile, nest: nat, after: string)
    requires Writable(f) && !ReadableData(f.data)
    ensures var out := Parsed(valid, BehindHeader(Tokens(KEYWORDS, "", Written([f], nest, true) + after)), None, map[]);
      out.Failed? && out.reason.Malformed?
  {
    hide Tokens, Written, Parsed, ReadableData;
    assert !Sound(valid, f, true) && f in [f];
    WriteThenParse(valid, [f], nest, true, after);
  }

  // No data at all, and data that is a number.
  lemma EmptyAndNumber(valid: (string, string) -> bool, data: string, nest: nat, after: string)
    requires data in {"", "1234"}
    ensures var f := EmbeddedFile("a", OTHER, true, data, "");
      var out := Parsed(valid, BehindHeader(Tokens(KEYWORDS, "", Written([f], nest, true) + after)), None, map[]);
      out.Failed? && out.reason.Malformed?
  {
    hide Tokens, Written, Parsed, IsNumber;
    OneIsNumber();
    assert Chunk(data, 0) == data;
    OneFileFails(valid, EmbeddedFile("a", OTHER, true, data, ""), nest, after);
  }
}
