# Verified models of KiCad's self-contained algorithms

This project models the self-contained algorithms of KiCad's `common` library and of two of its
neighbours in Dafny 4.11, and proves what they are for. Each module follows one source file or one
component of it. Code that works by changing things in loops is a method or a class here, proved against
a specification; the laws are lemmas about those specifications. `dafny verify dfyconfig.toml` checks
everything.

| modules | component | main results |
|---|---|---|
| Glob | `matchWild` | the iterative matcher, which goes back only to the last `*`, finds a match exactly when the text can be cut up as the pattern says |
| PatternMatch | wildcard to regex compiler | the emitted regex means what the wildcard means, anchored or not; without backslashes it agrees with `matchWild` |
| EditDistance | `EDA_TEXT::Levenshtein` | the table holds the length of a shortest edit script; symmetry, triangle inequality, range of the score |
| Bezier | `BezierToPolyline` | the polyline starts and ends right, its vertices lie on the curve, and every point of the curve is within 0.25 of the chord that brackets it |
| GerberEscape, GerberNet, GerberMeaning, GerberReplay | Gerber escapes and net attributes | the escape codec undoes itself exactly for 16-bit text; replaying the printed commands gives the dictionary asked for, for every sequence of calls without the keep flag; with it, and in the plotter around it, that holds under conditions that are given exactly |
| DsnNumber, DsnLexer, DsnPieces, DsnSlices | s-expression lexer | the number grammar; every text is cut into in-order slices, and only blanks and comments are skipped, up to the end or a string left open |
| EmbeddedFiles, EmbeddedMeaning, EmbeddedRoundTrip, EmbeddedErrors | embedded-file writer and parser | what is written is lexed and parsed back to the same table, with the exact condition on the data; exactly when the parser follows a null pointer or takes a number for a checksum |
| Decimal, Units, UnitsMeaning, UnitsRoundTrip | unit printing and reading | a displayed distance, area or volume is read back unchanged for every value exactly when a printed step is no larger than an internal unit |
| FastFloat | `NextFloatUp`, `NextFloatDown` | the next representable value, across all boundaries |
| Handoff | `ASYNC_SOCKET_HOLDER` | the hand-off is safe in every reachable state with one posting thread, and with no larger number |
| ArrayNumbering, ArrayGrid | array labels and grid order | labels decode to their values exactly where they exist; decoding letters is a bijection; serpentine order; labels are distinct |
| SearchReplace | `EDA_ITEM::Matches`, `EDA_ITEM::Replace` | the two loops agree on what a match is, and exactly the leftmost matches are replaced; exactly when the replacing loop ends |
| TextVars | `ExpandTextVars` | expansion distributes over concatenation; when it is the identity |
| Arithmetic, Options | helpers | |

## Where the code does not do what it is meant to

- `matchWild` returns false for the empty text and a pattern such as `*`, because the empty text matches
  only the empty pattern (common/common.cpp:459-463). `Glob.EmptyText` says for which patterns that differs
  from the pattern's meaning.
- `GERBER_PLOTTER::formatNetAttribute` passes its own record of the last request to `FormatNetAttribute`,
  which fills in the new request, and then clears that record again when the dictionary has to be cleared
  (common/plotters/GERBER_plotter.cpp:203-234). The file is still right after that object, but the plotter
  has forgotten what the reader holds. If the next object drops an attribute, nothing removes it, and the
  end of a block does not clear it either. `GerberReplay.PlotterExact` gives the exact condition for every
  run of objects and block ends, `GerberReplay.PlotterCounterexample` and `GerberReplay.BlockCounterexample`
  three events each.
- With `m_TryKeepPreviousAttributes` a component name stays in the dictionary when a pad is requested
  after it (common/gbr_metadata.cpp:709-714), and it stays through later calls that neither clear the
  dictionary nor mention a component. `GerberReplay.ExactlyWhen` says for one call when that happens,
  `GerberReplay.ExactAtTheEnd` and `GerberReplay.ExactThroughout` for every sequence, and
  `GerberReplay.KeepCounterexample` shows three calls.
- Two posting threads can both find the slot free and overwrite one another's message
  (common/eda_dde.cpp:175-187): `Handoff.TwoPostersLose`.
- `isNumber` accepts `1.`, which the pattern in its comment does not (common/dsnlexer.cpp:482-483). They
  agree on everything but numbers whose point is last: `DsnNumber.CommentExactly`, `DsnNumber.OnePoint`.
- The parser of embedded files follows a null pointer when the first field of a file needs an entry
  (common/embedded_files.cpp:349-427): `EmbeddedErrors.NullPointerExactly`, `EmbeddedErrors.NullPointer`. It
  looks at the wrong token when it checks a checksum, so that a number is accepted
  (common/embedded_files.cpp:352-358): `EmbeddedErrors.NumberChecksums`, `EmbeddedErrors.NumberChecksum`. An
  entry without data, written with its data, cannot be parsed, and neither can a data line that is a number:
  `EmbeddedRoundTrip.WriteThenParse`, `EmbeddedErrors.EmptyAndNumber`.
- The alphabetic array schemes index their alphabet with -1 for values with a zero digit above the lowest
  (common/array_axis.cpp:147-152): `ArrayNumbering.LabelDecodes`, `ArrayNumbering.NoLabel`.
- An area on a board is printed in square millimetres with 10 decimals and would need 12
  (common/eda_units.cpp:310-312,342-344): `UnitsRoundTrip.SurvivesExactly`, `UnitsRoundTrip.BoardArea`.
- The loop of `EDA_ITEM::Replace` does not end when an empty search string matches in front of the end of the
  text (common/eda_item.cpp:201-242): `SearchReplace.ReplaceEndsExactly`.
- The NaNs next to infinity and the last bit patterns of each sign step to numbers
  (3d-viewer/3d_fastmath.h:136-174): `FastFloat.NextFloatUp`, `FastFloat.NextFloatDown`.
- Two empty texts are equal but score 0 (common/eda_text.cpp:1105-1106).

## Model

| member | source | states |
|---|---|---|
| Glob.MatchWild | common/common.cpp:457-563 | true exactly when the text is not excluded by the leading-dot rule and splits as the pattern says: `*` any run, `?` one character, `\c` the literal c, a lone last backslash nothing; it terminates |
| Glob.MatchFromIsSplits | common/common.cpp:480-562 | matching position by position and cutting the text into one piece per pattern item are the same relation |
| Glob.PatternMeans | common/common.cpp:480-562 | what each first character of a pattern asks of a text, in literal characters: `?`, `*`, a backslash with something or nothing behind it, any other |
| Glob.NewStar | common/common.cpp:482-488 | when a second `*` is met, the earlier one may be forgotten: no match is lost |
| Glob.OneMore | common/common.cpp:489-538 | a `?` or equal character keeps the search on track, in front of the last `*` too |
| Glob.Retry | common/common.cpp:552-557 | after a mismatch, going on one character further behind the last `*` loses no match |
| Glob.GiveUp | common/common.cpp:549-559 | without a match here and without a `*` that could help there is no match at all |
| Glob.PatternDone | common/common.cpp:507-518 | at the end of the pattern, the end of the text or a `*` followed only by `?` means a match |
| Glob.EmptyText | common/common.cpp:459-463 | on which patterns the answer for the empty text differs from the pattern's meaning |
| PatternMatch.ReadCompiled | common/eda_pattern_match.cpp:164-187 | the emitted text, whatever follows it, is read as the intended regex by a reader with its own list of special characters |
| PatternMatch.ReadAnchored | common/eda_pattern_match.cpp:213-242 | the same for the anchored form |
| PatternMatch.CompileOne | common/eda_pattern_match.cpp:164-187 | what is emitted for each literal character, anywhere in a wildcard |
| PatternMatch.EmittedIsEscaped | common/eda_pattern_match.cpp:164-187 | in the emitted text every special character of a regex and every slash has a backslash in front, and every other star has a dot in front |
| PatternMatch.NodesMatchIsSplits | common/eda_pattern_match.cpp:164-187 | that regex matches a stretch of text exactly when the stretch has the wildcard's form |
| PatternMatch.SearchUnanchored | common/eda_pattern_match.cpp:156-190 | it is found exactly in texts with a substring of that form |
| PatternMatch.SearchAnchored | common/eda_pattern_match.cpp:205-243 | with `^` and `$` it is found exactly in texts of that form |
| PatternMatch.AgreesWithMatchWild | common/eda_pattern_match.cpp:205-243 | on patterns without a backslash the anchored form accepts what `matchWild` accepts |
| PatternMatch.WildcardMatch.SetRegex | common/eda_pattern_match.cpp:79-104 | which texts are regexes, and that exactly the added slashes are removed |
| PatternMatch.WildcardMatch.SetWildcard | common/eda_pattern_match.cpp:156-190 | the object then finds exactly the texts with a substring of the wildcard's form |
| PatternMatch.WildcardMatch.SetWildcardAnchored | common/eda_pattern_match.cpp:205-243 | the object then finds exactly the texts of the wildcard's form |
| EditDistance.Levenshtein | common/eda_text.cpp:1096-1139 | one minus the score, times the longer length, is the least length of an edit script, and some script has it; two texts of which one is empty score 0 |
| EditDistance.FillTable | common/eda_text.cpp:1108-1132 | the table loop gives the least length of an edit script |
| EditDistance.EditsMean | common/eda_text.cpp:1119-1131 | what an insertion, a deletion and a substitution do to a text |
| EditDistance.ScoreMeans | common/eda_text.cpp:1134-1138 | one minus the score, times the longer length, is the distance |
| EditDistance.DistanceIsLeast | common/eda_text.cpp:1117-1132 | the recurrence gives the least number of insertions, deletions and substitutions over all edit scripts |
| EditDistance.NoShorterScript | common/eda_text.cpp:1117-1132 | every edit script is at least as long as the distance |
| EditDistance.BestScript | common/eda_text.cpp:1117-1132 | some edit script is no longer |
| EditDistance.Lipschitz | common/eda_text.cpp:1117-1132 | neighbouring cells differ by at most one |
| EditDistance.Diagonal | common/eda_text.cpp:1122-1125 | on equal characters the diagonal is never beaten, so taking it outright is right |
| EditDistance.Symmetric | common/eda_text.cpp:1096-1139 | the distance does not depend on the order of the texts |
| EditDistance.Triangle | common/eda_text.cpp:1096-1139 | the triangle inequality |
| EditDistance.ZeroOnlyForEqual | common/eda_text.cpp:1096-1139 | distance 0 exactly for equal texts |
| EditDistance.ScoreRange | common/eda_text.cpp:1134-1138 | the score lies in 0..1 and is 1 exactly for equal texts |
| Bezier.BezierToPolyline | bitmap2component/bitmap2component.cpp:571-612 | appends to the caller's buffer a polyline from p1 to p4 with its vertices on the curve and every curve point within 0.25 of the bracketing chord; the step is the one of the second differences, and there are fewer points than 1 / epsilon + 1 |
| Bezier.Flatten | bitmap2component/bitmap2component.cpp:596-611 | the loop: vertices at multiples of the step below 1, and the end point |
| Bezier.BernsteinIsCurve | bitmap2component/bitmap2component.cpp:599-606 | the polynomial that is evaluated is the curve of de Casteljau's construction |
| Bezier.ChordError | bitmap2component/bitmap2component.cpp:581-594 | the difference between curve and chord, exactly, by the second differences |
| Bezier.CloseToChord | bitmap2component/bitmap2component.cpp:581-594 | a small enough step keeps every curve point within 0.25 of the chord that brackets it |
| Bezier.StepIsSmall | bitmap2component/bitmap2component.cpp:590-594 | the step that is chosen is small enough |
| Bezier.StepCount | bitmap2component/bitmap2component.cpp:596 | after i rounds the parameter is i steps, whatever was added up |
| Bezier.HowMany | bitmap2component/bitmap2component.cpp:596 | n - 1 steps stay below 1 and n reach it |
| GerberEscape.ConvertNotAllowedCharsInGerber | common/gbr_metadata.cpp:435-494 | computes the encoding the lemmas are about |
| GerberEscape.FormatStringFromGerber | common/gbr_metadata.cpp:369-432 | computes the decoding the lemmas are about, also for short and malformed input, where `count-5` wraps around |
| GerberEscape.FormatStringToGerber | common/gbr_metadata.cpp:512-533 | converts unless the text is already quoted |
| GerberEscape.RoundTrip | common/gbr_metadata.cpp:369-494 | decoding undoes encoding, with the quotes if any, exactly when UTF-8 is allowed or all characters have 16 bits |
| GerberEscape.DecodeEncoded | common/gbr_metadata.cpp:369-494 | what a reader gets back from any text, character by character |
| GerberEscape.EncodedIsClean | common/gbr_metadata.cpp:435-494 | no `%`, `*` or `,` is left and every backslash starts an escape |
| GerberMeaning.EscapedExactly | common/gbr_metadata.cpp:435-494 | each character as printed, in literal codes: which ones are escaped, and the escape's digits |
| GerberMeaning.ReadsEscape | common/gbr_metadata.cpp:369-432 | a backslash, `u` and four hexadecimal digits are read as the code the digits spell, by their values |
| GerberMeaning.ReadsOthers | common/gbr_metadata.cpp:369-432 | everything that is no such escape is read as it is |
| GerberNet.FormatNetAttribute | common/gbr_metadata.cpp:542-743 | the accepted calls, the record of the last request, the printed commands and the clear flag |
| GerberNet.Update | common/gbr_metadata.cpp:663-681 | one attribute: what substring search in the last request decides about it |
| GerberMeaning.ClearsExactly | common/gbr_metadata.cpp:650-720 | when the dictionary is cleared, by what was asked for before and is now |
| GerberMeaning.InOrder | common/gbr_metadata.cpp:644-735 | in which order commands are printed |
| GerberMeaning.OnlyChanges | common/gbr_metadata.cpp:650-740 | a command is printed exactly when it is asked for and was not in the last request, or the dictionary is cleared |
| GerberNet.AttributeStrings | common/gbr_metadata.cpp:574-641 | the texts of the requested attributes are the commands that set them |
| GerberMeaning.Printed | common/gbr_metadata.cpp:552-559 | the characters of each command, in literal codes |
| GerberMeaning.NetRequested | common/gbr_metadata.cpp:603-630 | a net is asked for exactly when it is selected; its value reads as the name, is empty for a pad that belongs to no net, and `N/C` for one that is not connected |
| GerberMeaning.PadRequested | common/gbr_metadata.cpp:574-601 | a pad is asked for exactly when it is selected; cut at the commas its value reads as component, pad name and, if there are both, pin function |
| GerberMeaning.ComponentRequestedIs | common/gbr_metadata.cpp:632-641 | a component is asked for exactly when it is selected without a pad, and reads as its name |
| GerberNet.ReadAllPrinted | common/gbr_metadata.cpp:552-559 | a reader gets back the commands that were printed |
| GerberNet.FindCommand | common/gbr_metadata.cpp:672-676 | searching the text for a command finds it exactly when it is in the list |
| GerberNet.RequestIsRequest | common/gbr_metadata.cpp:574-645 | values are free of the characters that end a command |
| GerberReplay.ExactAfterCall | common/gbr_metadata.cpp:650-740 | without the keep flag one call leaves exactly the requested dictionary |
| GerberReplay.AgreesAfterCall | common/gbr_metadata.cpp:650-740 | in any case .P and .N are right, and so is a requested .C |
| GerberReplay.ExactlyWhen | common/gbr_metadata.cpp:650-740 | after any call, from any dictionary that agrees with the last request, the dictionary is exact unless it holds a component name that is not asked for and not dropped |
| GerberReplay.ExactAtTheEnd | common/gbr_metadata.cpp:542-743 | over every sequence of calls the dictionary is exact unless a component name is held that the last accepted call did not ask for; whether one is held follows from the calls |
| GerberReplay.ExactThroughout | common/gbr_metadata.cpp:703-720 | it is exact after every call exactly when no call that keeps attributes asks for a pad right after a component |
| GerberReplay.KeepCounterexample | common/gbr_metadata.cpp:703-720 | three calls after which a component name is left over, the last without a pad |
| GerberReplay.FileIsExact | common/gbr_metadata.cpp:542-743 | over every sequence of calls without the flag, a reader of the printed characters ends with the last accepted request exactly |
| GerberReplay.FileAgrees | common/gbr_metadata.cpp:542-743 | over every sequence of calls, .P, .N and a requested .C are right |
| GerberReplay.GerberPlotter.ClearNetAttribute | common/plotters/GERBER_plotter.cpp:173-186 | writes one clear command unless nothing is remembered |
| GerberReplay.GerberPlotter.EndBlock | common/plotters/GERBER_plotter.cpp:196-200 | nothing is remembered, and the reader's dictionary is empty if anything was |
| GerberReplay.GerberPlotter.FormatNetAttributes | common/plotters/GERBER_plotter.cpp:203-234 | what the reader holds and what is remembered afterwards; an object that selects no attribute is passed over |
| GerberReplay.PlotterExact | common/plotters/GERBER_plotter.cpp:189-234 | over every run of objects and block ends the reader holds what is meant after each exactly when nothing forgotten has to be dropped and no object that keeps attributes asks for a pad after a component |
| GerberReplay.PlotterCounterexample | common/plotters/GERBER_plotter.cpp:203-234 | three objects after which it does not |
| GerberReplay.BlockCounterexample | common/plotters/GERBER_plotter.cpp:196-200 | two objects and the end of a block after which the reader still holds a net |
| GerberReplay.FromNothing | common/gbr_metadata.cpp:678-681 | with nothing remembered the dictionary is right exactly when nothing has to be dropped |
| DsnNumber.ScanNumber | common/dsnlexer.cpp:480-527 | accepts exactly an optional sign, digits with an optional point anywhere, and an optional exponent with digits |
| DsnNumber.NumberShape | common/dsnlexer.cpp:493-509 | taking as many digits as possible loses no number |
| DsnNumber.CommentExactly | common/dsnlexer.cpp:482-527 | the pattern in the comment describes exactly the accepted words whose point is not last |
| DsnNumber.OnePoint | common/dsnlexer.cpp:482-527 | `1.` is accepted and does not fit the pattern |
| DsnLexer.Lexer.constructor | common/dsnlexer.cpp:90-103 | the lexer starts in front of the whole text |
| DsnLexer.Lexer.ReadLine | include/dsnlexer.h:470-490 | the line up to and with its line feed, nothing at the end |
| DsnLexer.Lexer.SeekToken | common/dsnlexer.cpp:540-594 | goes to the next token over blanks, blank lines and comment lines |
| DsnLexer.Lexer.TakeToken | common/dsnlexer.cpp:596-815 | parenthesis, bar, quoted string or word |
| DsnLexer.Lexer.NextTok | common/dsnlexer.cpp:530-818 | takes the first of the remaining tokens, says EOF from the end on, and fails on an unterminated string |
| DsnLexer.ReadEscape | common/dsnlexer.cpp:637-700 | named, hexadecimal and octal escapes, with their fallbacks |
| DsnLexer.ReadString | common/dsnlexer.cpp:625-718 | the text of a quoted string, or that it is open |
| DsnPieces.Characters | common/dsnlexer.cpp:437-467 | which characters are blank and which end a word |
| DsnPieces.FirstCharacter | common/dsnlexer.cpp:540-815 | what the first character of a line makes of it |
| DsnPieces.WordTaken | common/dsnlexer.cpp:790-798 | a word goes up to a blank, a parenthesis or a bar |
| DsnPieces.CommentSkipped | common/dsnlexer.cpp:560-594 | a line whose first non-blank is `#` is passed over |
| DsnPieces.NamedEscapes | common/dsnlexer.cpp:646-656 | the code of each named escape |
| DsnPieces.HexEscape | common/dsnlexer.cpp:658-675 | two hexadecimal digits, by their values |
| DsnPieces.ShortHexEscape | common/dsnlexer.cpp:658-675 | one hexadecimal digit |
| DsnPieces.OctalEscape | common/dsnlexer.cpp:677-696 | one to three octal digits, by their values, as a byte |
| DsnPieces.OtherEscapes | common/dsnlexer.cpp:677-696 | any other character behind a backslash |
| DsnLexer.Lexer.NeedRIGHT | common/dsnlexer.cpp:376-382 | succeeds exactly on a closing parenthesis |
| DsnLexer.Lexer.NeedBAR | common/dsnlexer.cpp:385-391 | succeeds exactly on a bar |
| DsnLexer.Lexer.NeedSYMBOLorNUMBER | common/dsnlexer.cpp:405-413 | succeeds exactly on a symbol, string, keyword or number |
| DsnSlices.WholeText | common/dsnlexer.cpp:530-818 | lexing any text ends; the tokens are disjoint slices in order, each spelled by its slice; up to the end, or the quote of a string left open, every other character is white space or on a line whose first non-blank is `#` |
| DsnSlices.EveryToken | common/dsnlexer.cpp:530-818 | the slices from any state of the lexer |
| DsnSlices.NothingElseSkipped | common/dsnlexer.cpp:437-468 | what is between the slices, from any state of the lexer and for any text |
| DsnSlices.StopsWhere | common/dsnlexer.cpp:530-818 | the lexer stops behind all tokens, at the end or at a quote |
| DsnSlices.TokensAreSpans | common/dsnlexer.cpp:530-818 | the slices are the tokens that are delivered |
| DsnSlices.ReadPart | common/dsnlexer.cpp:625-718 | how a quoted string is read depends on nothing behind its closing quote |
| EmbeddedFiles.WriteEmbeddedFiles | common/embedded_files.cpp:146-207 | writes the text the round trip is about |
| EmbeddedFiles.WriteData | common/embedded_files.cpp:182-200 | lines of 76 characters between bars |
| EmbeddedMeaning.LinesWithKeyword | common/embedded_files.cpp:146-207 | the characters of a printed line |
| EmbeddedMeaning.FileWritten | common/embedded_files.cpp:154-203 | the lines of a file, with and without its data |
| EmbeddedMeaning.TypeWords | common/embedded_files.cpp:159-180 | the word for each type |
| EmbeddedMeaning.LinesWritten | common/embedded_files.cpp:182-200 | one more line of data takes the next 76 characters |
| EmbeddedFiles.Table.AddFile | common/embedded_files.cpp:108-111 | adds an entry unless its name is taken |
| EmbeddedFiles.Parser.ParseEmbedded | common/embedded_files.cpp:305-446 | table, error and position after parsing, for every stream of tokens |
| EmbeddedFiles.Parser.ParseFile | common/embedded_files.cpp:339-429 | the fields of one entry |
| EmbeddedFiles.Parser.ParseField | common/embedded_files.cpp:347-428 | one field, with its errors and the null pointer |
| EmbeddedFiles.Parser.CollectData | common/embedded_files.cpp:362-380 | the words up to the closing bar, put together |
| EmbeddedFiles.Parser.Finish | common/embedded_files.cpp:325-337 | an entry with data is checked before it is added |
| EmbeddedMeaning.NameStarts | common/embedded_files.cpp:382-396 | a name starts an entry with that name and nothing else |
| EmbeddedMeaning.ChecksumSets | common/embedded_files.cpp:352-360 | a checksum sets the checksum and nothing else |
| EmbeddedMeaning.TypeSets | common/embedded_files.cpp:398-424 | which type each word sets |
| EmbeddedMeaning.DataAdds | common/embedded_files.cpp:362-380 | the words between the bars are the data |
| EmbeddedMeaning.EntriesAdded | common/embedded_files.cpp:325-337 | which entries get into the table |
| EmbeddedRoundTrip.WriteThenParse | common/embedded_files.cpp:146-446 | at any nesting and with anything behind it, the written block parses to a table of the same names, types, checksums and data exactly when each entry has data, no line of which is a number, that is what its checksum says; otherwise there is a parse error |
| EmbeddedRoundTrip.BackAsTheyWere | common/embedded_files.cpp:146-446 | valid entries come back unchanged, and no others |
| EmbeddedRoundTrip.FilesLexed | common/embedded_files.cpp:146-207 | the tokens of the written files |
| EmbeddedRoundTrip.FilesParsed | common/embedded_files.cpp:305-446 | the table those tokens are parsed to, with the check of an entry put off to the next |
| EmbeddedRoundTrip.ChunksCollected | common/embedded_files.cpp:362-380 | the lines give the data back exactly when none is a number |
| EmbeddedRoundTrip.FileParsed | common/embedded_files.cpp:339-429 | the entry that one file's tokens are parsed to |
| EmbeddedErrors.FirstField | common/embedded_files.cpp:339-429 | the fields of a file lead to the null pointer exactly when the first one needs an entry |
| EmbeddedErrors.NeverBehindName | common/embedded_files.cpp:339-429 | behind a name they never do |
| EmbeddedErrors.NullPointerExactly | common/embedded_files.cpp:305-446 | the parser follows the null pointer exactly when a file it gets to starts with such a field |
| EmbeddedErrors.NullPointer | common/embedded_files.cpp:352-358 | a text on which it does |
| EmbeddedErrors.NumberChecksums | common/embedded_files.cpp:352-358 | looking at the wrong token makes a difference exactly for numbers |
| EmbeddedErrors.NumberChecksum | common/embedded_files.cpp:352-358 | a number that is taken for a checksum |
| EmbeddedErrors.EmptyAndNumber | common/embedded_files.cpp:146-446 | two written blocks that cannot be parsed |
| Units.RemoveTrailingZeros | common/eda_units.cpp:32-44 | strips the zeros at the end and a point or comma before them |
| Units.StringFromValue | common/eda_units.cpp:300-361 | the printed text, with the second attempt for a number shown as zero |
| UnitsMeaning.StripsExactly | common/eda_units.cpp:32-44 | what is stripped from any text: zeros at the end and one point or comma in front of them |
| UnitsMeaning.Suffixes | common/eda_units.cpp:126-152 | the suffix of each unit |
| UnitsMeaning.Precision | common/eda_units.cpp:325-345 | the number of decimals for each unit |
| UnitsMeaning.Nearest | common/eda_units.cpp:347-349 | the printed number is the nearest with that many decimals, ties to the even digit |
| UnitsMeaning.SecondAttempt | common/eda_units.cpp:351-355 | what would be shown as zero is printed with 10 decimals |
| Units.DoubleValueFromString | common/eda_units.cpp:576-668 | the value of a text with an optional unit, ounces and radians included |
| Units.ValueFromString | common/eda_units.cpp:671-677 | rounded to the nearest whole number |
| UnitsMeaning.TypedNumber | common/eda_units.cpp:604-605 | the number of a sign, digits, a point and digits, each of which may be missing |
| UnitsMeaning.NotANumber | common/eda_units.cpp:604-605 | nothing is read from a text without a digit, with a second point, or with a sign behind its front |
| UnitsMeaning.Designated | common/eda_units.cpp:604-642 | a length with a designator, in any case and whatever is behind its two characters, is read with the literal factor of that unit: inches, mils, thous, ounces, millimetres, centimetres, micrometres in three spellings |
| UnitsMeaning.InchMark | common/eda_units.cpp:633-636 | so is the inch mark, 25.4 millimetres |
| UnitsMeaning.Undesignated | common/eda_units.cpp:650-665 | without a designator the unit that is set counts |
| UnitsMeaning.OtherTails | common/eda_units.cpp:607-642 | and so it does with anything else behind the number |
| UnitsMeaning.Angles | common/eda_units.cpp:644-648 | radians are 57.29577951308232 degrees each |
| UnitsMeaning.CommaForPoint | common/eda_units.cpp:585-589 | a comma reads as a point |
| UnitsMeaning.BlanksAround | common/eda_units.cpp:585 | white space around the text does not count |
| UnitsMeaning.RoundsToNearest | common/eda_units.cpp:671-677 | the nearest whole number, halves away from zero |
| Units.Conversions | common/eda_units.cpp:259-285 | both conversions are division and multiplication by the same number of internal units |
| Units.TypedConversions | common/eda_units.cpp:307-323 | so they are for areas and volumes, by its square and its cube |
| UnitsMeaning.TypedFactor | common/eda_units.cpp:252-323 | the internal units in one of each unit, square and cube, in literal numbers |
| UnitsRoundTrip.SurvivesExactly | common/eda_units.cpp:288-361 | in a length unit every whole distance, area or volume is read back unchanged, with or without the suffix, exactly when the internal units in a user unit are no more than 10^d for d decimals |
| UnitsRoundTrip.FineEnough | common/eda_units.cpp:300-361 | the distance survives when they are no more |
| UnitsRoundTrip.TooCoarse | common/eda_units.cpp:300-361 | some distance is changed when they are more |
| UnitsRoundTrip.EveryEditor | include/base_units.h:69-110 | every length unit of every editor keeps every distance |
| UnitsRoundTrip.BoardArea | common/eda_units.cpp:310-344 | some area on a board is changed |
| UnitsRoundTrip.StripDecimals | common/eda_units.cpp:32-44 | only zeros of the fraction are stripped |
| UnitsRoundTrip.ReadFixed | common/eda_units.cpp:347-349 | a printed and stripped decimal reads as the number it shows |
| UnitsRoundTrip.ReadWithSuffix | common/eda_units.cpp:591-642 | number and suffix are told apart and the suffix names its own unit |
| FastFloat.NextFloatUp | 3d-viewer/3d_fastmath.h:136-154 | the next value up, or +infinity again; a NaN steps to its neighbouring pattern, a NaN too except next to infinity |
| FastFloat.NextFloatDown | 3d-viewer/3d_fastmath.h:157-174 | the next value down, or -infinity again; a NaN steps to its neighbouring pattern, a NaN too except the last of each sign |
| FastFloat.UpIsNext | 3d-viewer/3d_fastmath.h:136-154 | greater than v with nothing representable between; +infinity stays |
| FastFloat.DownIsNext | 3d-viewer/3d_fastmath.h:157-174 | smaller than v with nothing representable between; -infinity stays |
| FastFloat.DownUndoesUp | 3d-viewer/3d_fastmath.h:136-174 | going up and down again gives the same value |
| FastFloat.Mirror | 3d-viewer/3d_fastmath.h:136-174 | down is up with both signs changed |
| FastFloat.PlaceOrder | 3d-viewer/3d_fastmath.h:96-113 | the order of values is the order of bit patterns, with the sign set apart |
| FastFloat.PatternValue | 3d-viewer/3d_fastmath.h:96-113 | the value of a bit pattern by sign, exponent and fraction |
| FastFloat.KnownValues | 3d-viewer/3d_fastmath.h:96-113 | the patterns of some known values |
| Handoff.OnePoster | common/eda_dde.cpp:175-287 | with one posting thread, in every reachable state the taken messages are a prefix of the accepted ones, at most one is waiting, and none is overwritten before it is taken |
| Handoff.InvRun | common/eda_dde.cpp:175-287 | the invariant holds after every run |
| Handoff.Delivered | common/eda_dde.cpp:175-287 | a message that is posted while the slot is free can be taken by the main thread and is the next one it gets |
| Handoff.Refused | common/eda_dde.cpp:175-187 | a message that finds the slot taken is not accepted |
| Handoff.ShutDown | common/eda_dde.cpp:149-287 | behind the destructor a worker that does not send ends without taking anything more |
| Handoff.SafeExactlyForOne | common/eda_dde.cpp:175-287 | the hand-off is safe exactly for at most one posting thread |
| Handoff.TwoPostersLose | common/eda_dde.cpp:175-187 | a run in which an accepted message is lost |
| ArrayNumbering.ArrayAxis.constructor | common/array_axis.cpp:38-40 | a new axis counts 0, 1, 2 |
| ArrayNumbering.ArrayAxis.GetNumberingOffset | common/array_axis.cpp:65-93 | decodes a label, or refuses it |
| ArrayNumbering.ArrayAxis.SetOffset | common/array_axis.cpp:102-112 | sets the decoded offset, or nothing |
| ArrayNumbering.ArrayAxis.GetItemNumber | common/array_axis.cpp:133-159 | the label of offset plus step times n, or that the alphabet is indexed outside its bounds; it stops |
| ArrayNumbering.LabelDecodes | common/array_axis.cpp:65-159 | a label exists exactly for non-negative values that have, in letters, no zero digit above the lowest, and it decodes to its value |
| ArrayNumbering.DecodesBy | common/array_axis.cpp:43-93 | the value of a label, letter by letter, in literal alphabets |
| ArrayNumbering.NotDecoded | common/array_axis.cpp:65-93 | a text is refused exactly when it is empty or has a character outside the alphabet |
| ArrayNumbering.ItemReadsBack | common/array_axis.cpp:133-159 | the label of item n decodes to the offset plus n steps, that of item 0 to the offset |
| ArrayNumbering.NoLabel | common/array_axis.cpp:147-152 | 676 has none in the 26-letter scheme |
| ArrayNumbering.NumeralDecodes | common/array_axis.cpp:65-93 | every number is decoded from some string of letters |
| ArrayNumbering.NumeralOfDecoded | common/array_axis.cpp:65-93 | and from no other: decoding letters is a bijection |
| ArrayGrid.GetGridCoords | common/array_options.cpp:35-49 | the coordinates of an item |
| ArrayGrid.CoordsOfItem | common/array_options.cpp:35-49 | items lie in the grid and can be told from their coordinates |
| ArrayGrid.ItemOfCoords | common/array_options.cpp:29-49 | every place of the grid is the place of one of nx times ny items |
| ArrayGrid.Placed | common/array_options.cpp:35-49 | which item is at each place, by rows or columns, forwards or in turn backwards |
| ArrayGrid.Serpentine | common/array_options.cpp:42-44 | neighbours in order are neighbours in the grid exactly with alternate reversal, or in a grid one wide or of one run |
| ArrayGrid.NextItem | common/array_options.cpp:39-44 | the same for one item and the next |
| ArrayGrid.GetItemNumber | common/array_options.cpp:82-99 | the two-part label, or the one-part label |
| ArrayGrid.GridLabelDecodes | common/array_options.cpp:82-99 | the two parts of a label decode to the places on the two axes |
| ArrayGrid.LabelsDistinct | common/array_options.cpp:82-99 | with one axis in letters and one in digits and steps that are not zero, no two items share a label |
| ArrayGrid.LabelInjective | common/array_axis.cpp:133-159 | on one axis equal labels mean equal indices |
| SearchReplace.Matches | common/eda_item.cpp:123-183 | true exactly when the search string occurs, character by character or by their upper cases, for whole words with no letter, digit or underscore beside it, and the item is replaceable where that is asked for; also for an empty search string |
| SearchReplace.Replace | common/eda_item.cpp:186-246 | when the loop ends: replaces the first matches, one behind the other, and leaves none; keeps every other character of the original; returns true exactly when there is a match, as `Matches` does |
| SearchReplace.FirstMatchesUnique | common/eda_item.cpp:201-242 | there is only one such list of matches |
| SearchReplace.LastReplaced | common/eda_item.cpp:201-242 | what replacing does to a text, match by match from behind |
| SearchReplace.ReplaceEndsExactly | common/eda_item.cpp:201-242 | the loop ends exactly when the search string is not empty or does not match in front of the end |
| SearchReplace.EndsExactly | common/eda_item.cpp:201-242 | the same for the texts that are compared |
| SearchReplace.LeftmostUnique | common/eda_item.cpp:201-242 | there is one list of leftmost matches in the texts that are compared |
| SearchReplace.MatchesFromIsLeftmost | common/eda_item.cpp:201-242 | the loop finds it |
| TextVars.ExpandTextVars | common/common.cpp:71-118 | literal runs and the results of the references, in order |
| TextVars.ReferenceExpands | common/common.cpp:84-112 | a reference, closed or open, gives what the resolver makes of its token, `${` and `}` around that when it declines, and stays without a resolver |
| TextVars.NothingExpands | common/common.cpp:95-99 | an empty reference and each of the four directives give nothing |
| TextVars.PlainText | common/common.cpp:80-112 | a source without a reference stays as it is |
| TextVars.SegmentsShow | common/common.cpp:80-112 | the pieces put together are the source, so nothing is read twice or left out |
| TextVars.Distributes | common/common.cpp:71-118 | expansion distributes over concatenation where no reference is cut |
| TextVars.IdentityExactly | common/common.cpp:71-118 | under a resolver that declines everything a source is unchanged exactly when its references are closed, not empty and no ERC or DRC directives |

## Left out

- Dialogs, frames, canvas, sockets, files, the environment, clocks and settings.
- `KIwxExpandEnvVars`: it depends on the environment.
- Fonts, potrace, polygon operations, zstd, base64 and SHA: the check of an entry's checksum is a parameter
  of the parser, and data is any text over the base64 alphabet.
- Glob.MatchWild: the counters `count` and `acount`, which nothing reads, are not modelled.
- PatternMatch.WildcardMatch.SetRegex: of the regex language only the part that the compiler emits is read;
  other regexes count as not compiling, and the fallback to plain search for those is not modelled. `.` is
  taken to match every character.
- EditDistance.Levenshtein: the division is exact.
- Bezier.BezierToPolyline: arithmetic is exact, and the square root is a parameter that is the exact root.
- GerberNet.FormatNetAttribute: only the X2 form, without X1 structured comments; names must not arrive
  already quoted, as common/gbr_metadata.cpp:518-521 assumes; text is a sequence of character codes, not of
  UTF-8 bytes.
- GerberReplay.GerberPlotter.FormatNetAttributes: extra data (common/plotters/GERBER_plotter.cpp:229-233) and
  the switch that turns net attributes off are not modelled.
- DsnLexer.Lexer.NextTok: specctra mode, comments as tokens, several readers, the limit on the length of a
  line and the offsets for error messages are not modelled; characters are single bytes.
- `NeedLEFT`, `NeedSYMBOL`, `NeedNUMBER`: they would only repeat the three helpers that are modelled.
- EmbeddedFiles.WriteEmbeddedFiles: the conversion of names between character sets is not modelled. The files
  come in the order of the map.
- EmbeddedFiles.Parser.ParseEmbedded: the lexer of the caller and the parser's are one, with the parser's
  keywords. The text of an error is not modelled, and decompressed data is not kept.
- EmbeddedRoundTrip.WriteThenParse: for names and checksums free of quotes, backslashes, line feeds and
  NULs; the writer does not escape them, though a backslash can survive.
- Units.StringFromValue: arithmetic is exact and printf rounds exactly; the decimal separator is the point.
- Units.DoubleValueFromString: the decimal separator is the point, and only ASCII white space is stripped. A
  text of digits, points and signs that is no number leaves the value at 0, as `wxString::ToDouble` is documented.
- FastFloat.UpIsNext: the conversions of 64 bits are left out. Values are scaled by 2^149.
- Handoff.OnePoster: steps are sequentially consistent; delivery over the network, data races on the flag and
  messages lost at shutdown are not modelled.
- ArrayNumbering.ArrayAxis.GetItemNumber: integers are unbounded; overflow of 32 bits is not modelled.
- ArrayGrid.GetItemNumber: positions of the items (`GetTransform`) and circular arrays are not modelled.
- SearchReplace.Matches: the permissive and wildcard modes are not modelled. Case folding maps character by
  character.
- SearchReplace.Replace: for the searches with which its loop ends, see `SearchReplace.ReplaceEndsExactly`. On an
  empty text an empty search string is a match for `Matches` and not for `Replace`.
- TextVars.ExpandTextVars: the ERC and DRC expression is a test of the prefix, since the rest of it matches
  everything.
