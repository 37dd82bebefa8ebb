# Xeme input layer and DTD expansion: a verified model

Xeme is an incremental XML parser. This project models, in Dafny, the parts of it that claim that a
fast, resumable or in-place form gives the same answer as a simple one, and proves those claims.

The shared picture is a sequence of lexical characters: a Unicode scalar, the width of the bytes it was
read from, and whether it was raw or converted by a custom encoding (`Lexical.LexChar`, `Sources.Unit`).
The parser never stores that sequence. It keeps buffers, cursors, side tables and saved scan progress;
each class below carries a `Valid()` predicate that ties its fields to the sequence.

Streaming input layer:

- `Unicode`, `Words`, `Names`, `NameTables`, `Positions`, `TextPlans`: UTF-8 as stored, the 8-byte word tests
  and 16-lane masks, names and the tables of the Fourth Edition, line and column folds, and plans for plain text.
- `Lexical`, `LexicalBuffer`: converted characters shown by representatives beside an offset table.
- `Sources`, `SourceClass`: decoded text with cursor, compaction, width table and original coordinates.
- `Codecs`, `Detection`, `Decoding`, `DecoderClass`, `Sessions`, `Turns`: encodings, detection and the
  incremental decoder, up to whole sessions over arbitrary chunks with application-supplied maps and
  conversions, and with the parser consuming and asking for positions between the feeds.
- `InputContexts`, `ContextTurns`: the raw window that shares the decoder's source until it has to separate, and
  the proof that a session with a window sees exactly what the same session sees without one.
- `Scanners`, `MarkupScan`, `ScanClass`, `References`: one-shot meanings of the token scans and the
  resumable scans that agree with them.
- `LineLaws`, `CodecSpellings`, `DeclaredEncodings`, `TokenShapes`, `DeclarationShapes`, `CharacterSpellings`: the
  same answers said by the shape of the input alone, without states, steps or decoding: what lines are, which
  bytes spell which characters, what a document says about its encoding, where a token ends, and which
  references spell a character.

DTD:

- `EntityValues`, `EntityTheorems`: the recursive meaning of entity values, the loop over an explicit frame
  stack that computes it, and what follows about bounds, recursion and line endings.
- `EntityExpansions`: how the text of a value falls into runs and references, and that the value, its cost and
  its error are exactly what these pieces give.
- `ContentModels`, `ContentGrammar`: the recognisers of content models and enumerations, and the grammars
  they accept.
- `IgnoredSections`, `IgnoredGrammar`: the resumable balanced scan of ignored conditional sections, and the
  grammar of what they hold.
- `DefaultSegments`: the distribution of a declaration's raw text over queued events.

Storage:

- `Recycling`: retained capacities under one budget.
- `Arena`: NUL-terminated fields, packed one by one or patched into one copied span.

`Errors`, `Wrappers` and `Chunks` hold error kinds, `Option`/`Result` and the joining of pieces. The project
verifies with `dafny verify dfyconfig.toml`.

The centre of the input layer is `Sessions.Read`: what all the bytes so far read as, defined without chunks or
saved state. `Turns.SeenAfter` says from it alone what a parser sees after any turns of feeding, consuming and
looking. `Turns.DecodeChunks` runs the plain decoder and `ContextTurns.ReadAdapted` the decoder with a window;
both are proved to show exactly that, so the unread text, every position and every error of the two agree.

Two behaviours of the code depend on how the input is split, and are stated exactly rather than assumed
away. In `ScanMode::Doctype` a `<` among the last three available bytes makes the scan wait; when the byte
limit falls inside that window, a piece that ends there is refused although the whole would be accepted
(`MarkupScan.CutByLimit`, with `MarkupScan.CutExample`). An end tag whose limit is smaller than its two
opening bytes is refused at a different offset when only `<` or `</` has arrived (`ScanClass.CutBeforeName`,
with `ScanClass.CutBeforeNameHappens`). Everything else is independent of the split, whatever the limit.

## Model

| member | source | states |
|---|---|---|
| Names.BorrowsMarkUpwards | crates/xeme/src/names.rs:14-22 | the word test marks the first special lane exactly: a borrow can only mark lanes above it |
| Names.FirstSpecial | crates/xeme/src/names.rs:14-28 | the lowest marked byte of the word is the first byte of the chunk that is a control or not ASCII, and no mark means none |
| Names.InvalidXmlChar | crates/xeme/src/names.rs:10-33 | the byte offset of the first character XML forbids, on a character boundary, or none when every character is allowed |
| Names.InRanges | crates/xeme/src/names.rs:98-104 | the binary search finds a character exactly when some range of a sorted table holds it |
| NameTables.TablesSorted | crates/xeme/src/names.rs:106-423 | both tables of the Fourth Edition are sorted and disjoint, as the binary search asks |
| NameTables.FourthWithinFifth | crates/xeme/src/names.rs:53-92 | every name under Fourth Edition rules is a name under Fifth Edition rules |
| Names.TakeName | crates/xeme/src/lib.rs:4924-4933 | takes exactly the longest name at the start of the text, or none |
| Names.NamePrefixOf | crates/xeme/src/lib.rs:4924-4933 | a name that no name character follows is taken whole |
| Positions.AdvanceConcat | crates/xeme/src/encoding.rs:1609-1666 | coordinates over a concatenation are those of the parts in turn, so CRLF split anywhere counts once |
| Positions.UnmarkedFlat | crates/xeme/src/encoding.rs:1612-1629 | an unmarked word holds neither line break nor a byte above ASCII in any lane |
| Positions.AdvancePosition | crates/xeme/src/encoding.rs:1609-1649 | word skips and scalar steps together equal the scalar fold, for every text and carriage return state |
| Positions.AdvanceLongPosition | crates/xeme/src/encoding.rs:1651-1666 | the jump to line breaks by byte search equals the same scalar fold |
| LineLaws.CountsLines | crates/xeme/src/encoding.rs:1609-1666 | a text ends as many lines further as it has breaks, and as many columns as its last line has characters, whatever its breaks (section 2.11 of XML 1.0) |
| LineLaws.FallsIntoLines | crates/xeme/src/encoding.rs:1609-1666 | every text is lines with their breaks, so the law covers all of them |
| TextPlans.StopLanes | crates/xeme/src/text.rs:7-53 | a lane stops exactly where the scalar rule does not cover the byte, including signed lanes above ASCII |
| TextPlans.LanesCount | crates/xeme/src/text.rs:64-68 | counting ones and the highest set bit of the line feed mask gives the exact newline count and line start |
| TextPlans.WordPrintable | crates/xeme/src/text.rs:74-91 | every byte of an unmarked word is printable ASCII and none is markup or `]` |
| TextPlans.Scan | crates/xeme/src/text.rs:32-118 | a plan exactly when the scalar specification allows one, at the only end it allows, with exact newline count and trailing columns; applied, it moves any coordinates as the fold does |
| TextPlans.ScanOuterWhitespace | crates/xeme/src/text.rs:123-152 | a plan exactly for a nonempty blank run that ends the text or meets markup or a line break |
| TextPlans.PlanAdvances | crates/xeme/src/text.rs:156-174 | committing a plan moves any coordinates exactly as the scalar fold over its text |
| Lexical.RepresentativeClass | crates/xeme/src/lexical.rs:33-43 | a representative is never ASCII and keeps the Fifth Edition name class |
| Lexical.WalkRecovers | crates/xeme/src/lexical.rs:101-118 | text and table give every character back: a genuine representative is never taken for a conversion |
| Lexical.ValidIffConsistent | crates/xeme/src/lexical.rs:268-300 | the stored pair represents some text exactly when the table is strictly sorted, on boundaries, with the representative stored at each offset |
| LexicalBuffer.NormalizeNewlines | crates/xeme/src/lib.rs:5206-5221 | one pass with a carriage return flag equals section 2.11 of XML 1.0 on raw text |
| LexicalBuffer.ForSlice | crates/xeme/src/lexical.rs:120-152 | a subslice stands for exactly the characters between its ends |
| LexicalBuffer.Decode | crates/xeme/src/lexical.rs:154-168 | the decoded text is the scalar of every character, with and without ASCII aliases |
| LexicalBuffer.Normalized | crates/xeme/src/lexical.rs:171-186 | line ends of raw characters are normalized, converted ones never |
| LexicalBuffer.NormalizeIgnoresOpaque | crates/xeme/src/lexical.rs:171-174 | the shortcut without ASCII aliases gives the same text |
| LineLaws.NormalizesLines | crates/xeme/src/lib.rs:5206-5221 | normalization keeps the lines and ends each with one line feed; converted characters are no breaks |
| LexicalBuffer.SameNameExactly | crates/xeme/src/lexical.rs:196-219 | two names shown alike compare equal exactly when every character was spelled alike in the input |
| LexicalBuffer.ToOwned | crates/xeme/src/lexical.rs:221-232 | the rebased copy stands for the same characters |
| LexicalBuffer.Buffer.PushStr | crates/xeme/src/lexical.rs:306-325 | contents grow by the raw text |
| LexicalBuffer.Buffer.PushConversion | crates/xeme/src/lexical.rs:351-373 | contents grow by one converted character, shown by its representative |
| LexicalBuffer.Buffer.Append | crates/xeme/src/lexical.rs:335-349 | contents become the concatenation |
| LexicalBuffer.Buffer.Truncate | crates/xeme/src/lexical.rs:391-397 | contents become the characters before the boundary |
| LexicalBuffer.Buffer.DiscardPrefix | crates/xeme/src/lexical.rs:399-408 | contents become the characters from the boundary on, with rebased offsets |
| LexicalBuffer.Buffer.SwapDecoded | crates/xeme/src/lexical.rs:375-384 | publishes the decoded contents and keeps a plain buffer |
| Sources.WidthsMarkStarts | crates/xeme/src/encoding.rs:1044-1090 | a width entry is nonzero exactly at a character start |
| Sources.EncodingRawSum | crates/xeme/src/encoding.rs:30-38 | lengths computed from decoded text equal the original byte counts of the characters |
| SourceClass.Source.WidthTable | crates/xeme/src/encoding.rs:1044-1090 | one entry per stored byte, nonzero exactly at starts, and the unread sum plus the raw index is the decoded end |
| SourceClass.Source.PushText | crates/xeme/src/encoding.rs:341-390 | the source grows by raw characters of the encoding's widths, all fields still tied to the sequence |
| SourceClass.Source.PushCustom | crates/xeme/src/encoding.rs:1044-1090 | the source grows by one character of the given original width; widths, end and carriage return state follow |
| SourceClass.Source.RawLen | crates/xeme/src/encoding.rs:1093-1115 | the original bytes of any window of unread characters, in every encoding |
| SourceClass.Source.PositionHere | crates/xeme/src/encoding.rs:1124-1133 | the place of the next unread character |
| SourceClass.Source.PositionAt | crates/xeme/src/encoding.rs:1141-1157 | the place of the character at an offset, as the fold over the whole input gives it |
| SourceClass.Source.PositionFromCursor | crates/xeme/src/encoding.rs:1170-1193 | any monotone run of cursor positions gives the same places |
| SourceClass.Source.PositionsOf | crates/xeme/src/encoding.rs:1159-1193 | the places of any parts in order, each reached from the one before by one cursor, are those of each part looked up by itself |
| SourceClass.Source.EndPosition | crates/xeme/src/encoding.rs:1135-1140 | the incrementally kept end equals the fold over everything decoded |
| SourceClass.Source.Consume | crates/xeme/src/encoding.rs:1298-1310 | exactly the counted characters become consumed; positions and compaction agree with the sequence |
| SourceClass.Source.ConsumeAsciiTag | crates/xeme/src/encoding.rs:1312-1325 | the same state as the eager consume, for ASCII without line breaks |
| SourceClass.Source.ConsumeText | crates/xeme/src/encoding.rs:1327-1333 | consuming by a plan leaves the same state as consuming its text eagerly |
| SourceClass.Source.FinishConsume | crates/xeme/src/encoding.rs:1335-1349 | compaction happens at its bound, drops whole characters and their widths, and is invisible to the sequence |
| Codecs.NextUtf8Encode | crates/xeme/src/encoding.rs:377-395 | an encoded scalar is read back with its width, whatever follows |
| Codecs.NextUtf8Sound | crates/xeme/src/encoding.rs:377-395 | only encodings of scalars are read, so nothing overlong or surrogate is |
| Codecs.NextStable | crates/xeme/src/encoding.rs:375-486 | a character that was decided on a prefix is the same whatever follows, in every encoding |
| Codecs.DecodeConcat | crates/xeme/src/encoding.rs:375-497 | decoding a prefix and then the rest with the left-over bytes equals decoding the whole |
| Codecs.Utf8RoundTrip | crates/xeme/src/encoding.rs:377-395 | decoding the encoding of any text gives the text back (section 4 of RFC 3629) |
| Codecs.Utf16RoundTrip | crates/xeme/src/encoding.rs:447-485 | the same for both byte orders of UTF-16, surrogate pairs included (sections 2.1 and 2.2 of RFC 2781) |
| CodecSpellings.DecodesExactly | crates/xeme/src/encoding.rs:375-509 | in every encoding, bytes are read as characters and a rest exactly when they are the spellings of those characters in front of bytes that begin none; the rest is an error unless it is the beginning of a character |
| CodecSpellings.AcceptsExactly | crates/xeme/src/encoding.rs:375-509 | input is read whole exactly when it is spelled: by the RFCs' encodings, by codes below 256 or 128, or by a map and the application's conversions |
| Detection.DetectStable | crates/xeme/src/encoding.rs:51-235 | a choice made on a prefix is the choice for the whole input, over protocol names, marks, content and declarations |
| Detection.Detector.Keeps | crates/xeme/src/encoding.rs:41-49 | saved declaration progress stays valid when more bytes arrive |
| Detection.Detector.DetectNow | crates/xeme/src/encoding.rs:51-235 | the resumed decision is the memoryless one, with the same rejected name and position |
| DeclaredEncodings.DeclaredExactly | crates/xeme/src/encoding.rs:127-235 | a document with any layout of declaration is read in the encoding it names, in any case, and otherwise refused, waiting for a map or left to the parser, with the place of the name; a mark of UTF-8 decides against other names |
| DeclaredEncodings.UsualDeclares | crates/xeme/src/encoding.rs:127-235 | the usual declaration with any encoding name is such a declaration |
| DeclaredEncodings.UnnamedUtf8 | crates/xeme/src/encoding.rs:127-235 | a declaration that names no encoding leaves UTF-8 |
| DeclaredEncodings.UnclosedWaits | crates/xeme/src/encoding.rs:127-150 | a declaration that is not closed is waited for within the token limit, and names nothing at the end of input |
| DeclaredEncodings.ProtocolExactly | crates/xeme/src/encoding.rs:74-134 | a document whose encoding a protocol names is read in it unless its first bytes say otherwise; `UTF-16` is big endian, and an unknown name asks for a map |
| DeclaredEncodings.LatinContent | crates/xeme/src/encoding.rs:60-67 | external content named ISO-8859-1 is taken as it is at once |
| Decoding.ProgressStep | crates/xeme/src/encoding.rs:375-486 | one decoded character moves from what is missing to what is stored, and a stop is the stop of the whole |
| Decoding.DecodeStuck | crates/xeme/src/encoding.rs:487-507 | what is left over is a suffix on which decoding is stuck for lack of bytes |
| Decoding.FromUtf8Decodes | crates/xeme/src/encoding.rs:377-395 | the longest valid prefix and its error agree with decoding character by character |
| DecoderClass.Decoder.Feed | crates/xeme/src/encoding.rs:323-509 | after every feed the stored characters and unread bytes decode to what all received bytes decode to; without a pending conversion the error is the one they deserve |
| DecoderClass.Decoder.FeedDirect | crates/xeme/src/encoding.rs:332-351 | the direct path for complete native text leaves the same state |
| DecoderClass.Decoder.Drain | crates/xeme/src/encoding.rs:487-497 | forgetting consumed bytes, delayed for multibyte input, keeps what is missing |
| DecoderClass.Decoder.ResolveConversion | crates/xeme/src/encoding.rs:593-619 | an answer adds exactly the character asked about, or is the error of the whole input |
| DecoderClass.Decoder.InstallMap | crates/xeme/src/encoding.rs:530-587 | a map is installed exactly when its name and entries are allowed, and then decides all received bytes |
| Sessions.Pump | crates/xeme/src/encoding.rs:323-619 | after one chunk, directly or over the pending bytes, with its map and conversions answered, the source holds what all bytes so far read as, and the error is theirs |
| Sessions.ReadGrows | crates/xeme/src/encoding.rs:323-509 | more input only adds characters, and an error on a prefix is the error of every continuation, which reads as nothing more |
| Sessions.StoredUnread | crates/xeme/src/encoding.rs:901-908 | a mark taken as a consumed character, and a mark skipped, leave the same unread characters at the same places |
| Turns.DecodeChunks | crates/xeme/src/encoding.rs:323-619 | for every split, encoding, map and converter, and every consumption in between, each turn shows the unread text, the positions and the error that one reading of the whole input gives, and the text handed over is its text |
| Turns.ReadExactly | crates/xeme/src/encoding.rs:323-509 | behind the mark input reads as the characters it spells, in one way only; it ends with a partial character, an unclosed token or an invalid token exactly as what is left over says |
| Turns.GiveBack | crates/xeme/src/encoding.rs:323-509 | a text in UTF-8, UTF-16, ISO-8859-1 or US-ASCII, behind the mark that detection finds or without one, is given back in any split (section 4 of RFC 3629, sections 2.1 and 2.2 of RFC 2781) |
| Turns.GiveBackMapped | crates/xeme/src/encoding.rs:323-619 | the same for an application's map: bytes give its characters and its conversions |
| Turns.PlacesInInput | crates/xeme/src/encoding.rs:1117-1157 | a character stands behind the mark and exactly the bytes of the text before it, starting on line one |
| Turns.MarkedUtf16 | crates/xeme/src/encoding.rs:106-134 | without a protocol encoding, UTF-16 behind its byte order mark is always detected as such |
| Turns.DetectedUtf8 | crates/xeme/src/encoding.rs:93-235 | without a protocol encoding, UTF-8 is detected as such, mark included, exactly when it is marked or its first bytes do not look like a mark or like UTF-16, and no declaration says otherwise |
| InputContexts.TextExactly | crates/xeme/src/encoding.rs:807-840 | bytes are valid text exactly when they are the encoding of one, and of which |
| InputContexts.InputContext.constructor | crates/xeme/src/encoding.rs:780-794 | a context is native exactly when the decoder could still take the text as it is, and then the text is retained |
| InputContexts.InputContext.View | crates/xeme/src/encoding.rs:796-803 | the window is exactly the input from its start on, native or separate |
| InputContexts.InputContext.Preserve | crates/xeme/src/encoding.rs:807-843 | input is published and forgotten up to the retained start; it is taken as text exactly when the window was native and the bytes are valid, and otherwise decoder and source are valid plain ones about to be fed it |
| Unicode.FloorExact | crates/xeme/src/encoding.rs:820-822 | the last character boundary at or before an offset |
| InputContexts.InputContext.ForgetText | crates/xeme/src/encoding.rs:819-825 | whole characters before the window go from the shared source, which stays valid with the same unread characters and places |
| InputContexts.ReleasedFrom | crates/xeme/src/encoding.rs:796-803 | the stored text of a native decoder spells all the input, so text and window are the same bytes |
| InputContexts.InputContext.Append | crates/xeme/src/encoding.rs:827-833 | valid text becomes input and its own decoding; before detection it stays behind the cursor |
| InputContexts.InputContext.Separate | crates/xeme/src/encoding.rs:847-876 | the window owns its bytes; staged bytes become pending in a valid plain decoder, and a known text stays as it is |
| InputContexts.InputContext.Decode | crates/xeme/src/encoding.rs:878-932 | the window stays native exactly when detection on the whole input is undecided or chooses UTF-8; then the text is settled as a plain decoder would leave it, and otherwise the decoder goes on as one that detected this itself |
| ContextTurns.FeedContext | crates/xeme/src/lib.rs:1604-1701 | one feed of a context leaves the source holding what all input reads as, with what was consumed unchanged; the window start and whether it is still native follow |
| ContextTurns.ProceedContext | crates/xeme/src/encoding.rs:1298-1349 | consuming from a shared source shows what the reading says and keeps the window, native or not |
| ContextTurns.ReadAdapted | crates/xeme/src/encoding.rs:772-932 | over any turns, with forgetting, consuming, the one-way fallback, maps, conversions and failures, the parser sees what the plain session shows, and every window is the tail of the input from its start |
| Scanners.RunConcat | crates/xeme/src/encoding.rs:1371-1513 | saved state and offset are enough: a scan of a prefix continued over the rest is the scan of the whole |
| Scanners.DelimitedStable | crates/xeme/src/encoding.rs:1412-1438 | a report on a comment or instruction prefix is final |
| MarkupScan.LoopResumes | crates/xeme/src/encoding.rs:1439-1505 | a declaration scan resumes where it paused; a decided one stays decided |
| MarkupScan.SplitInvisible | crates/xeme/src/encoding.rs:1439-1513 | a report on a prefix is the report on the whole exactly when the limit does not cut a waiting `<` of a document type declaration |
| MarkupScan.CutExample | crates/xeme/src/encoding.rs:1480-1482 | a concrete document type declaration that is accepted whole and refused in two pieces |
| ScanClass.Scan.ScanToken | crates/xeme/src/encoding.rs:1350-1366 | the resumed scan reports what the one-shot scan of all the text reports, with a limit moved to the start of the character that holds it |
| ScanClass.Scan.ScanTokenBytes | crates/xeme/src/encoding.rs:1371-1513 | the resumed scan reports what the one-shot scan of all the text reports, and element tags are inspected at most twice per byte however many feeds occur |
| TokenShapes.CommentExactly | crates/xeme/src/encoding.rs:1412-1438 | a comment ends exactly behind the first `-->` that shares no byte with its opening, within the limit |
| TokenShapes.InstructionExactly | crates/xeme/src/encoding.rs:1412-1438 | an instruction ends exactly behind the first `?>` that shares no byte with its opening, within the limit |
| TokenShapes.StartTagExactly | crates/xeme/src/encoding.rs:1516-1600 | a start tag ends exactly behind whole pieces, bare bytes and quoted values, and `>`; it is wrong exactly at a `<`, and goes on exactly when it is the beginning of one |
| TokenShapes.EndTagExactly | crates/xeme/src/encoding.rs:1385-1408 | an end tag is exactly name characters, blanks and `>`; the first other character is where it is wrong |
| DeclarationShapes.DeclarationExactly | crates/xeme/src/encoding.rs:1439-1505 | a declaration ends exactly behind whole pieces, bytes, quoted values, comments and instructions, and the first terminator of its mode |
| ScanClass.Scan.ScanEndTag | crates/xeme/src/encoding.rs:1385-1408 | resuming from the offset alone equals the automaton with its state: the previous byte shows it |
| ScanClass.Scan.ScanElement | crates/xeme/src/encoding.rs:1516-1600 | prefix loop and byte searches equal the byte automaton, with `<` taking precedence at the limit |
| ScanClass.Scan.ScanDelimited | crates/xeme/src/encoding.rs:1412-1438 | searching only new bytes finds the first terminator |
| ScanClass.Scan.ScanLoop | crates/xeme/src/encoding.rs:1439-1505 | the loop with saved quote, brackets and markup state equals the one-shot scan, and pauses where it pauses |
| ScanClass.MemoryGrows | crates/xeme/src/encoding.rs:1371-1513 | progress saved by an incomplete scan is what the next scan needs once more text arrived |
| ScanClass.TokenSplits | crates/xeme/src/encoding.rs:1371-1513 | for every mode a report on a prefix is the report on the whole exactly when the limit cuts neither opener |
| ScanClass.FlooredCharacter | crates/xeme/src/encoding.rs:1350-1366 | a reported limit is a character boundary within the text, and the byte offset it stands for lies in the character behind it |
| ScanClass.FlooredSplits | crates/xeme/src/encoding.rs:1350-1366 | the report with the moved limit is as independent of the split as the one in bytes: it is kept exactly when the limit cuts neither opener |
| ScanClass.CutBeforeNameHappens | crates/xeme/src/encoding.rs:1385-1408 | with a limit below two, every end tag is refused at another offset when it arrives behind its `</` |
| ScanClass.ScanFeeds | crates/xeme/src/encoding.rs:1350-1513 | scanning after every feed until a report is made reports what one scan of the whole text reports exactly when the limit cuts no opener where it stopped, and an element tag is inspected at most twice per byte over all the feeds |
| References.PhaseAt | crates/xeme/src/encoding.rs:1237-1241 | the automaton's state can be read off the text before an offset, so only the offset is saved |
| References.ReferenceMove | crates/xeme/src/encoding.rs:1242-1270 | the offset tests on the flags make the automaton's move for every character |
| References.ScanReference | crates/xeme/src/encoding.rs:1233-1277 | the resumed scan reports what the grammar of section 4.1 of XML 1.0 reports on all the text |
| References.ScanPrologLiteral | crates/xeme/src/encoding.rs:1203-1231 | the resumed scan reports the literal's end or error, and keeps a found quote |
| TokenShapes.ReferenceExactly | crates/xeme/src/encoding.rs:1233-1277 | a reference ends exactly at the `;` behind a name, a decimal or a hexadecimal number, and is wrong exactly at the first character none of them can have (section 4.1 of XML 1.0) |
| TokenShapes.LiteralExactly | crates/xeme/src/encoding.rs:1203-1231 | a literal ends exactly behind the first quote like its own, unless a forbidden character comes first |
| References.SplitsInvisible | crates/xeme/src/encoding.rs:1203-1277 | for both scans a report on a prefix is final, whatever the limit |
| References.ReadReference | crates/xeme/src/encoding.rs:1233-1277 | over any growing sequence of feeds the first report is the report on the whole text, whatever the limit |
| References.ReadPrologLiteral | crates/xeme/src/encoding.rs:1203-1231 | over any growing sequence of feeds, going on after the closing quote, each report is that on the text so far and every decided one is that on the whole text |
| References.ScanScalar | crates/xeme/src/reference.rs:14-56 | a result exactly for a complete reference to a character within the limit, numeric ones within 16 bytes |
| References.FastAgrees | crates/xeme/src/reference.rs:14-56 | the fast path agrees with the resumable scan on length and with the decoder on the character, and leaves nothing to the scan but the cases it names |
| CharacterSpellings.EscapeExactly | crates/xeme/src/lib.rs:5281-5290 | exactly the five escapes decode as the characters they stand for |
| CharacterSpellings.NumericExactly | crates/xeme/src/lib.rs:5291-5318 | a number decodes as the character with that code, in decimal or hexadecimal, with leading zeros and letters in either case; a number that is no character's, and what is no number, are told apart |
| CharacterSpellings.WrongExactly | crates/xeme/src/lib.rs:5291-5310 | what is no number is wrong at its first character that is no digit |
| CharacterSpellings.EveryCharacter | crates/xeme/src/lib.rs:5281-5318 | both numbers of every character XML allows decode to it |
| EntityValues.AppendEntityValue | crates/xeme/src/dtd.rs:1695-1713 | the bound is checked on the stored form before anything is appended; raw line ends are normalized only on request |
| EntityValues.IncludeReference | crates/xeme/src/dtd.rs:1568-1604 | character references are included, general ones bypassed, each as the meaning says |
| EntityValues.IncludeParameter | crates/xeme/src/dtd.rs:1605-1690 | a parameter reference is refused, skipped, left pending or entered as the meaning says, with the checks in their order |
| EntityValues.EntityValue | crates/xeme/src/dtd.rs:1512-1691 | for every table, cyclic or not, the frame loop ends and returns the recursive meaning exactly when it fits the limits, and a limit error exactly when not |
| EntityValues.OpenCount | crates/xeme/src/dtd.rs:1520-1559 | the active set has one name per open frame, so the stack is no deeper than the table |
| EntityExpansions.ValueExactly | crates/xeme/src/dtd.rs:1512-1713 | for every table the text of a value falls into runs and references, and whatever way it does, the value, the error or the unfinished frames are what these pieces give, when every size, depth and charge is allowed, and a limit error when not |
| EntityExpansions.PlainValue | crates/xeme/src/dtd.rs:1535-1553 | a literal without references gives its characters with their line ends normalized |
| EntityTheorems.ValueFits | crates/xeme/src/dtd.rs:1695-1713 | a built value never exceeds the token limit, and a small enough table is never refused for depth |
| EntityTheorems.RecursionExactly | crates/xeme/src/dtd.rs:1620-1632 | for every table: a value is refused as recursive only when some chain of references repeats a name or reaches a blocked one, and such a value is never built; unless another error or an external entity comes first the two coincide, and in a table where none can they always do (section 4.1 of XML 1.0) |
| EntityTheorems.LineEndings | crates/xeme/src/dtd.rs:1537-1595 | normalizing only between references equals normalizing the whole literal first, on the value and on how it stops (sections 2.11 and 4.5 of XML 1.0) |
| ContentModels.Cursor.Space | crates/xeme/src/dtd.rs:2050-2055 | skips exactly the leading whitespace |
| ContentModels.Cursor.Name | crates/xeme/src/dtd.rs:2063-2071 | takes a name, qualified when namespaces are on, or leaves the cursor |
| ContentModels.Cursor.ParseContentModel | crates/xeme/src/dtd.rs:2221-2289 | the cursor ends where the recursive recogniser says, also when it gives up |
| ContentGrammar.Sound | crates/xeme/src/dtd.rs:2221-2289 | a recognised particle is printed by one of the grammar, nested within the limit, and its mark was taken greedily |
| ContentGrammar.Complete | crates/xeme/src/dtd.rs:2221-2289 | every particle of the grammar is recognised whole, in every layout and in front of every text that cannot continue it |
| ContentGrammar.ContentModelExactly | crates/xeme/src/dtd.rs:2221-2289 | a text is accepted up to its rest exactly when it is a model of sections 3.2 to 3.2.2 of XML 1.0, no deeper than allowed, in front of that rest |
| ContentGrammar.DepthExactly | crates/xeme/src/dtd.rs:2226-2232 | a group of the grammar is accepted when it is nested no deeper than the limit and 256, and refused for its depth otherwise |
| ContentModels.Cursor.Enumeration | crates/xeme/src/dtd.rs:2192-2219 | the cursor ends where the recursive recogniser of enumerations says, also when it gives up |
| ContentGrammar.EnumerationExactly | crates/xeme/src/dtd.rs:2192-2219 | an enumeration is accepted up to its rest exactly when it is a parenthesized list of values in some layout (section 3.3.1 of XML 1.0) |
| IgnoredSections.ClosesAtBalance | crates/xeme/src/dtd.rs:189-240 | a section closes at exactly the `]]>` that balances it under left-to-right matching, whenever everything before may be read (section 3.4 of XML 1.0) |
| IgnoredGrammar.ClosesExactly | crates/xeme/src/dtd.rs:189-240 | a section closes exactly behind the `]]>` that contents of the grammar stand in front of: stray text and sections within, of allowed characters, nested and as long as the limits allow (productions [63] to [65] of XML 1.0) |
| IgnoredSections.FirstStable | crates/xeme/src/dtd.rs:195-224 | a piece that is not held back is the same whatever follows |
| IgnoredSections.Section.ParseIgnoredSection | crates/xeme/src/dtd.rs:189-243 | what was read changes depth by sections opened minus closed and bytes by its length, and the whole still ends the same; otherwise nothing changed |
| IgnoredSections.ReadSection | crates/xeme/src/dtd.rs:189-243 | in any chunks, held input and yields included, the section ends or is refused where one scan of the whole says |
| DefaultSegments.Declaration.Segment | crates/xeme/src/dtd.rs:901-980 | the fragment up to an offset goes to the first open declaration event or to an event of its own; nothing else changes, and it fails exactly when that event is charged and the charge refused |
| DefaultSegments.Declaration.Assign | crates/xeme/src/dtd.rs:931-953 | the first open event at or after the mark takes the text, later ones an empty string |
| DefaultSegments.Declaration.ParametersThrough | crates/xeme/src/dtd.rs:850-896 | segments around every skipped reference passed keep the text conserved; it stops only at a refused charge, with a prefix of the text dealt out |
| DefaultSegments.Declaration.Close | crates/xeme/src/dtd.rs:1148-1172 | the rest of the text and `>` follow once, whoever carries them, unless a charge is refused |
| DefaultSegments.Distribute | crates/xeme/src/dtd.rs:850-980 | any legal run of segments and events that ends closed leaves `<!`, the raw text and `>` in the queue: each character once and in order; only a refused charge stops it, and then a prefix of that is there |
| DefaultSegments.FinishValueRaw | crates/xeme/src/dtd.rs:1230-1278 | what is left of a declaration behind its opening quote follows what the queue already holds; only a refused charge stops it, and then a prefix of that is there |
| Recycling.EventRecycling.ReserveAdapter | crates/xeme/src/recycling.rs:60-70 | a reservation drops the attributes exactly when they no longer fit |
| Recycling.EventRecycling.TakeName | crates/xeme/src/recycling.rs:86-96 | detaches a retained name, if there is one, and only that |
| Recycling.EventRecycling.Recycle | crates/xeme/src/recycling.rs:99-124 | storage returned under another parser's token changes nothing; otherwise names first, then attributes, are kept as far as they fit |
| Recycling.EventRecycling.RetainName | crates/xeme/src/recycling.rs:126-140 | a larger name replaces the smaller retained one exactly when it fits the budget |
| Recycling.EventRecycling.RetainAttributes | crates/xeme/src/recycling.rs:142-174 | the recorded size is the real retained capacity, and every string that fits what is left is kept |
| Recycling.KeptFits | crates/xeme/src/recycling.rs:160-173 | kept strings fit together and are kept whole or not at all |
| Recycling.KeptGreedily | crates/xeme/src/recycling.rs:160-173 | a string is dropped only when it is too long or does not fit what is left behind those before it |
| Recycling.LargestStay | crates/xeme/src/recycling.rs:126-140 | when they fit, the two largest of the retained names and the returned one stay |
| Recycling.Run | crates/xeme/src/recycling.rs:24-174 | over every run of operations what is kept in the end, and what every step hands out, is what a fold over the operations says; no subtraction underflows |
| Recycling.StaysBounded | crates/xeme/src/recycling.rs:56-174 | over every run attributes, names and the adapter share one budget, and every retained string is small |
| Recycling.NamesConserved | crates/xeme/src/recycling.rs:84-140 | over every run the names handed out and those still retained were returned under the parser's own token, each once for each return |
| Arena.AdapterFrame.Append | crates/xeme/src/arena.rs:127-152 | a terminated copy behind everything else, earlier fields unchanged, capacity within the budget |
| Arena.AdapterFrame.PushAttribute | crates/xeme/src/arena.rs:154-161 | one more visible pair, and its callback bytes |
| Arena.AdapterFrame.PushLiteralAttributes | crates/xeme/src/arena.rs:175-199 | patching one copied span shows the name and value of every attribute, each with one terminator, and no patch touches a field |
| Arena.AdapterFrame.PushEach | crates/xeme/src/lib.rs:815-832 | packing field by field shows the same pairs and callback bytes |
| Arena.AdapterFrame.PrepareText | crates/xeme/src/arena.rs:94-108 | the text is shown whole, inline or in exactly reserved bytes |
| Arena.PackedFits | crates/xeme/src/arena.rs:165-199 | packed fields with their terminators never need more than the span they come from |
| Arena.SameView | crates/xeme/src/arena.rs:127-203 | both layouts show exactly the pairs of the tag and charge exactly their bytes and the name's, whatever the frame showed before |

## Left out

- Allocation: every reservation succeeds, except that charges against limits may be refused. Allocation failure order, inspection counters and pointer identity are not modelled.
- Integer width: offsets and counts are unbounded where the code bounds them by its input limit; `u32` overflow of character references is modelled.
- Expansion accounting: amplification ratios are an arbitrary predicate on the charges made so far.
- `malformed_ascii_declaration`: an arbitrary predicate passed to detection.
- `check_declaration`, `requires_encoding_declaration`, `inherit_map`, `set_completed_encoding`: the checks of a parsed declaration and the inheritance of maps by child parsers. `ContextTurns.ReadAdapted` starts from a fresh decoder; a context over a decoder with an inherited map is separate from the start, which `InputContexts.InputContext.constructor` states.
- Deferral, the accounting counters of `Source` and `pending_bom_len` are left out.
- External value continuations: a value that needs an external entity ends in `EntityValues.Build`'s pending case; `begin_external_value` and what follows are not part of this model.
- Entity and content model texts, their offsets and parameter offsets count characters where the code counts bytes of the same text; sizes charged and compared with limits count bytes.
- The parser that consumes the decoded text: in `Turns.Turn` how much it takes, where it looks and what the adapter retains are arbitrary. A retained offset behind the root position is clipped to it, which `input_context_byte_index` guarantees.
- Event positions, callbacks and the C ABI; declaration composition and conditional section headers.
- `IgnoredSections.Section.ParseIgnoredSection`: queuing default events for what was read and charging it against the source are left out.
- `EntityValues.EntityValue`: when several limits are exceeded, which one is reported first is not stated; all are the same error kind.
- `DefaultSegments.Declaration.Segment`: whether a charge is allowed is an input, one answer for every charge; a refusal ends the parse with the fragment lost, as in the code.
- `Arena.AdapterFrame.Append`: requires that the appended bytes fit the arena, which its callers know from the length of the tag.
- Adapter frames: start names expanded with namespaces, detached end names and ranges of native text.
