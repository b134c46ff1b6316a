# GovFuzz: verified models of its exact cores

GovFuzz finds fuzz targets in source trees and drives them. This project models the parts of it whose behaviour
is exact and unbounded, in Dafny, and proves what those parts are for:

- **The Ada lexer and the context-clause reader.** `AdaLexer` is the lexer as an object updated in place; every
  scan is proved against a function of `AdaScan`. About those functions: every source is tiled by its tokens and
  every line and column is accounted for (`AdaTiling`); lexing undoes printing, in any layout, and every error-free
  scan is the spelling of a lexeme (`AdaRoundTrip`, `AdaLayout`); a lexeme is read as itself exactly where it stops,
  and every source without malformed tokens is a printed text (`AdaCompleteness`); the lexical rules written out
  once more, after the Ada Reference Manual, are the ones read, and malformed text is one error up to where it ends
  (`AdaManual`, `AdaErrors`); the run under the probe dialect stands for the run under the chosen one exactly when
  no apostrophe is ambiguous (`AdaDialects`); printed context clauses are lexed and read back, and nothing past the
  library item matters (`ContextClauses`, `ContextRoundTrip`, `ContextManual`).
- **Binary readers.** Unsigned LEB128 (`Leb128`), Go build information (`GoBuildInfo`), `ar` archives
  (`ArArchive`), ELF notes (`ElfNotes`) and address translation (`AddressTranslation`), each with the encoder or
  the independent description that the reader has to undo or match.
- **The fork-server runtime.** The value-profile log (`ValueProfile`) and the comparison ring (`CmpLog`) over a
  flat byte array, and the framed protocol over arbitrarily short and failing reads (`FramedDriver`).
- **The input decoders.** The op-program control channel (`ControlChannel`), the C and the Python cursor
  (`Cursors`, `CursorValues`), and the separation of arguments from program (`OpProgram`).
- **Small exact cores.** JSON-RPC framing (`JsonRpc`, `JsonRpcHeaders`), nearest-rank percentiles and the cap curve
  (`NearestRank`), and the linking of raise sites (`RaiseLinking`).

`Common`, `Bytes`, `Decimal` and `Utf8` (checking, lossy replacement, trimming, told by characters in
`Utf8Characters`) hold what several of them share. `dafny verify dfyconfig.toml` checks everything.

## Where the code and its documentation part

The model follows the code. In these places the documentation, or a natural expectation, says something else:

- crates/ada_parser/src/ast.rs:30-34 promises that under Ada 83 every later reserved word is an identifier. Only the
  five gated words are (`AdaDialects.Ada83FreesGatedWordsOnly`); `abstract`, `aliased`, `protected`, `requeue`,
  `tagged` and `until` are reserved in every dialect (crates/ada_parser/src/lexer.rs:625-703,
  `AdaDialects.LaterWordsStayReserved`).
- `1e3` is a real literal (crates/ada_parser/src/lexer.rs:244-264), and `'''` is never a character literal
  (crates/ada_parser/src/lexer.rs:522). An exponent rollback restores the position but not the column, so columns
  run ahead; `AdaTiling.PositionsAreAccountedFor` says by exactly how much, and `AdaTiling.ColumnRunsAhead` is an
  input.
- Lexing under Ada 2022 to guess the dialect does not always give the tokens of the final run:
  `AdaDialects.TablesAgreeExactly` is the exact condition, `AdaDialects.ProbeCanDisagree` a family of failures and
  `AdaDialects.SynchronizedIsReadDifferently` an input.
- The value-profile log is described as de-duplicated in the process (c_runtime/govfuzz_driver.c:320-321). That
  holds for one-byte tokens. A longer token is logged exactly when the last hash in its slot is not its own and there
  is room (`ValueProfile.LongerTokenIsLoggedExactly`), so tokens that take turns in one slot are logged each time
  (`ValueProfile.TakingTurns`); `ValueProfile.LongerTokensCanRepeat` is an input.
- A frame longer than 2^20 bytes is cut and its remaining bytes are read as further frames; the protocol is
  transparent exactly for inputs within the cap (`FramedDriver.TransparentExactlyWithinCap`).
- A control selector divisible by four is documented to pick among `min`, `min+1`, `max-1`, `max` and others
  (c_runtime/govfuzz_decode.h:104-106). Such a selector is even, so `min+1`, `max` and the last case are never
  reached, and the boundary is one of two values (`ControlChannel.BoundariesReached`). The comment at c_runtime/govfuzz_decode.h:63-65 speaks of one byte
  per slot; a slot has five.
- An input that is exactly one control block is all argument data to `gf_open_data` and is decoded as a program
  too (`OpProgram.BareControlBlockIsReadTwice`).
- The Python cursor is documented to mirror the C decoder. `Cursors.StepsAgreeExactly` says for `u8`, `i32`, `i64`,
  bounded numbers, bounded lengths and the rest, at every place of every input, whether it does. On a bounded number it does exactly when C defines the call (both bounds and
  their difference are signed words) and the range is not empty or nothing is left (`Cursors.BoundedAgreesExactly`):
  over an empty range C still reads four bytes. A bounded length takes eight bytes in C and four in Python; the two
  agree exactly when C defines the call (the bounds are words and do not span every word) and nothing is left, or the
  range is not empty and at most four bytes are left (`Cursors.LengthAgreesExactly`).
- The translation of an address range can depend on the order of the headers. It does not exactly when all images
  that cover the range answer alike (`AddressTranslation.OrderIsIrrelevantExactly`), as disjoint images do for every
  range that is not empty. For the empty range on the seam of two images it does unless their files meet there as
  well (`AddressTranslation.SeamDependsOnOrderExactly`); `AddressTranslation.EmptyRangeDependsOnOrder` is an input.

## Model

| member | source | states |
|---|---|---|
| AdaLexer.Lexer.Bump | crates/ada_parser/src/lexer.rs:612-623 | takes one character, and line and column stay those of bumping one character at a time from any earlier position |
| AdaLexer.Lexer.ConsumeExponent | crates/ada_parser/src/lexer.rs:244-257 | takes an exponent only with digits; otherwise gives the letter and sign back but leaves the column where it ran to |
| AdaLexer.Lexer.ConsumeFraction | crates/ada_parser/src/lexer.rs:234-242 | takes a point and digits only when a digit follows the point |
| AdaLexer.Lexer.ConsumeBasedDigits | crates/ada_parser/src/lexer.rs:269-288 | stops where the digits between the two `#` stop and tells whether the literal is well formed there |
| AdaLexer.Lexer.PushTokenAt | crates/ada_parser/src/lexer.rs:578-598 | appends one token; every kind but a comment and the end marker is remembered as the last significant one |
| AdaLexer.Lexer.ScanComment | crates/ada_parser/src/lexer.rs:184-205 | pushes exactly the comment up to the newline, with its place, and remembers nothing |
| AdaLexer.Lexer.ScanIdentifierOrKeyword | crates/ada_parser/src/lexer.rs:207-220 | pushes the longest word, lower-cased, as a keyword or identifier of the dialect |
| AdaLexer.Lexer.ScanNumber | crates/ada_parser/src/lexer.rs:222-266 | pushes the numeric literal the specification reads, rollback included |
| AdaLexer.Lexer.ScanBasedLiteral | crates/ada_parser/src/lexer.rs:268-322 | pushes the based literal, or one error over the whole malformed word |
| AdaLexer.Lexer.ScanString | crates/ada_parser/src/lexer.rs:324-373 | pushes the unquoted content, or an error when a newline or the end comes first |
| AdaLexer.Lexer.ScanApostrophe | crates/ada_parser/src/lexer.rs:375-402 | a mark after the four prefix kinds or without a candidate, else a character literal |
| AdaLexer.Lexer.ScanPunctuationOrError | crates/ada_parser/src/lexer.rs:404-516 | pushes the longest mark, or an error over one character |
| AdaLexer.Lexer.ScanToken | crates/ada_parser/src/lexer.rs:157-170 | one turn of the main loop performs exactly one scan of the specification, chosen by the next two characters and the remembered kind |
| AdaLexer.Lexer.Lex | crates/ada_parser/src/lexer.rs:157-182 | the loop terminates on every source, and what was pushed followed by what is still to come never changes |
| AdaLexer.Lex | crates/ada_parser/src/lexer.rs:130-132 | lexing under a dialect gives the specified tokens under that dialect's reserved words |
| AdaTiling.SourceIsTiled | crates/ada_parser/src/lexer.rs:157-182 | every source under every table is tiled: ordered, disjoint, non-empty tokens, only whitespace between, one end marker at the end |
| AdaTiling.TiledTokensAreDisjoint | crates/ada_parser/src/lexer.rs:560-598 | any two tokens of a tiling are in order and apart, and only the last one is the end marker |
| AdaTiling.EveryCharacterIsCovered | crates/ada_parser/src/lexer.rs:157-182 | every character is whitespace or inside some token |
| AdaTiling.ByteOffsetsKeepOrder | crates/ada_parser/src/lexer.rs:612-614 | byte offsets order positions as character offsets do, so the tiling holds of byte spans |
| AdaTiling.ScanStaysOnLine | crates/ada_parser/src/lexer.rs:184-516 | no scan reads over a newline, not even what it gives back |
| AdaTiling.RollbackIsGivenBack | crates/ada_parser/src/lexer.rs:244-257 | what a scan bumped beyond its token is exactly an exponent letter and sign visible behind it |
| AdaTiling.ColumnRunsAhead | crates/ada_parser/src/lexer.rs:244-254 | over `1e` the second token starts at offset 1 and is recorded in column 3 |
| AdaTiling.PositionsAreAccountedFor | crates/ada_parser/src/lexer.rs:612-623 | every line is one plus the newlines before; every column is exact up to the characters given back earlier on its line |
| AdaRoundTrip.LexemeIsRead | crates/ada_parser/src/lexer.rs:157-540 | a well-formed lexeme in front of a text that cannot extend it, a bare exponent letter included, is scanned as itself, wherever it stands |
| AdaRoundTrip.NumberIsRead | crates/ada_parser/src/lexer.rs:222-266 | a printed number is scanned whole, and is real exactly when it has a fraction or an exponent |
| AdaRoundTrip.BasedIsRead | crates/ada_parser/src/lexer.rs:268-322 | a printed based literal with a base from 2 to 16 is scanned whole |
| AdaRoundTrip.StringBodyIsRead | crates/ada_parser/src/lexer.rs:331-364 | undoubling the quotes of a printed string gives its content |
| AdaRoundTrip.ApostropheIsRead | crates/ada_parser/src/lexer.rs:375-402 | a character literal off a prefix, and a mark on one or without a candidate, are scanned as printed |
| AdaRoundTrip.MarkIsRead | crates/ada_parser/src/lexer.rs:404-516 | every mark is scanned as itself when the next character cannot extend it |
| AdaLayout.PrintedTextIsReadBack | crates/ada_parser/src/lexer.rs:130-182 | lexing a text printed in any admissible layout gives exactly the kinds and texts printed, then one end marker |
| AdaLayout.SpacedTextIsReadBack | crates/ada_parser/src/lexer.rs:130-182 | lexemes printed one space apart are read back, marks standing only after prefixes and character literals never there |
| AdaLayout.ItemsAreRead | crates/ada_parser/src/lexer.rs:157-182 | the printed part is read back whatever text follows it |
| AdaLayout.EveryScanIsALexeme | crates/ada_parser/src/lexer.rs:184-516 | conversely, whatever is scanned without error is the spelling of a well-formed lexeme of that kind |
| AdaCompleteness.LexemeIsReadExactly | crates/ada_parser/src/lexer.rs:157-540 | a well-formed lexeme is scanned as itself if and only if the text behind it cannot extend it and it may stand there |
| AdaCompleteness.SourceIsPrinted | crates/ada_parser/src/lexer.rs:157-182 | every source that lexes without a malformed token is whitespace and a printed text: the round trip covers exactly what is accepted |
| AdaManual.SpacedProgramIsReadBack | crates/ada_parser/src/lexer.rs:130-182 | lexemes printed one space apart are read back in every dialect, words by the manual's list of reserved words; a mark stands exactly behind a word that is not reserved or is `all`, a closing parenthesis or another mark, and a character literal anywhere else |
| AdaManual.QuotedCharacterBehind | crates/ada_parser/src/lexer.rs:532-540 | an apostrophe, a character and an apostrophe behind a printed text begin with a mark exactly behind those four lexemes, comments skipped, and are a character literal behind all others and at the start |
| AdaManual.WordsAreReserved | crates/ada_parser/src/lexer.rs:625-703 | the reserved words of each dialect are those of section 2.9 of the Ada 83 manual, the six of Ada 95 and the gated five from their edition on |
| AdaManual.WordEndsExactly | crates/ada_parser/src/lexer.rs:212-215 | a word ends in front of the first character that is no letter, digit or underscore, and nowhere else |
| AdaManual.DigitsEndExactly | crates/ada_parser/src/lexer.rs:542-549 | a run of digits ends in front of the first character that is no digit or underscore, and nowhere else |
| AdaManual.BasedExactly | crates/ada_parser/src/lexer.rs:268-298 | a base and digits between hashes are a literal if and only if the base is worth 2 to 16 |
| AdaManual.CharacterAlone | crates/ada_parser/src/lexer.rs:404-516 | of the visible ASCII characters exactly the double quote and sixteen others alone are errors |
| AdaManual.WhitespaceIsUnicodes | crates/ada_parser/src/lexer.rs:160 | whitespace is the 25 code points of the White_Space property |
| AdaErrors.MalformedBasedIsCovered | crates/ada_parser/src/lexer.rs:268-300 | a base outside 2 to 16, no digits or no second hash: one error over everything up to the next blank or mark |
| AdaErrors.OneDigitBased | crates/ada_parser/src/lexer.rs:277-288 | a character between hashes makes a based literal if and only if it is no hash, blank or mark |
| AdaErrors.UnterminatedStringIsCovered | crates/ada_parser/src/lexer.rs:324-373 | a string that no quote ends on its line is one error up to the end of the line |
| AdaErrors.UnexpectedCharacterIsCovered | crates/ada_parser/src/lexer.rs:509-512 | a character that begins nothing is an error of its own that names it, whatever follows |
| AdaErrors.ByteOffsetIsEncodedLength | crates/ada_parser/src/lexer.rs:612-614 | the byte offset of a place is the length of the UTF-8 encoding of the text in front of it |
| AdaDialects.ScansPartOnlyAtApostrophes | crates/ada_parser/src/lexer.rs:532-540 | two tables scan alike, up to a disputed word, except at an apostrophe after a disputed word, where they part |
| AdaDialects.TablesAgreeExactly | crates/ada_parser/src/reconcile.rs:31-33 | two runs have the same spans, lines, columns and kinds up to disputed words if and only if the first meets no ambiguous apostrophe |
| AdaDialects.ProbeStandsForRelex | crates/ada_parser/src/reconcile.rs:31-33 | the same, for any two dialects |
| AdaDialects.DialectsDisputeGatedWords | crates/ada_parser/src/lexer.rs:625-703 | two dialects dispute a word if and only if it is gated and exactly one of them is at least the standard that introduced it |
| AdaDialects.Ada83FreesGatedWordsOnly | crates/ada_parser/src/ast.rs:30-34 | a word is reserved under Ada 83 if and only if it is under Ada 2022 and not gated |
| AdaDialects.LaterWordsStayReserved | crates/ada_parser/src/lexer.rs:671-695 | six words that came after Ada 83 are reserved in every dialect |
| AdaDialects.ReservationsAreKept | crates/ada_parser/src/lexer.rs:696-700 | a later standard reserves every word an earlier one does |
| AdaDialects.ProbeCanDisagree | crates/ada_parser/src/lexer.rs:532-540 | any disputed word in front of a quoted character is lexed differently by the two runs |
| AdaDialects.SynchronizedIsReadDifferently | crates/ada_parser/src/reconcile.rs:31-33 | one source that the probe under Ada 2022 and every run under a standard before Ada 2005 lex differently |
| ContextClauses.ParseDottedUnitName | crates/ada_parser/src/reconcile.rs:408-430 | returns the dotted name and the index behind it, or nothing when an identifier is missing |
| ContextClauses.ParseWithClause | crates/ada_parser/src/reconcile.rs:385-406 | returns all names up to the semicolon, or nothing |
| ContextClauses.ExtractWithClauses | crates/ada_parser/src/reconcile.rs:326-370 | returns the clauses at parenthesis depth 0 before the first library item, skipping one token after a malformed clause |
| ContextClauses.NothingPastLibraryItem | crates/ada_parser/src/reconcile.rs:342 | two token lists alike up to a library item keyword at depth 0 give the same clauses |
| ContextRoundTrip.ContextRoundTrips | crates/ada_parser/src/reconcile.rs:326-444 | context items, balanced parentheses of any depth and a `limited` apart from any `with` among them, printed in any layout with comments anywhere, then a library item and any text: lexing, dropping comments and reading gives the printed names in order and spelling |
| ContextRoundTrip.ContextRoundTripsInDialect | crates/ada_parser/src/reconcile.rs:33-35 | the same under any dialect and for each of the seven words that open a library item |
| ContextRoundTrip.CommentsAreDropped | crates/ada_parser/src/reconcile.rs:439-444 | filtering comments leaves exactly the tokens of the other lexemes |
| ContextManual.PlainContextRoundTrips | crates/ada_parser/src/reconcile.rs:326-383 | the dialect round trip with any well-formed lexeme in between but a parenthesis, a `with`, one of the seven opening words and a `limited` in front of a plain `with`: `use` and `pragma` clauses and `private` in front of a later clause lose nothing |
| ContextManual.OnlyClausesAreTaken | crates/ada_parser/src/reconcile.rs:385-430 | what is taken for a clause is identifiers and dots in turns, commas between such names, and a semicolon behind the last |
| ContextManual.BrokenClauseIsSkipped | crates/ada_parser/src/reconcile.rs:346-354 | a `with` that begins no such clause is passed over, and reading goes on with the next token |
| ContextManual.OnlyCommentsAreDropped | crates/ada_parser/src/reconcile.rs:439-444 | of any tokens exactly the comments are left out; errors stay |
| RaiseLinking.LinkSubprogramRaises | crates/ada_parser/src/reconcile.rs:115-121 | each subprogram gains exactly the raises it owns, in order, and nothing else changes |
| RaiseLinking.InnermostIsShortest | crates/ada_parser/src/reconcile.rs:123-140 | a byte in some body has an owner; no body around it is shorter, and of equally short ones the first owns it |
| RaiseLinking.OwnerIsInnermost | crates/ada_parser/src/reconcile.rs:123-140 | on nested or disjoint bodies the owner lies inside every other body around the raise |
| RaiseLinking.OwnerIsFirstOfShortest | crates/ada_parser/src/reconcile.rs:123-140 | a subprogram owns a raise if and only if its body begins at or before the raise's first byte and ends behind it, and no other such body is shorter, or as short and earlier |
| RaiseLinking.OwnerExistsIfCovered | crates/ada_parser/src/reconcile.rs:198-200 | a raise has an owner if and only if some body contains its first byte |
| RaiseLinking.LinksAreConserved | crates/ada_parser/src/reconcile.rs:115-121 | the links gained are as many as the raises covered |
| Leb128.ReadUvarint | crates/binary_analysis/src/lib.rs:2891-2905 | the shift-and-or loop computes the number modulo 2^64 from at most ten bytes |
| Leb128.UvarintRoundTrip | crates/binary_analysis/src/lib.rs:2891-2905 | every 64-bit number is encoded in at most ten bytes and read back in front of any data |
| Leb128.GroupsAreRead | crates/binary_analysis/src/lib.rs:2891-2905 | any one to ten groups are read modulo 2^64, superfluous and overlong ones included |
| Leb128.EndlessIsRefused | crates/binary_analysis/src/lib.rs:2895-2905 | without a last group among the first ten bytes there is no number |
| GoBuildInfo.GoStringRoundTrip | crates/binary_analysis/src/lib.rs:2882-2888 | a length-prefixed string is read back and the rest is left |
| GoBuildInfo.ParseGoModinfo | crates/binary_analysis/src/lib.rs:2907-2922 | the loop collects the module of each line that has one, in order, after malformed text is replaced |
| GoBuildInfo.FieldsAreParsed | crates/binary_analysis/src/lib.rs:2911-2919 | a line of any fields names a module if and only if its first field is `mod` or `dep` and two more follow with something in them, which are trimmed |
| GoBuildInfo.ModuleListIsParsed | crates/binary_analysis/src/lib.rs:2907-2922 | a list of any lines, each ended by a newline with or without a carriage return, gives the modules its lines name once malformed text is replaced field by field |
| GoBuildInfo.RecordIsNamed | crates/binary_analysis/src/lib.rs:2911-2919 | a record keeps its path and version as they are, whatever fields follow and however malformed these are |
| Utf8.LossySplit | crates/binary_analysis/src/lib.rs:2908 | replacing malformed text never reaches over an ASCII character |
| Utf8.LossyKeepsUtf8 | crates/binary_analysis/src/lib.rs:2866 | well-formed text is left as it is |
| Utf8.TrimmedBack | crates/binary_analysis/src/lib.rs:3371-3376 | trimming takes the padding off a text that neither begins nor ends in Unicode whitespace, and nothing else |
| Utf8Characters.CharacterIsFirst | crates/binary_analysis/src/lib.rs:3371-3372 | the encoding of a Unicode scalar value, as table 3-6 of the standard lays it out, is found whole in front of any text, and its code is the value |
| Utf8Characters.FirstIsCharacter | crates/binary_analysis/src/lib.rs:3371-3372 | conversely, whatever is found whole is the encoding of its code |
| Utf8Characters.Utf8IsEncodedText | crates/binary_analysis/src/lib.rs:3371-3372 | text is well formed only as the encoding of some scalar values |
| Utf8Characters.NothingLongerBegins | crates/binary_analysis/src/lib.rs:2908 | where no character stands, no encoding begins with more than the piece that is replaced |
| Utf8Characters.PieceBeginsOne | crates/binary_analysis/src/lib.rs:2908 | such a piece is one byte or the beginning of an encoding: the longest ones are replaced, each by U+FFFD |
| Utf8Characters.TextIsTrimmed | crates/binary_analysis/src/lib.rs:3371-3376 | trimming takes every whitespace character off both ends of any text, and no other character |
| GoBuildInfo.FramedModinfo | crates/binary_analysis/src/lib.rs:2871-2877 | the list is found between its two sentinels, and an empty one gives no modules |
| GoBuildInfo.VersionIsReadAlone | crates/binary_analysis/src/lib.rs:2871-2873 | a list shorter than 33 bytes, or without a newline in front of its second sentinel, gives the version and no modules |
| GoBuildInfo.CutStringIsRefused | crates/binary_analysis/src/lib.rs:2882-2888 | a string cut short in its length or its bytes is refused |
| GoBuildInfo.BuildInfoRoundTrip | crates/binary_analysis/src/lib.rs:2852-2878 | a block whose magic is the first in the file is read back in full if its flags say inline, and not at all if they do not: the version, and the modules its lines name, in order |
| GoBuildInfo.NoBlock | crates/binary_analysis/src/lib.rs:2854-2864 | bytes without the magic, or with less than 32 bytes from it on, hold no build information |
| GoBuildInfo.VersionRoundTrip | crates/binary_analysis/src/lib.rs:2865-2866 | a version in UTF-8 that neither begins nor ends in whitespace comes back as it is |
| ArArchive.ParseArArchive | crates/binary_analysis/src/lib.rs:3356-3393 | the loop terminates on every input and returns the members, or the first error, that the specification reads |
| ArArchive.ParseMember | crates/binary_analysis/src/lib.rs:3362-3388 | one turn reads one header and its data, with the source's errors in the source's order |
| ArArchive.ReadMember | crates/binary_analysis/src/lib.rs:3362-3388 | a member read lies in the file, and the next header begins at least sixty bytes on |
| ArArchive.MembersAreDisjointSlices | crates/binary_analysis/src/lib.rs:3356-3393 | whatever file is read, the data returned are slices of it, in order, apart, each behind sixty header bytes |
| ArArchive.ArchiveRoundTrip | crates/binary_analysis/src/lib.rs:3356-3393 | of every list of members, with spaces and slashes around their names, exactly those with a name are read back, in order; the symbol table `/` and the long names `//` have none |
| ArArchive.LastPadMayBeMissing | crates/binary_analysis/src/lib.rs:3384-3387 | the byte that pads the last member may be missing |
| ArArchive.NameFieldIsRead | crates/binary_analysis/src/lib.rs:3371-3375 | a name field gives the name without the spaces around it and the slashes behind it |
| ArArchive.BrokenHeaderFails | crates/binary_analysis/src/lib.rs:3363-3370 | behind any members a header cut short or without its closing magic fails the archive, each with its error |
| ArArchive.BadSizeFails | crates/binary_analysis/src/lib.rs:3376-3379 | so does a size with a character that is no digit, and the error gives its text |
| ArArchive.NoSizeFails | crates/binary_analysis/src/lib.rs:3376-3379 | so does an empty size, or one that is no UTF-8 |
| ArArchive.CutMemberFails | crates/binary_analysis/src/lib.rs:3380-3382 | so does a member whose data are cut short, and the error gives its name |
| ArArchive.SignatureDecides | crates/binary_analysis/src/lib.rs:3352-3359 | only bytes that begin with the signature are an archive |
| Decimal.ParsedBack | crates/binary_analysis/src/lib.rs:3377-3379 | a printed size parses to itself |
| Decimal.ParsedExactly | crates/binary_analysis/src/lib.rs:3377-3379 | a text is a number if and only if it is digits behind at most one plus sign, worth less than 2^64 |
| ElfNotes.ElfBuildIdFromNotes | crates/binary_analysis/src/lib.rs:2134-2168 | the loop finds what walking at most 128 notes finds |
| ElfNotes.ReadNote | crates/binary_analysis/src/lib.rs:2138-2163 | the checked reads of one turn give the note and the next offset, at least twelve bytes on, or end the walk, or fail |
| ElfNotes.HexRoundTrip | crates/binary_analysis/src/lib.rs:3524-3530 | the printed id determines the bytes |
| ElfNotes.EntriesLead | crates/binary_analysis/src/lib.rs:2134-2168 | walking an encoded note area visits its notes one behind the other, in either byte order, up to a bare one, and then what the rest of the area leads to |
| ElfNotes.NoteAreaIsRead | crates/binary_analysis/src/lib.rs:2134-2168 | the result is the lower-case hex of the first description, among the first 128 notes, of a note of type 3 with a description whose name is `GNU` with or without one NUL; a last note cut short counts if and only if its description is whole |
| ElfNotes.BuildIdIsRecognized | crates/binary_analysis/src/lib.rs:2155-2158 | the walk takes a note if and only if its type is 3, it has a description, and its name is `GNU` with or without one NUL |
| AddressTranslation.ElfVirtualAddressToFileOffset | crates/binary_analysis/src/lib.rs:2041-2063 | the first loadable image that covers the range decides, an overflow of its file offset included |
| AddressTranslation.PeRvaToFileOffset | crates/binary_analysis/src/lib.rs:1978-1994 | the same over sections, each as long as the larger of its two sizes, in 32-bit words |
| AddressTranslation.ElfFirstHeaderDecides | crates/binary_analysis/src/lib.rs:2041-2063 | the first program header of type 1 that has the whole range both in the file and in memory gives the answer, none if its file offset overflows; without one there is none |
| AddressTranslation.PeFirstSectionDecides | crates/binary_analysis/src/lib.rs:1978-1994 | the first section that has the whole range in one of its two sizes gives the answer, none if its pointer overflows; without one there is none |
| AddressTranslation.AnswerLiesInOneImage | crates/binary_analysis/src/lib.rs:2046-2061 | an answer puts the whole range into one image, the first that covers it |
| AddressTranslation.CoveringImageDecides | crates/binary_analysis/src/lib.rs:2046-2061 | over disjoint images the one that covers a non-empty range gives the answer |
| AddressTranslation.SubrangesAreShifted | crates/binary_analysis/src/lib.rs:2046-2061 | every non-empty part of a translated range is translated to the matching part of the answer |
| AddressTranslation.OrderIsIrrelevantExactly | crates/binary_analysis/src/lib.rs:2046-2061 | no reordering changes the answer for a range if and only if all images that cover it answer alike |
| AddressTranslation.OrderDoesNotMatter | crates/binary_analysis/src/lib.rs:2046-2061 | over disjoint images the answer for a non-empty range does not depend on their order, overflowing file offsets included |
| AddressTranslation.ElfOrderDoesNotMatter | crates/binary_analysis/src/lib.rs:2041-2063 | the same for disjoint loadable program headers in any order |
| AddressTranslation.PeOrderDoesNotMatter | crates/binary_analysis/src/lib.rs:1978-1994 | the same for disjoint sections in any order |
| AddressTranslation.EmptyRangeDependsOnOrder | crates/binary_analysis/src/lib.rs:2046-2061 | two disjoint images whose order decides the answer for the empty range between them |
| AddressTranslation.SeamDependsOnOrderExactly | crates/binary_analysis/src/lib.rs:2046-2061 | on the seam of any two images the empty range keeps its answer in both orders if and only if their files meet there as well |
| ValueProfile.SharedLog.AddToken | c_runtime/govfuzz_driver.c:333-356 | one add takes the map and both tables to the specified next state |
| ValueProfile.AddAll | c_runtime/govfuzz_driver.c:333-356 | adding any tokens one by one to a fresh map ends in the state that the statements over whole runs speak of |
| ValueProfile.SharedLog.WriteToken | c_runtime/govfuzz_driver.c:349-355 | appends length and bytes behind the cursor if they fit, and touches no older entry |
| ValueProfile.SharedLog.ComputeHash | c_runtime/govfuzz_driver.c:342-344 | the loop computes the 64-bit hash of the token and its length |
| ValueProfile.SharedLog.IsZero | c_runtime/govfuzz_driver.c:335-337 | tells whether every byte is zero |
| ValueProfile.ParseInvertsEncode | c_runtime/govfuzz_driver.c:352-354 | a log can be cut into tokens in one way only |
| ValueProfile.LogIsWellFormed | c_runtime/govfuzz_driver.c:333-356 | after any run the cursor is at most 65532 and the log parses into tokens that were added, in order |
| ValueProfile.LogOnlyGrows | c_runtime/govfuzz_driver.c:352-355 | the log of a run begins with the log of every shorter run |
| ValueProfile.SingleBytesAreLoggedOnce | c_runtime/govfuzz_driver.c:338-340 | each one-byte token is logged at most once over a whole run |
| ValueProfile.SingleByteIsLoggedExactly | c_runtime/govfuzz_driver.c:338-355 | behind any run a byte other than 0 is logged, with its length 1, if and only if it was never added before and there is room |
| ValueProfile.LogIsHistory | c_runtime/govfuzz_driver.c:333-356 | after any run the log is the one told by the tokens added alone: in order, each token of one to eight bytes not all 0 that was not known and fits into 65536 bytes, with its length |
| ValueProfile.HashIsFingerprint | c_runtime/govfuzz_driver.c:342-344 | the hash folds the bytes in from the first to the last, and then the length |
| ValueProfile.SlotIsModulo | c_runtime/govfuzz_driver.c:345 | the slot is the hash modulo 4096 |
| ValueProfile.MapHoldsLog | c_runtime/govfuzz_driver.c:317-355 | a map laid out as a four-byte cursor, a log and anything behind it gives that log |
| ValueProfile.AddingAgainChangesNothing | c_runtime/govfuzz_driver.c:338-348 | adding the token just added changes nothing, even when it did not fit |
| ValueProfile.SlotsHoldLastHash | c_runtime/govfuzz_driver.c:345-347 | after any run a slot holds the hash of the last longer token that fell into it |
| ValueProfile.LongerTokenIsLoggedExactly | c_runtime/govfuzz_driver.c:341-355 | a longer token is logged if and only if the last hash in its slot is not its own and there is room |
| ValueProfile.TakingTurns | c_runtime/govfuzz_driver.c:345-347 | two longer tokens that share a slot and take any number of turns are all logged if and only if the map has room for them all |
| ValueProfile.LongerTokensCanRepeat | c_runtime/govfuzz_driver.c:320-321 | two such tokens: one of them is logged twice |
| CmpLog.SharedRing.PushPair | c_runtime/govfuzz_driver.c:266-285 | one push appends the operands, cut to 32 bytes, unless 2048 records are there; earlier records and the armed word stay |
| CmpLog.PushAll | c_runtime/govfuzz_driver.c:266-285 | pushing any pairs one by one into an empty map ends in the ring that the statements over whole runs speak of |
| CmpLog.SharedRing.CmpInt | c_runtime/govfuzz_driver.c:286-297 | logs the little-endian operands when armed, unequal and both non-zero, and changes nothing else |
| CmpLog.AppendedRecord | c_runtime/govfuzz_driver.c:274-284 | a record and a count written leave all earlier records and one more |
| CmpLog.RingHoldsFirstPushes | c_runtime/govfuzz_driver.c:266-285 | after any pushes the ring holds exactly the first 2048, in order, each operand cut to its first 32 bytes, and the armed word is untouched |
| CmpLog.MapHoldsRing | c_runtime/govfuzz_driver.c:238-284 | a map laid out as an armed word, a count, records of 66 bytes and anything behind them gives that ring |
| CmpLog.OperandIsReadBack | c_runtime/govfuzz_driver.c:292-295 | a logged integer is read back modulo its width |
| FramedDriver.ReadN | c_runtime/govfuzz_driver.c:456-465 | under any short reads it delivers exactly the next n bytes, or fails only at a failure or the end |
| FramedDriver.ReadFrame | c_runtime/govfuzz_driver.c:506-510 | delivers the next frame, clamped to the cap, or finds no whole one |
| FramedDriver.ExchangeAlternates | c_runtime/govfuzz_driver.c:508-514 | each input is run once and acknowledged at once, in the order sent |
| FramedDriver.Serve | c_runtime/govfuzz_driver.c:502-518 | one ready byte, then each decoded input is run and acknowledged in order; only a failed read or write stops it early, and at most one run lacks its sync byte |
| FramedDriver.FramesThenCutFrame | c_runtime/govfuzz_driver.c:506-514 | all inputs sent within the cap come out in order, and a truncated last frame does not |
| FramedDriver.CutFrameIsDropped | c_runtime/govfuzz_driver.c:508-510 | a frame, of whatever length, cut anywhere before its last byte within the cap yields nothing |
| FramedDriver.FirstFrame | c_runtime/govfuzz_driver.c:509-511 | a long frame is cut at the cap and its remainder is taken for more frames |
| FramedDriver.TransparentExactlyWithinCap | c_runtime/govfuzz_driver.c:509-511 | what comes out is what was sent if and only if every input is within the cap |
| ControlChannel.RawIsLittleEndian | c_runtime/govfuzz_decode.h:126-129 | or-ing the shifted bytes gives the little-endian word |
| ControlChannel.BoundedIsInRange | c_runtime/govfuzz_decode.h:107-131 | every bounded value lies in its range, wherever the source defines one |
| ControlChannel.BoundedIsModulo | c_runtime/govfuzz_decode.h:126-130 | with a selector not divisible by four the value lies in the range and is whole ranges away from the word behind the selector |
| ControlChannel.OpIsModulo | c_runtime/govfuzz_decode.h:133-140 | an operation is the word of its five-byte slot modulo the number of operations, or one of two boundaries of it |
| ControlChannel.StepCountIsModulo | c_runtime/govfuzz_decode.h:92-96 | the number of steps is the first byte of the block modulo one more than the most steps |
| ControlChannel.BoundariesReached | c_runtime/govfuzz_decode.h:114-125 | a selector divisible by four gives the value below the greatest when it leaves 8 modulo 12, and the least otherwise; the greatest is never a boundary |
| ControlChannel.TailDecidesProgram | c_runtime/govfuzz_decode.h:92-140 | step count and operations depend on the control block only, whatever stands in front and however long |
| ControlChannel.SlotDecidesItsOpOnly | c_runtime/govfuzz_decode.h:133-140 | changing one slot changes no other operation and not the count |
| ControlChannel.ProgramRoundTrip | c_runtime/govfuzz_decode.h:92-140 | an encoded program of at most 255 operations is read back behind any arguments |
| OpProgram.ArgumentsAndProgramAreSeparate | c_runtime/govfuzz_decode.h:78-90 | argument edits, length included, leave the program alone; program edits leave every argument read alone; no read reaches the control block |
| OpProgram.ShortInputIsAllArguments | c_runtime/govfuzz_decode.h:78-87 | an input with no room for arguments in front of a control block is all arguments |
| OpProgram.BareControlBlockIsReadTwice | c_runtime/govfuzz_decode.h:87-94 | at size equal to the control length the count byte is also the first argument |
| Cursors.CCursor.OpenData | c_runtime/govfuzz_decode.h:84-90 | the cursor ends before the control block when there is room for arguments |
| Cursors.CCursor.U8 | c_runtime/govfuzz_decode.h:142-145 | the next byte, or 0 at the end |
| Cursors.CCursor.I32 | c_runtime/govfuzz_decode.h:147-154 | the or-loop gives the signed word of the next up to four bytes |
| Cursors.CCursor.I64 | c_runtime/govfuzz_decode.h:156-163 | the same with eight bytes |
| Cursors.CCursor.BoundedI32 | c_runtime/govfuzz_decode.h:165-170 | reads four bytes in any case; over a non-empty range the value lies in it |
| Cursors.CCursor.BoundedLength | c_runtime/govfuzz_decode.h:172-177 | the same with eight bytes |
| Cursors.CCursor.CString | c_runtime/govfuzz_decode.h:184-201 | a sixteen-bit length cut to the limit and to what is left, and that many bytes |
| Cursors.CCursor.DataSlice | c_runtime/govfuzz_decode.h:311-315 | the rest of the input |
| Cursors.PyCursor.Take | python_runtime/govfuzz_decode.py:30-36 | the next bytes, zero filled to the length asked for, and the position moved over what was there |
| Cursors.PaddedIsNext | python_runtime/govfuzz_decode.py:30-36 | the padded word Python unpacks has the value of the bytes left, as C reads it |
| Cursors.PyCursor.I32 | python_runtime/govfuzz_decode.py:38-39 | the signed word of the next up to four bytes |
| Cursors.PyCursor.I64 | python_runtime/govfuzz_decode.py:44-45 | the signed word of the next up to eight bytes |
| Cursors.PyCursor.BoundedI32 | python_runtime/govfuzz_decode.py:53-56 | reads nothing over an empty range |
| Cursors.RunIgnoresControlTail | c_runtime/govfuzz_decode.h:142-201 | every run of reads stays in front of the control block and ignores what it holds |
| Cursors.PythonMirrorsC | python_runtime/govfuzz_decode.py:22-55 | over any input, byte, word, rest and bounded-number calls over non-empty ranges that C defines return the same values and stop at the same place |
| Cursors.BoundedAgreesExactly | python_runtime/govfuzz_decode.py:53-56 | on a bounded number they agree if and only if C defines the call, and the range is not empty or nothing is left |
| Cursors.LengthAgreesExactly | python_runtime/govfuzz_decode.py:57-58 | on a bounded length they agree if and only if C defines the call, and nothing is left, or the range is not empty and at most four bytes are left |
| Cursors.StepsAgreeExactly | python_runtime/govfuzz_decode.py:22-66 | for `u8`, `i32`, `i64`, bounded numbers, bounded lengths and the rest of the input, the exact inputs on which both cursors answer alike and move alike |
| Cursors.SharedRunsAgree | python_runtime/govfuzz_decode.py:22-66 | a run whose calls are each shared where they are made returns the same values and stops at the same place |
| CursorValues.I32IsReadBack | c_runtime/govfuzz_decode.h:147-154 | a signed word stored in two's complement, least significant byte first, is read back |
| CursorValues.I64IsReadBack | c_runtime/govfuzz_decode.h:156-163 | the same with eight bytes |
| CursorValues.ShortWordIsFilled | c_runtime/govfuzz_decode.h:147-163 | bytes missing at the end count as zeros |
| CursorValues.BoundedIsModulo | c_runtime/govfuzz_decode.h:165-170 | over every range that C defines the number lies in it, whole ranges away from the word ahead; over an empty one it is the least |
| CursorValues.LengthIsModulo | c_runtime/govfuzz_decode.h:172-177 | the same for a length, over eight bytes |
| CursorValues.PyBoundedIsModulo | python_runtime/govfuzz_decode.py:53-58 | the same for Python's number over a range of any width; over an empty one nothing is read |
| CursorValues.StringIsReadBack | c_runtime/govfuzz_decode.h:184-201 | a string is as long as its two length bytes say, at most the limit, and no longer than what is left |
| JsonRpc.ReadHeaderLines | editors/gnatstudio/govfuzz_gnatstudio_core.py:111-118 | collects the lines up to the blank one, or fails at the end |
| JsonRpc.FindContentLength | editors/gnatstudio/govfuzz_gnatstudio_core.py:120-127 | the first content-length field decides, whatever its case |
| JsonRpc.ReadFrame | editors/gnatstudio/govfuzz_gnatstudio_core.py:110-135 | returns the specified object or error and leaves the stream at the specified place, for any JSON codec |
| JsonRpc.PrintedIntIsRead | editors/gnatstudio/govfuzz_gnatstudio_core.py:124 | a printed length, with its space and line end, is read back |
| JsonRpc.FrameIsRead | editors/gnatstudio/govfuzz_gnatstudio_core.py:104-107 | an encoded frame is read back whole, whatever bytes its body holds |
| JsonRpc.MessagesRoundTrip | editors/gnatstudio/govfuzz_gnatstudio_core.py:104-135 | every list of objects that the codec reads back comes through the frames in order, one call each, and exactly the remainder is left |
| JsonRpc.FramesRoundTrip | editors/gnatstudio/govfuzz_gnatstudio_core.py:104-135 | one call per encoded body returns the bodies in order and leaves exactly the remainder |
| JsonRpcHeaders.FirstLengthDecides | editors/gnatstudio/govfuzz_gnatstudio_core.py:110-130 | whatever fields stand in front of the content length, and whatever lines behind it, before a blank line of either kind: its name is read in any case, and its value decides what of the rest is the body |
| JsonRpcHeaders.UnendedHeadersFail | editors/gnatstudio/govfuzz_gnatstudio_core.py:112-115 | without a blank line the headers are cut short and the stream is read to its end |
| JsonRpcHeaders.MissingLengthFails | editors/gnatstudio/govfuzz_gnatstudio_core.py:126-127 | without a content length there is no frame; the stream is left behind the blank line |
| JsonRpcHeaders.NotAsciiFails | editors/gnatstudio/govfuzz_gnatstudio_core.py:122 | nor with a line that is not ASCII in front of it |
| JsonRpcHeaders.IsLengthNameExactly | editors/gnatstudio/govfuzz_gnatstudio_core.py:123 | a name matches if and only if each letter is that of `content-length` in either case |
| JsonRpcHeaders.GroupedIntIsRead | editors/gnatstudio/govfuzz_gnatstudio_core.py:124 | a number may stand between ASCII whitespace, carry a sign and have single underscores between its digits |
| JsonRpcHeaders.OtherTextIsNoInt | editors/gnatstudio/govfuzz_gnatstudio_core.py:124 | any other character, and an underscore beside none or two digits, makes it no number |
| NearestRank.PercentileCapDuality | scripts/validation/legacy-breakage-matrix.py:631-636 | the percentile is within a cap if and only if the cap covers at least that share of the values |
| NearestRank.PercentileIsMember | scripts/validation/legacy-breakage-matrix.py:631-636 | the percentile is one of the values |
| NearestRank.PercentileIsMonotone | scripts/validation/legacy-breakage-matrix.py:631-636 | a greater percentile is never a smaller value |
| NearestRank.PercentileIgnoresOrder | scripts/validation/legacy-breakage-matrix.py:634 | the order of the values does not matter |
| NearestRank.SortSorts | scripts/validation/legacy-breakage-matrix.py:634 | sorting sorts and keeps every value |
| NearestRank.CapCurve | scripts/validation/legacy-breakage-matrix.py:650-659 | the loop computes the curve point of each cap |
| NearestRank.CurveShowsPercentile | scripts/validation/legacy-breakage-matrix.py:650-659 | a curve point reaches a share if and only if the percentile is within its cap |

## Left out

- Byte offsets of the lexer: positions are character offsets; `AdaTiling.ByteOffset` maps them to byte offsets, monotonically.
- The width of `u32` offsets, lines, columns and parenthesis depth: sources are taken to fit.
- One constructor per reserved word: `Keyword(word)` stands for all of them, one to one.
- AdaLayout.SpacedTextIsReadBack: a comment is followed by a newline and not by a space, since a space would belong to it.
- Dialect detection from hints and tokens, the tree-sitter grammar, `use` clauses, unit kinds and the other extractors of the Ada front end.
- GoBuildInfo.BuildInfoRoundTrip: the older pointer format is refused by the source and is only modelled as that refusal.
- ElfNotes.ElfBuildIdFromNotes: requires an area below 2^63 bytes, the most a slice can have, so that no offset overflows.
- The rest of the binary analysis: formats, strings, hardening bits, entropy, digests, directory walking.
- Host byte order: the cursor word of the value-profile log and the frame length are taken to be little-endian, as on every host the runtime is built for.
- Mapping shared memory, descriptors, `malloc`, signals and exception handlers; memory comparison hooks and progress maps of the runtime. A missing map, which makes every operation a no-op, is not modelled.
- The engine side of the shared maps and of the control channel (crates/cli/src/fuzz.rs is not part of this model); decoders written here stand for it.
- The optional portfolio byte of a control block: a block is one count byte and its slots.
- ControlChannel.BoundedIsInRange: a value modulo the full 32-bit range is excluded, since the source then divides by zero; a boundary of it is not.
- Cursors.CCursor.BoundedI32: requires that the range does not overflow a signed word, which is undefined in C; a run ends at a call that C leaves undefined.
- Cursors.CCursor.BoundedLength: requires that the bounds do not span every word, where the source divides by zero.
- Wide, output and format strings of the C decoder; floating point, booleans and text of the Python cursor.
- FramedDriver.Serve: an abstract channel decides how reads are cut and when reads and writes fail; crashes of the target are not modelled.
- JSON itself: a codec stands for writing it, reading it and telling objects apart. Python's limit on the digits of a number is left out.
- Floating-point rounding of percentiles and coverage: percentiles are fractions above 0 and at most 1.
