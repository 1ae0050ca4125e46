# Verified model of the console host's data handling

The project models, in Dafny, the parts of the terminal's code base that transform data:
the JSON reader and writers, the population count and the dynamic bitset, the configuration
reader of CLI11, the command line of the console host, the interval tree, the command
history popup and a bounded queue. Each part is an implementation in the form the source
has (objects with fields, loops over blocks and bytes) proved against an abstract
description, and the main results are about that description.

`dafny verify dfyconfig.toml` verifies everything.

- **JSON** (`Json*.dfy`). The lexer and the recursive reader are total functions; the class
  `OurReader` with cursor, node stack and error list is proved equal to them. `JsonSyntax`
  is the syntax apart from the reader: trees, their tokens and the values they mean. The
  reader accepts exactly the documents of that syntax, under every setting, with its own
  peculiarities written into it: a number may be a bare sign, after a comment any token
  separates two members, a brace may follow the comma behind an empty name. The writers
  append bytes; a text *spells* a list of tokens when it is their texts with white space
  between them. Printing and parsing compose to the identity exactly when the reader's
  settings admit the value. Doubles are opaque values of an environment.
- **Population count** (`BitCount`, `Swar`, `Simd`, `Simd512`, `HarleySeal`, `Popcnt`).
  Vectors are bit sequences, machine words are numbers with explicit wrap-around; processor
  features are parameters.
- **Bitset** (`BitBlock`, `Bitset*`, `DynamicBitset`). Blocks are numbers of any width; the
  abstract value is the concatenation of their bits. `Represents` is the consistency check.
- **Configuration** (`ConfigText`, `ConfigSections`). Section events are replayed on a path.
  They are well bracketed exactly when the text is balanced: every return to the default
  section from a section with more than one part is followed by a named section, before any
  item and before the end. The source documents no such condition; for other texts it leaves
  sections open.
- **Command line** (`Escape`, `ConsoleArguments`, `CommandlineParser`). Tokens are read as
  options and an ending. `Tokenise` follows the documented argument rules of
  `CommandLineToArgvW`. The number parsers of the C library are parameters.
- **Interval tree** (`IntervalTree`). Sorting is any permutation sorted by start; scalars are
  mathematical integers. The upper extent of the validity check is folded with a minimum, as
  in the source.
- **Popup** (`Short`, `CommandListPopup`). Indices are 16-bit and sums wrap. The selection
  stays in the window over all runs exactly for safe sizes: history and height together at
  most 32769, or a popup as high as the history.
- **Bounded queue** (`BoundedQueue`). Producers and consumers are a state machine over the
  steps of `Enqueue`; a run is any list of steps.

## Model

| member | source | states |
|---|---|---|
| `JsonRoundTrip.PrintFastAndParse` | dep/jsoncpp/jsoncpp.cpp:4435-4494 | A value printed by `FastWriter` and parsed by `OurReader` comes back (unsigned integers that fit as signed ones) if and only if the reader settings admit it; the parser throws if and only if the value nests deeper than the stack limit. |
| `JsonRoundTrip.PrintStyledAndParse` | dep/jsoncpp/jsoncpp.cpp:4988-5174 | The same for the styled stream writer, for any white space indentation and line ending. |
| `JsonRoundTrip.ParseSpelled` | dep/jsoncpp/jsoncpp.cpp:1241-1285 | The same for any text that spells the tokens of the value with white space between them. |
| `JsonRoundTrip.ParsePrintAndParse` | dep/jsoncpp/jsoncpp.cpp:1241-1285 | From the text side: a document that parses without errors to a value with no double, printed in any plain style with raw text and parsed again, gives the same value. |
| `JsonRoundTrip.ReadDocument` | dep/jsoncpp/jsoncpp.cpp:1241-1285 | The reader object accepts a document if and only if it holds an admissible tree, and the value is what the tree means, under every setting. |
| `JsonAccepted.ParseExact` | dep/jsoncpp/jsoncpp.cpp:1241-1285 | A document parses without errors to a value if and only if it lexes, comments skipped where the reader skips them, to the tokens of an admissible tree that means the value. |
| `JsonAccepted.FindNode` | dep/jsoncpp/jsoncpp.cpp:1287-1377 | Whatever is read without errors stands in the document as an admissible tree with that meaning, within the stack limit. |
| `JsonAccepted.FindNodes` | dep/jsoncpp/jsoncpp.cpp:1741-1781 | The same for the items of an array. |
| `JsonAccepted.FindEntries` | dep/jsoncpp/jsoncpp.cpp:1677-1739 | The same for the members of an object. |
| `JsonAccepted.FindMoreEntries` | dep/jsoncpp/jsoncpp.cpp:1724-1736 | What follows a member is a brace, a comma, or after a comment any token at all. |
| `JsonGrammar.NodeRead` | dep/jsoncpp/jsoncpp.cpp:1287-1377 | A document that lexes to the tokens of an admissible tree is read as what the tree means, or throws if the tree nests deeper than the stack limit. |
| `JsonGrammar.NodesRead` | dep/jsoncpp/jsoncpp.cpp:1741-1781 | The same for the remaining items of an array, trailing commas and missing items included. |
| `JsonGrammar.EntriesRead` | dep/jsoncpp/jsoncpp.cpp:1677-1739 | The same for the remaining members of an object, stored over those already there. |
| `JsonGrammar.ScalarExact` | dep/jsoncpp/jsoncpp.cpp:1309-1351 | A token is read as a scalar if and only if it means one. |
| `JsonGrammar.NameExact` | dep/jsoncpp/jsoncpp.cpp:1694-1704 | A token is a member name if and only if it is a string, or a number where the settings allow it. |
| `JsonSyntax.ObjectMeaning` | dep/jsoncpp/jsoncpp.cpp:3471-3487 | The object of a document is the one sorted member list that holds under every name the value of the last entry with that name, and nothing else. |
| `JsonSyntax.LookupLast` | dep/jsoncpp/jsoncpp.cpp:1717-1722 | Looking up a name after all members are stored, in any order and with repeated names, gives the last value under it. |
| `JsonSyntax.ArrayMeaning` | dep/jsoncpp/jsoncpp.cpp:1741-1781 | The array of a document holds the values of its items in their order. |
| `JsonDocument.LaidParses` | dep/jsoncpp/jsoncpp.cpp:1241-1285 | Any layout of a tree, white space anywhere and comments where they are skipped, parses to what the tree means if and only if depth and root are admitted; it throws if and only if it is too deep, and otherwise reports the root as the only error. |
| `JsonDocument.RoundTripExact` | dep/jsoncpp/jsoncpp.cpp:1241-1285 | The same for any text that spells the tokens of a value: it parses to the canonical form of the value. |
| `JsonDocument.TreeParses` | dep/jsoncpp/jsoncpp.cpp:1241-1285 | The same for a document that lexes to an admissible tree up to its end. |
| `JsonLayout.GapSkipped` | dep/jsoncpp/jsoncpp.cpp:1379-1387 | White space and comments change nothing where comments are skipped, and white space changes nothing anywhere. |
| `JsonLayout.LaidReads` | dep/jsoncpp/jsoncpp.cpp:1389-1498 | A laid out document lexes to exactly its tokens, with nothing behind them. |
| `JsonLayout.LineCommentEnd` | dep/jsoncpp/jsoncpp.cpp:1611-1625 | A line comment ends behind the first line end, a two-byte one included, or with the document. |
| `JsonLayout.BlockCommentEnd` | dep/jsoncpp/jsoncpp.cpp:1597-1609 | A block comment ends behind the first closing marker. |
| `JsonLayout.UnclosedComment` | dep/jsoncpp/jsoncpp.cpp:1597-1609 | A block comment that is not closed takes the rest of the document and passes if and only if that ends in a slash. |
| `JsonTokens.NodeMirrors` | dep/jsoncpp/jsoncpp.cpp:4443-4494 | The tokens of a printable value are those of an admissible tree of the same depth that means its canonical form. |
| `JsonText.ParsedTame` | dep/jsoncpp/jsoncpp.cpp:1241-1285 | Every document that parses without errors gives a value in canonical form that the settings admit, printable if it holds no double. |
| `JsonText.ReadTame` | dep/jsoncpp/jsoncpp.cpp:1287-1377 | A value read without errors has integers in range, sorted keys below 2^30 bytes and a depth within the stack limit. |
| `JsonText.PutTame` | dep/jsoncpp/jsoncpp.cpp:3471-3487 | Storing a tame value, new or not, leaves the members tame and sorted. |
| `JsonValue.PutFinds` | dep/jsoncpp/jsoncpp.cpp:3471-3487 | Looking up any name after storing gives the stored value for that name and what was there before for every other. |
| `JsonValue.PutSorted` | dep/jsoncpp/jsoncpp.cpp:3471-3487 | Storing keeps the names in order and keeps every other member. |
| `JsonValue.LookupDetermines` | dep/jsoncpp/jsoncpp.cpp:3471-3487 | A sorted member list is determined by its lookups. |
| `JsonDocument.TokensGood` | dep/jsoncpp/jsoncpp.cpp:4443-4494 | All tokens of a printable value have texts that lex as those tokens. |
| `JsonDocument.SameTokens` | dep/jsoncpp/jsoncpp.cpp:1389-1498 | Two texts that spell the same value lex to the same token sequence with only white space behind it. |
| `JsonSpelling.SpelledReads` | dep/jsoncpp/jsoncpp.cpp:1389-1498 | A spelled token list is lexed token by token to the end of the document. |
| `JsonSpelling.TokenLexes` | dep/jsoncpp/jsoncpp.cpp:1389-1498 | Each good token is recognised at its place with exactly its own extent, whatever follows. |
| `JsonSpelling.LexedText` | dep/jsoncpp/jsoncpp.cpp:1389-1498 | Conversely, whatever is lexed without error has the text of its token, behind white space only. |
| `JsonSpelling.NumberLexes` | dep/jsoncpp/jsoncpp.cpp:1627-1652 | A digit or sign with digits, fraction and exponent, any of them empty, is one number token unless the next byte continues it. |
| `JsonSpelling.ScannedString` | dep/jsoncpp/jsoncpp.cpp:1653-1675 | A string ends at the first quote of its kind that no backslash escapes. |
| `JsonSpelling.QuoteText` | dep/jsoncpp/jsoncpp.cpp:4337-4412 | Every quoted string lexes as one string token, whatever bytes it came from. |
| `JsonSpelling.IntegerText` | dep/jsoncpp/jsoncpp.cpp:156-173 | Every printed integer lexes as one number token. |
| `JsonFastWriter.FastTextSpells` | dep/jsoncpp/jsoncpp.cpp:4443-4494 | `FastWriter` output spells the tokens of the value, for both colon styles. |
| `JsonFastWriter.FastTextDense` | dep/jsoncpp/jsoncpp.cpp:4443-4494 | The output is the texts of the tokens with nothing between them, but for the space behind a colon that the option asks for. |
| `JsonFastWriter.FastDocumentSpells` | dep/jsoncpp/jsoncpp.cpp:4435-4441 | The same with or without the ending line feed. |
| `JsonFastWriter.FastWriter.Write` | dep/jsoncpp/jsoncpp.cpp:4435-4441 | Leaves the document equal to the text of the value and the ending line feed. |
| `JsonFastWriter.FastWriter.WriteValue` | dep/jsoncpp/jsoncpp.cpp:4443-4494 | Appends exactly the text of the value to the document. |
| `JsonFastWriter.FastWriter.WriteArray` | dep/jsoncpp/jsoncpp.cpp:4470-4479 | Appends the bracketed items, commas between them. |
| `JsonFastWriter.FastWriter.WriteObject` | dep/jsoncpp/jsoncpp.cpp:4480-4492 | Appends the members in member-name order. |
| `JsonStyledWriter.StyledWriter.Write` | dep/jsoncpp/jsoncpp.cpp:4988-5002 | The stream holds the layout of the value at no indentation and the ending; a second write starts afresh. |
| `JsonStyledWriter.StyledWriter.WriteValue` | dep/jsoncpp/jsoncpp.cpp:5003-5064 | Appends exactly the layout of the value at the current indentation, or collects its text as a child; indentation and collected children are as before. |
| `JsonStyledWriter.StyledWriter.WriteObject` | dep/jsoncpp/jsoncpp.cpp:5036-5062 | Appends brace, members, each on its line one step further in, and brace. |
| `JsonStyledWriter.StyledWriter.WriteArrayValue` | dep/jsoncpp/jsoncpp.cpp:5066-5114 | Appends the array on one line or on many, as its contents decide; the assertion on the number of children holds. |
| `JsonStyledWriter.StyledWriter.IsMultilineArray` | dep/jsoncpp/jsoncpp.cpp:5116-5141 | Says which arrays go on several lines: many items, an item that is a container with contents, or too long a line; one text per item is collected unless it was decided before, and nothing is written. |
| `JsonStyledWriter.StyledWriter.RenderChildren` | dep/jsoncpp/jsoncpp.cpp:5125-5139 | Collects the text of each item in order and measures the line they make. |
| `JsonStyledWriter.StyledWriter.WriteSingleLine` | dep/jsoncpp/jsoncpp.cpp:5098-5113 | Appends the collected texts between brackets, separated by commas, on one line. |
| `JsonStyledWriter.StyledWriter.WriteMultiline` | dep/jsoncpp/jsoncpp.cpp:5072-5097 | Appends each item on its own line one step further in, from the collected texts or afresh. |
| `JsonStyledWriter.StyledSpells` | dep/jsoncpp/jsoncpp.cpp:5003-5174 | Whatever the layout, the text of a printable value spells its tokens. |
| `JsonStyledWriter.OneLineFits` | dep/jsoncpp/jsoncpp.cpp:5125-5141 | The length that decides the layout is that of the line: an array on one line is shorter than the right margin. |
| `JsonStyledWriter.SingleLine` | dep/jsoncpp/jsoncpp.cpp:5098-5113 | An array that is not put on several lines holds no line feed. |
| `JsonStyledWriter.ItemLine` | dep/jsoncpp/jsoncpp.cpp:5076-5095 | Every item of an array on several lines begins a line behind the indentation. |
| `JsonStyledWriter.MemberLine` | dep/jsoncpp/jsoncpp.cpp:5043-5058 | Every member of an object begins a line with its name behind the indentation. |
| `JsonStyledWriter.StyledLikeFast` | dep/jsoncpp/jsoncpp.cpp:5003-5174 | Styled and fast output of a value lex to the same tokens in the same order. |
| `JsonReader.Parse` | dep/jsoncpp/jsoncpp.cpp:1241-1285 | Total on every document and feature setting; unless it throws it succeeds if and only if there is no error, and reports at most two, placed in the document. |
| `JsonReader.ReadValue` | dep/jsoncpp/jsoncpp.cpp:1287-1377 | Total; the cursor stays in the document and moves on; it succeeds, or reports exactly one error placed between start and end of the document. |
| `JsonReader.ReadItems` | dep/jsoncpp/jsoncpp.cpp:1741-1781 | The same for the items of an array, including recovery. |
| `JsonReader.ReadMembers` | dep/jsoncpp/jsoncpp.cpp:1677-1739 | The same for the members of an object, including recovery. |
| `JsonReader.ReadMember` | dep/jsoncpp/jsoncpp.cpp:1677-1739 | The same for one member after its name. |
| `JsonReader.ReadMemberEnd` | dep/jsoncpp/jsoncpp.cpp:1724-1736 | The same for what follows a member; after a comment any token passes as the separator. |
| `JsonReader.ReadItemEnd` | dep/jsoncpp/jsoncpp.cpp:1765-1779 | The same for what follows an item. |
| `JsonOurReader.OurReader.Parse` | dep/jsoncpp/jsoncpp.cpp:1241-1285 | The reader object does what the parsing function says; cursor within the document, stack empty, accepted if and only if no errors are left. |
| `JsonOurReader.OurReader.FinishDocument` | dep/jsoncpp/jsoncpp.cpp:1264-1284 | Trailing text and a root that is no container are reported once, in that order. |
| `JsonOurReader.OurReader.ReadValue` | dep/jsoncpp/jsoncpp.cpp:1287-1377 | Ends with the node stack as deep as it was, the top replaced by the value read. |
| `JsonOurReader.OurReader.ReadArray` | dep/jsoncpp/jsoncpp.cpp:1741-1781 | The in-place loop over items equals the reading function. |
| `JsonOurReader.OurReader.ReadItem` | dep/jsoncpp/jsoncpp.cpp:1758-1778 | One round of that loop, error recovery included. |
| `JsonOurReader.OurReader.ReadObject` | dep/jsoncpp/jsoncpp.cpp:1677-1739 | The in-place loop over members equals the reading function. |
| `JsonOurReader.OurReader.ReadNamed` | dep/jsoncpp/jsoncpp.cpp:1693-1716 | Name, length limit, duplicate check and colon of a member. |
| `JsonOurReader.OurReader.ReadMemberValue` | dep/jsoncpp/jsoncpp.cpp:1717-1735 | Value and separator of a member, error recovery included. |
| `JsonOurReader.OurReader.EndMember` | dep/jsoncpp/jsoncpp.cpp:1724-1736 | What follows a stored member, error recovery included. |
| `JsonOurReader.OurReader.EndItem` | dep/jsoncpp/jsoncpp.cpp:1765-1779 | What follows a stored item, error recovery included. |
| `JsonOurReader.OurReader.ReadChild` | dep/jsoncpp/jsoncpp.cpp:1717-1722 | A child value is read on a pushed node and stored in its parent when the node is popped. |
| `JsonOurReader.OurReader.RecoverFromError` | dep/jsoncpp/jsoncpp.cpp:2019-2030 | Skips tokens up to the one asked for or the end, and drops errors added on the way. |
| `JsonOurReader.OurReader.AddErrorAndRecover` | dep/jsoncpp/jsoncpp.cpp:2032-2036 | Adds exactly one error and recovers. |
| `JsonOurReader.OurReader.SkipCommentTokens` | dep/jsoncpp/jsoncpp.cpp:1379-1387 | Gives the next token that is no comment if comments are allowed. |
| `JsonOurReader.OurReader.ReadToken` | dep/jsoncpp/jsoncpp.cpp:1389-1498 | Gives the token the lexer function finds and leaves the cursor at its end. |
| `JsonOurReader.OurReader.ReadNumber` | dep/jsoncpp/jsoncpp.cpp:1627-1652 | Stops at the end of the longest digits, fraction and exponent. |
| `JsonOurReader.OurReader.ReadString` | dep/jsoncpp/jsoncpp.cpp:1653-1663 | Stops behind the closing quote, or at the end of the document and fails. |
| `JsonOurReader.OurReader.ReadComment` | dep/jsoncpp/jsoncpp.cpp:1531-1563 | Finds the end of a comment of either style. |
| `JsonOurReader.OurReader.ReadCStyleComment` | dep/jsoncpp/jsoncpp.cpp:1597-1609 | Stops behind the first closing marker, or fails at the end. |
| `JsonOurReader.OurReader.ReadCppStyleComment` | dep/jsoncpp/jsoncpp.cpp:1611-1625 | Stops behind the first line end, a two-byte one included. |
| `JsonOurReader.OurReader.MatchWord` | dep/jsoncpp/jsoncpp.cpp:1520-1529 | Consumes a word if it is there and nothing otherwise. |
| `JsonOurReader.OurReader.SkipSpaces` | dep/jsoncpp/jsoncpp.cpp:1500-1508 | Stops at the first byte that is no white space. |
| `JsonOurReader.OurReader.GetNextChar` | dep/jsoncpp/jsoncpp.cpp:2040-2044 | Gives the next byte, or zero at the end without moving. |
| `JsonOurReader.OurReader.DecodeNumber` | dep/jsoncpp/jsoncpp.cpp:1793-1871 | Stores the number of the token, exact or through the double path. |
| `JsonLexer.Lex` | dep/jsoncpp/jsoncpp.cpp:1389-1498 | The token lies in the document; only the end of the document gives an empty one. |
| `JsonLexer.LexValueStart` | dep/jsoncpp/jsoncpp.cpp:1379-1387 | The same behind comments. |
| `JsonLexer.RecoverEnd` | dep/jsoncpp/jsoncpp.cpp:2019-2030 | Recovery terminates within the document. |
| `JsonLexer.ScanString` | dep/jsoncpp/jsoncpp.cpp:1653-1675 | Terminates within the document; success consumes at least the quote. |
| `JsonValue.PutLast` | dep/jsoncpp/jsoncpp.cpp:3471-3487 | A key above all others is added at the end. |
| `JsonValue.KeyLessAsymmetric` | dep/jsoncpp/jsoncpp.cpp:2709-2724 | The order of member names is asymmetric. |
| `JsonString.StringRoundTrip` | dep/jsoncpp/jsoncpp.cpp:4337-4412 | A quoted byte string decodes to itself if and only if it is emitted raw or is valid UTF-8. |
| `JsonString.DecodeExact` | dep/jsoncpp/jsoncpp.cpp:1906-2008 | A string body decodes to a text if and only if it is made of raw bytes, the eight letter escapes, four-digit escapes in either case and pairs of them, whose meanings make the text (section 7 of RFC 8259). |
| `JsonString.PartsDecode` | dep/jsoncpp/jsoncpp.cpp:1906-2008 | Any sequence of such parts decodes to the concatenation of their meanings, whatever follows. |
| `JsonString.Hex4Exact` | dep/jsoncpp/jsoncpp.cpp:1984-2008 | Four characters decode to a number if and only if each is one of the 22 hexadecimal digits, and then to the number these denote. |
| `JsonString.PairDecodes` | dep/jsoncpp/jsoncpp.cpp:1959-1982 | Each pair of escapes decodes to its supplementary code point, whatever follows. |
| `JsonString.QuotedPlain` | dep/jsoncpp/jsoncpp.cpp:4337-4412 | Quoted text holds no control characters, and is ASCII unless raw text is asked for. |
| `JsonString.QuotedParts` | dep/jsoncpp/jsoncpp.cpp:4337-4412 | What is quoted is a string literal with the meaning of what was read. |
| `JsonString.QuotedDecodes` | dep/jsoncpp/jsoncpp.cpp:1906-2008 | What any quoted byte string decodes to, raw or through its code points. |
| `JsonString.DecodeString` | dep/jsoncpp/jsoncpp.cpp:1906-1957 | The decoding loop equals the decoding function, failures and their places included. |
| `JsonString.DecodeCodePoint` | dep/jsoncpp/jsoncpp.cpp:1959-2008 | Code points and surrogate pairs stay in the Unicode range and within the text. |
| `JsonString.HexRoundTrip` | dep/jsoncpp/jsoncpp.cpp:4318-4327 | The four digits printed for a number denote it. |
| `JsonString.ValueToQuotedString` | dep/jsoncpp/jsoncpp.cpp:4337-4412 | The quoting routine, with its shortcut for plain text, equals the quoting function. |
| `JsonString.EscapeLoop` | dep/jsoncpp/jsoncpp.cpp:4352-4411 | The escaping loop equals the quoting function. |
| `JsonString.PlainText` | dep/jsoncpp/jsoncpp.cpp:4242-4248 | Text that needs no escaping is quoted as it is. |
| `JsonNumber.DecodeNumberLoop` | dep/jsoncpp/jsoncpp.cpp:1793-1871 | The loop on 64-bit arithmetic never overflows; a minus sign and digits decode to the exact value if and only if it fits, and everything else takes the double path. |
| `JsonNumber.PastThreshold` | dep/jsoncpp/jsoncpp.cpp:1840-1857 | Digits past the threshold test mean a value past the limit. |
| `JsonNumber.TooLarge` | dep/jsoncpp/jsoncpp.cpp:1840-1857 | Leaving the loop at the threshold is the double path. |
| `JsonNumber.IntegerRoundTrip` | dep/jsoncpp/jsoncpp.cpp:4156-4178 | Every 64-bit integer printed and decoded comes back, signed if it fits. |
| `JsonNumber.UintToString` | dep/jsoncpp/jsoncpp.cpp:156-173 | Fills the buffer from the end with the decimal digits and a zero byte, and touches nothing else. |
| `JsonNumber.UintLength` | dep/jsoncpp/jsoncpp.cpp:156-157 | No 64-bit number has more than twenty digits, so the buffer suffices. |
| `JsonNumber.ValueToStringSigned` | dep/jsoncpp/jsoncpp.cpp:4156-4171 | Prints every signed 64-bit integer, the smallest included. |
| `JsonNumber.ValueToStringUnsigned` | dep/jsoncpp/jsoncpp.cpp:4172-4178 | Prints every unsigned 64-bit integer. |
| `JsonUtf8.ReencodeExact` | dep/jsoncpp/jsoncpp.cpp:4250-4299 | Decoding and encoding a byte string is the identity if and only if it is valid UTF-8 (section 4 of RFC 3629). |
| `JsonUtf8.ValidIsReencoded` | dep/jsoncpp/jsoncpp.cpp:4250-4299 | Valid UTF-8 survives decoding and encoding. |
| `JsonUtf8.CharRoundTrip` | dep/jsoncpp/jsoncpp.cpp:4250-4299 | A well-formed character decodes to a scalar value of its own length that encodes to it. |
| `JsonUtf8.EncodedIsChar` | dep/jsoncpp/jsoncpp.cpp:125-151 | An encoded scalar value is one well-formed character. |
| `JsonUtf8.EncodedDigits` | dep/jsoncpp/jsoncpp.cpp:125-151 | The six-bit digits of a code point, surrogates included, are spread over the bytes as the table in section 3 of RFC 3629 says. |
| `JsonUtf8.EncodedIsValid` | dep/jsoncpp/jsoncpp.cpp:125-151 | Encoded scalar values are valid UTF-8. |
| `Popcnt.Popcnt` | oss/libpopcnt/libpopcnt.h:559-660 | For every size and every processor flag the result is the number of one bits of all bytes modulo 2^64, and exact below 2^61 bytes. |
| `Popcnt.VectorPaths` | oss/libpopcnt/libpopcnt.h:590-618 | The vector paths leave the count of the bytes they covered. |
| `Popcnt.VectorPath` | oss/libpopcnt/libpopcnt.h:598-602 | One vector path takes all whole vectors from an aligned position on. |
| `Popcnt.WordLoop` | oss/libpopcnt/libpopcnt.h:632-648 | The word loop counts up to the last whole word, with or without the instruction. |
| `Popcnt.ByteLoop` | oss/libpopcnt/libpopcnt.h:634-635 | The byte loop counts the rest. |
| `Popcnt.CountWord` | oss/libpopcnt/libpopcnt.h:647-656 | The bits of up to eight bytes loaded as one word. |
| `HarleySeal.PopcntVectors` | oss/libpopcnt/libpopcnt.h:397-447 | The Harley-Seal loop returns the bits of all vectors modulo 2^64, for 256-bit and 512-bit vectors. |
| `HarleySeal.MainLoop` | oss/libpopcnt/libpopcnt.h:407-432 | On every round: bits seen = 16 count + 8 eights + 4 fours + 2 twos + ones. |
| `HarleySeal.SixteenVectors` | oss/libpopcnt/libpopcnt.h:413-427 | Sixteen vectors are folded into the accumulators without losing a bit. |
| `HarleySeal.CarrySave` | oss/libpopcnt/libpopcnt.h:352-357 | One carry-save step keeps the weighted bit count. |
| `HarleySeal.Accumulate` | oss/libpopcnt/libpopcnt.h:432-439 | Adding a scaled vector count to the lanes, the carry out of 64 bits accounted for. |
| `Simd.CsaCounts` | oss/libpopcnt/libpopcnt.h:352-357 | Both forms of the carry-save adder count twice the high word and once the low one. |
| `Simd.TernaryTables` | oss/libpopcnt/libpopcnt.h:477-481 | The two ternary-logic constants are majority and parity. |
| `Simd.Popcnt256Counts` | oss/libpopcnt/libpopcnt.h:362-385 | The table look-up counts the bits of a 256-bit vector. |
| `Simd512.Popcnt512Counts` | oss/libpopcnt/libpopcnt.h:458-472 | The parallel additions count the bits of a 512-bit vector. |
| `Simd512.Lane512IsPop` | oss/libpopcnt/libpopcnt.h:458-472 | In each 16-bit lane the masks and shifts leave its bit count. |
| `Swar.Popcount64IsPop` | oss/libpopcnt/libpopcnt.h:152-164 | The multiplication trick counts the bits of every 64-bit word. |
| `DynamicBitset.Bitset.ShiftLeft` | oss/dynamic_bitset/dynamic_bitset.hpp:778-794 | For every size and amount the bits move up with zeros coming in, and unused bits stay zero. |
| `DynamicBitset.Bitset.ShiftRight` | oss/dynamic_bitset/dynamic_bitset.hpp:797-812 | For every size and amount the bits move down with zeros coming in, and unused bits stay zero. |
| `DynamicBitset.Bitset.ApplyLeftShift` | oss/dynamic_bitset/dynamic_bitset.hpp:1711-1743 | Shifting blocks in place from the top equals the shifted block vector. |
| `DynamicBitset.Bitset.ApplyRightShift` | oss/dynamic_bitset/dynamic_bitset.hpp:1746-1780 | Shifting blocks in place from the bottom equals the shifted block vector. |
| `BitsetShift.LeftShift` | oss/dynamic_bitset/dynamic_bitset.hpp:778-794 | The shifted and sanitised blocks represent the shifted bits. |
| `BitsetShift.RightShift` | oss/dynamic_bitset/dynamic_bitset.hpp:797-812 | The shifted blocks represent the shifted bits without sanitising. |
| `BitsetShift.SanitizedRepresents` | oss/dynamic_bitset/dynamic_bitset.hpp:1783-1790 | Clearing the unused bits restores consistency and changes no used bit. |
| `BitsetBlocks.SpillUpBits` | oss/dynamic_bitset/dynamic_bitset.hpp:1729-1736 | Spilling bits into the next block is a shift of the concatenated bits. |
| `BitsetBlocks.SpillDownBits` | oss/dynamic_bitset/dynamic_bitset.hpp:1765-1772 | Spilling bits into the block below is a shift of the concatenated bits. |
| `BitsetBlocks.StoredOnce` | oss/dynamic_bitset/dynamic_bitset.hpp:1804-1813 | A bit sequence has only one consistent representation. |
| `DynamicBitset.Bitset.Sanitize` | oss/dynamic_bitset/dynamic_bitset.hpp:1783-1790 | Clears exactly the unused bits. |
| `DynamicBitset.Bitset.Resize` | oss/dynamic_bitset/dynamic_bitset.hpp:570-599 | Truncates, or extends with the value, for any two sizes. |
| `DynamicBitset.Bitset.Clear` | oss/dynamic_bitset/dynamic_bitset.hpp:602-606 | Leaves the empty sequence. |
| `DynamicBitset.Bitset.PushBack` | oss/dynamic_bitset/dynamic_bitset.hpp:609-625 | Appends one bit. |
| `DynamicBitset.Bitset.PopBack` | oss/dynamic_bitset/dynamic_bitset.hpp:628-647 | Drops the last bit, or does nothing on an empty bitset. |
| `DynamicBitset.Bitset.AppendBlock` | oss/dynamic_bitset/dynamic_bitset.hpp:650-665 | Appends the bits of a block at any alignment. |
| `DynamicBitset.Bitset.AppendRange` | oss/dynamic_bitset/dynamic_bitset.hpp:680-724 | Appends the bits of all blocks of a range at any alignment. |
| `BitsetEdit.Grow` | oss/dynamic_bitset/dynamic_bitset.hpp:585-597 | New blocks, the filled old block and sanitising represent the extended bits. |
| `BitsetEdit.Shrink` | oss/dynamic_bitset/dynamic_bitset.hpp:581-597 | Dropped blocks and sanitising represent the truncated bits. |
| `BitsetEdit.PendingStep` | oss/dynamic_bitset/dynamic_bitset.hpp:709-716 | One block of an unaligned append, the carry block included. |
| `DynamicBitset.Bitset.Set` | oss/dynamic_bitset/dynamic_bitset.hpp:885-900 | Sets one bit and no other. |
| `DynamicBitset.Bitset.ChangeRange` | oss/dynamic_bitset/dynamic_bitset.hpp:837-974 | Assigns or flips exactly the bits of the range, for every range that the assertions let through. |
| `DynamicBitset.Bitset.ChangeBlocks` | oss/dynamic_bitset/dynamic_bitset.hpp:857-878 | Partial first and last blocks and full blocks between them. |
| `BitsetRange.RangeExact` | oss/dynamic_bitset/dynamic_bitset.hpp:837-974 | The block-wise change represents the changed range. |
| `BitsetRange.BitMaskBits` | oss/dynamic_bitset/dynamic_bitset.hpp:1453-1465 | The mask has ones from the first to the last bit index. |
| `BitsetRange.ChangedBlockBits` | oss/dynamic_bitset/dynamic_bitset.hpp:1468-1489 | Setting or flipping under the mask changes those bits only. |
| `DynamicBitset.Bitset.Reset` | oss/dynamic_bitset/dynamic_bitset.hpp:924-928 | All bits become zero. |
| `DynamicBitset.Bitset.FindFirst` | oss/dynamic_bitset/dynamic_bitset.hpp:1218-1228 | The lowest bit that is set, or none. |
| `DynamicBitset.Bitset.FindNext` | oss/dynamic_bitset/dynamic_bitset.hpp:1232-1259 | The lowest bit that is set after a position, or none. |
| `DynamicBitset.Bitset.IterateBitsOn` | oss/dynamic_bitset/dynamic_bitset.hpp:1307-1345 | Terminates and visits the set positions in order, up to the first at which the visitor stops. |
| `DynamicBitset.VisitedAll` | oss/dynamic_bitset/dynamic_bitset.hpp:1316-1325 | A visitor that never stops sees every position. |
| `BitsetQuery.PositionsExact` | oss/dynamic_bitset/dynamic_bitset.hpp:1307-1345 | The positions listed are those of set bits. |
| `BitsetQuery.PositionsAscend` | oss/dynamic_bitset/dynamic_bitset.hpp:1307-1345 | The positions are strictly increasing. |
| `BitsetQuery.PositionsCount` | oss/dynamic_bitset/dynamic_bitset.hpp:1068-1104 | There are as many positions as set bits. |
| `DynamicBitset.Bitset.CountBlocks` | oss/dynamic_bitset/dynamic_bitset.hpp:1068-1104 | The loop path counts the set bits. |
| `DynamicBitset.Bitset.CountInMemory` | oss/dynamic_bitset/dynamic_bitset.hpp:1076-1078 | The libpopcnt path counts the set bits, for every size in 64 bits and every processor flag. |
| `BitsetMemory.ImageCounts` | oss/dynamic_bitset/dynamic_bitset.hpp:1076-1078 | The bits of the block memory are those of the bitset. |
| `BitsetQuery.BlockCount` | oss/dynamic_bitset/dynamic_bitset.hpp:1493-1562 | The mask loop counts the set bits among the first of a block. |
| `BitsetQuery.FirstOn` | oss/dynamic_bitset/dynamic_bitset.hpp:1566-1617 | The mask loop finds the lowest set bit of a block that is not zero. |
| `DynamicBitset.Bitset.Equals` | oss/dynamic_bitset/dynamic_bitset.hpp:1348-1352 | Equal sizes and blocks if and only if equal bits. |
| `DynamicBitset.Bitset.LessThan` | oss/dynamic_bitset/dynamic_bitset.hpp:1355-1417 | Smaller if and only if the number, then the size, is smaller, for any two sizes. |
| `BitsetOrder.LessThan` | oss/dynamic_bitset/dynamic_bitset.hpp:1355-1417 | The same on block vectors, with all early exits. |
| `BitsetOrder.LessSizes` | oss/dynamic_bitset/dynamic_bitset.hpp:1393-1416 | The part for two sizes that differ. |
| `BitsetOrder.CompareDown` | oss/dynamic_bitset/dynamic_bitset.hpp:1373-1380 | The highest differing block decides the comparison of the numbers. |
| `BitsetOrder.StrictOrder` | oss/dynamic_bitset/dynamic_bitset.hpp:1348-1417 | Exactly one of smaller, equal and larger holds, and the order is transitive. |
| `DynamicBitset.Bitset.ToString` | oss/dynamic_bitset/dynamic_bitset.hpp:1278-1303 | One character per bit, the most significant first; reading the text gives the bits back if and only if the two characters differ or no bit is zero. |
| `DynamicBitset.Bitset.InitFromString` | oss/dynamic_bitset/dynamic_bitset.hpp:1621-1644 | The bits of the part of the text asked for; writing them gives that part back. |
| `ConfigSections.FromConfig` | dep/CLI11/CLI11.hpp:9162-9281 | For every text: unless an item is named like an event, keeps every entry of the text, found line by line, with its section, full name and values, in order; the section events are well bracketed if and only if the text is balanced. |
| `ConfigSections.CheckParentSegments` | dep/CLI11/CLI11.hpp:9100-9159 | From a path just closed, or from none, enters the new path by closing and opening one step at a time, with as few events as the shared start of the two paths allows. |
| `ConfigSections.Reenter` | dep/CLI11/CLI11.hpp:9104-9143 | Sections that stay open are not closed, a closing already written is taken back; the number of events is exact. |
| `ConfigSections.CloseDown` | dep/CLI11/CLI11.hpp:9107-9111 | Closes outer sections one by one down to a length. |
| `ConfigSections.OpenUp` | dep/CLI11/CLI11.hpp:9137-9152 | Opens each section on the way to the new one. |
| `ConfigSections.CommonParts` | dep/CLI11/CLI11.hpp:9115-9124 | The longest common start of two paths, up to a length. |
| `ConfigSections.TakeHeader` | dep/CLI11/CLI11.hpp:9180-9204 | A header line leaves the events in the state that the balance condition predicts. |
| `ConfigSections.TakeEntry` | dep/CLI11/CLI11.hpp:9253-9265 | An item line adds its values under its section and full name, joined to an equal item before it, and no event. |
| `ConfigSections.GivenKept` | dep/CLI11/CLI11.hpp:9253-9265 | The values that a text gives are its entries, found line by line, in order, each under its section and full name. |
| `ConfigSections.CloseAll` | dep/CLI11/CLI11.hpp:9267-9279 | At the end all sections are closed if and only if the text was balanced. |
| `ConfigSections.ModeBalanced` | dep/CLI11/CLI11.hpp:9173-9266 | The text is balanced, each return to the default section from a deeper one being followed by a named section before any item and the end, if and only if the run ends in order. |
| `ConfigSections.FateExact` | dep/CLI11/CLI11.hpp:9180-9204 | What becomes of each such return: still open, answered by a section, or broken by an item. |
| `ConfigSections.NoReturnBalanced` | dep/CLI11/CLI11.hpp:9162-9281 | A text that does not return to the default section after a named one is balanced. |
| `ConfigSections.ShallowBalanced` | dep/CLI11/CLI11.hpp:9162-9281 | A text whose sections have one part each is balanced. |
| `ConfigSections.UnbalancedExample` | dep/CLI11/CLI11.hpp:9195-9198 | A two-line text that is not balanced. |
| `ConfigText.SplitJoins` | dep/CLI11/CLI11.hpp:171-189 | The pieces hold no delimiter and, joined again, are the text up to a delimiter at its end. |
| `ConfigText.ParentsName` | dep/CLI11/CLI11.hpp:9068-9097 | Path and name of an item are the dot-separated parts of its full name: its section and its own, possibly dotted, name. |
| `ConfigText.NamesUnique` | dep/CLI11/CLI11.hpp:9068-9097 | The full name leaves no choice of path and name. |
| `ConfigText.TrimExact` | dep/CLI11/CLI11.hpp:241-274 | Trimming takes white space off both ends and nothing else. |
| `ConfigText.QuotesExact` | dep/CLI11/CLI11.hpp:287-297 | Quotation marks of one kind around a text come off, and nothing else does. |
| `ConfigText.HeaderLine` | dep/CLI11/CLI11.hpp:9180-9204 | What a section header line means, whatever white space is around it. |
| `ConfigText.DoubleHeaderLine` | dep/CLI11/CLI11.hpp:9180-9204 | The same for double brackets. |
| `ConfigText.CommentLine` | dep/CLI11/CLI11.hpp:9205-9213 | Blank lines and lines that begin with a comment character say nothing. |
| `ConfigText.ValueLine` | dep/CLI11/CLI11.hpp:9215-9251 | The name and the values of an item line with a delimiter. |
| `ConfigText.FlagLine` | dep/CLI11/CLI11.hpp:9215-9251 | An item line without a delimiter has the value true. |
| `Escape.TokeniseJoined` | src/host/ConsoleArguments.cpp:35-106 | Tokenising the escaped and joined arguments gives the same arguments, for every list. |
| `Escape.ScanEscaped` | src/host/ConsoleArguments.cpp:35-106 | An escaped argument followed by a blank or the end is read as that argument. |
| `Escape.ScanBody` | src/host/ConsoleArguments.cpp:73-95 | Reading the escaped characters puts the argument together, inside quotes or without blanks. |
| `Escape.ScanQuote` | src/host/ConsoleArguments.cpp:82-91 | A quotation mark behind n backslashes is written behind 2n+1 and read back. |
| `Escape.EscapeArgument` | src/host/ConsoleArguments.cpp:35-106 | The counting and copying loops give the escaped argument. |
| `Escape.EscapedShape` | src/host/ConsoleArguments.cpp:35-72 | Plain text is left as it is; exactly the empty argument and those with blanks are put in quotation marks. |
| `Escape.Measure` | src/host/ConsoleArguments.cpp:41-67 | Whether there is a blank, and whether anything has to be escaped. |
| `CommandlineParser.Arguments.ParseCommandline` | src/host/ConsoleArguments.cpp:379-556 | Terminates; result and fields are those of the reading of the tokens; on success no token is left, so the fail-fast cannot fire, every setting and both handles hold the value of the last option that gave them, and the switches are those given. |
| `CommandlineParser.Arguments.HandleArg` | src/host/ConsoleArguments.cpp:407-545 | One round of the loop takes one option off, or finishes with the client command line. |
| `CommandlineParser.Arguments.TakeServer` | src/host/ConsoleArguments.cpp:413-440 | Both forms of the server handle; a second one fails and changes nothing. |
| `CommandlineParser.Arguments.TakeSignal` | src/host/ConsoleArguments.cpp:441-450 | The signal handle gets the value of its text; a second one fails and changes nothing. |
| `CommandlineParser.Arguments.TakeSetting` | src/host/ConsoleArguments.cpp:484-499 | Mode, width, height and feature options with their values. |
| `CommandlineParser.Arguments.GetClientCommandline` | src/host/ConsoleArguments.cpp:342-368 | Joins the escaped tokens and leaves none. |
| `CommandlineParser.GetArgumentValue` | src/host/ConsoleArguments.cpp:192-207 | Takes an option and its value off together, or nothing. |
| `CommandlineParser.GetShortValue` | src/host/ConsoleArguments.cpp:253-288 | A number read to its end and not above the largest short, wrapped below the smallest. |
| `CommandlineParser.HandleFeatureValue` | src/host/ConsoleArguments.cpp:223-238 | Only the pty feature is supported. |
| `CommandlineParser.ParseHandleArg` | src/host/ConsoleArguments.cpp:299-325 | A handle is set once, from a prefixed text with a value other than zero. |
| `ConsoleArguments.AcceptedExact` | src/host/ConsoleArguments.cpp:379-556 | A command line is accepted if and only if every option has its value, handles and sizes are handles and numbers, the feature asked for is pty, and no handle is given twice. |
| `ConsoleArguments.TakenExact` | src/host/ConsoleArguments.cpp:407-545 | The same for a run of options from any settings. |
| `ConsoleArguments.ParsedHandles` | src/host/ConsoleArguments.cpp:434-438 | After any command line, accepted or not, a server handle is to be created exactly if none is set. |
| `ConsoleArguments.ClientTokens` | src/host/ConsoleArguments.cpp:342-368 | The client command line tokenises to exactly the tokens after the dashes or from the first unrecognised one. |
| `ConsoleArguments.ReadingSpells` | src/host/ConsoleArguments.cpp:407-545 | No token is lost: options and ending, spelled out, are the command line. |
| `ConsoleArguments.ReadSpelled` | src/host/ConsoleArguments.cpp:407-545 | Options and ending are read back from their spelling: no option is taken for another. |
| `ConsoleArguments.LastCounts` | src/host/ConsoleArguments.cpp:484-495 | Of several options of a kind the last one decides; a handle is given by one option only. |
| `ConsoleArguments.ParsedSetting` | src/host/ConsoleArguments.cpp:407-545 | After an accepted command line each setting and handle is the value token of the last option of its kind, or what it was without one. |
| `ConsoleArguments.ParsedFlags` | src/host/ConsoleArguments.cpp:451-523 | After an accepted command line the switches are those it spells. |
| `ConsoleArguments.OptionAt` | src/host/ConsoleArguments.cpp:407-545 | Each option read stands in the command line under its own name, its value behind it. |
| `ConsoleArguments.FlagsExact` | src/host/ConsoleArguments.cpp:451-523 | The switches that are on are those that were given. |
| `IntervalTree.IndexOverlapping` | oss/interval_tree/IntervalTree.h:267-274 | Building the index and asking it gives each interval as often as it is there if it overlaps the range, and no other. |
| `IntervalTree.IndexContained` | oss/interval_tree/IntervalTree.h:276-283 | The same for intervals contained in the range. |
| `IntervalTree.Build` | oss/interval_tree/IntervalTree.h:118-210 | The tree holds exactly the given intervals, well built, and has the shape the constructor promises: centres in the middle of the extent, leaves exactly when the depth is used up or both bucket sizes exceed the number of intervals, other nodes keeping the intervals that contain the centre. |
| `IntervalTree.HeightBound` | oss/interval_tree/IntervalTree.h:118-210 | A tree is never higher than the depth asked for. |
| `IntervalTree.BuildInner` | oss/interval_tree/IntervalTree.h:151-208 | The recursive part: both children get fewer intervals. |
| `IntervalTree.Partition` | oss/interval_tree/IntervalTree.h:169-189 | The loop hands out each interval by its side of the centre, in order. |
| `IntervalTree.PartitionAll` | oss/interval_tree/IntervalTree.h:169-189 | Nothing is lost or duplicated in handing out. |
| `IntervalTree.BothSmaller` | oss/interval_tree/IntervalTree.h:127-133 | The centre keeps the last to stop out of the left and the first to start out of the right. |
| `IntervalTree.VisitNear` | oss/interval_tree/IntervalTree.h:214-231 | Skipping parts of the tree loses nothing that is kept, for any range. |
| `IntervalTree.FindOverlapping` | oss/interval_tree/IntervalTree.h:267-274 | All overlapping intervals of the tree and no others. |
| `IntervalTree.FindContained` | oss/interval_tree/IntervalTree.h:276-283 | All contained intervals of the tree and no others. |
| `IntervalTree.BuiltIsValid` | oss/interval_tree/IntervalTree.h:335-383 | The validity check holds of every built tree, so the constructor assertions cannot fail. |
| `CommandListPopup.Popup.Process` | src/host/CommandListPopup.cpp:286-321 | Over any run of keys the history and the selection are those of the abstract run; every command left is in place or moved by a counted exchange, deletions account for the length, and for safe sizes the selection stays in the window. |
| `CommandListPopup.OverflowRun` | src/host/CommandListPopup.cpp:450-512 | For every size that is not safe a run of keys takes the selection out of the window. |
| `CommandListPopup.Popup.HandleKey` | src/host/CommandListPopup.cpp:62-136 | For every history each key selects the command it should, the window is kept if and only if the bottom index does not overflow; a shifted arrow exchanges the selected command with its neighbour, deletion removes it, and no other key changes the history. |
| `CommandListPopup.Popup.Update` | src/host/CommandListPopup.cpp:450-512 | For every history, moves the selection and the window, which is kept if and only if the bottom index does not overflow; highlighted rows then lie inside the popup. |
| `CommandListPopup.Popup.DeleteSelection` | src/host/CommandListPopup.cpp:150-173 | Removes the selected command and puts the selection into the window; the popup closes exactly when none is left. |
| `CommandListPopup.Popup.SwapUp` | src/host/CommandListPopup.cpp:179-195 | Exchanges exactly the selected command and the one before it, the selection follows its command. |
| `CommandListPopup.Popup.SwapDown` | src/host/CommandListPopup.cpp:201-217 | Exchanges exactly the selected command and the one behind it, the selection follows its command. |
| `CommandListPopup.Popup.SetBottomIndex` | src/host/CommandListPopup.cpp:138-148 | Puts the selection into the window, whatever was shown before. |
| `CommandListPopup.Popup.constructor` | src/host/CommandListPopup.cpp:53-60 | Starts with the last displayed command selected, in the window. |
| `CommandListPopup.WindowExact` | src/host/CommandListPopup.cpp:478-499 | A move keeps the selection in the window if and only if the new bottom index does not overflow sixteen bits. |
| `CommandListPopup.SafeKeeps` | src/host/CommandListPopup.cpp:478-499 | For safe sizes every move keeps the selection in the window. |
| `CommandListPopup.TargetExact` | src/host/CommandListPopup.cpp:460-478 | Where a move goes, with and without overflow of the sum. |
| `CommandListPopup.EndSelectsLast` | src/host/CommandListPopup.cpp:108-111 | The End key selects the last command if and only if its sum does not overflow. |
| `CommandListPopup.EndExample` | src/host/CommandListPopup.cpp:108-111 | In a history of 20000 the End key can select the first command. |
| `CommandListPopup.HomeSelectsFirst` | src/host/CommandListPopup.cpp:112-115 | The Home key always selects the first command. |
| `CommandListPopup.CycleSelects` | src/host/CommandListPopup.cpp:269-279 | A command found for a letter is selected, the modulo changes nothing. |
| `CommandListPopup.RowInside` | src/host/CommandListPopup.cpp:519-549 | The selection in the window is on a row of the popup. |
| `BoundedQueue.Bounded` | samples/ReadConsoleInputStream/ConcurrentBoundedQueue.cs:36-51 | For k producers and any consumers every interleaving keeps the queue at Capacity + k - 1 or less, removals a prefix of insertions, and the lock exclusive. |
| `BoundedQueue.BoundReached` | samples/ReadConsoleInputStream/ConcurrentBoundedQueue.cs:36-51 | For every capacity and number of producers an interleaving reaches that bound. |
| `BoundedQueue.DumpedAfterFull` | samples/ReadConsoleInputStream/ConcurrentBoundedQueue.cs:36-51 | In every interleaving an item is dumped only by a producer whose last look, with nothing of its own since, saw the queue at capacity or above. |
| `BoundedQueue.LoneProducer` | samples/ReadConsoleInputStream/ConcurrentBoundedQueue.cs:36-51 | One producer without consumers drops items only when the queue would overflow: between two calls the queue holds all items, or as many as the capacity. |
| `BoundedQueue.OneOutOneIn` | samples/ReadConsoleInputStream/ConcurrentBoundedQueue.cs:36-51 | So a call on a full queue drops exactly one item, the oldest. |
| `BoundedQueue.RunKeeps` | samples/ReadConsoleInputStream/ConcurrentBoundedQueue.cs:36-51 | The invariant is kept by every run. |
| `BoundedQueue.StepCounts` | samples/ReadConsoleInputStream/ConcurrentBoundedQueue.cs:39-50 | Each step keeps queue length plus producers past the check within the bound. |
| `BoundedQueue.StepOrders` | samples/ReadConsoleInputStream/ConcurrentBoundedQueue.cs:43-50 | Each step keeps removed items followed by the queue equal to the inserted items. |
| `BoundedQueue.StepLocks` | samples/ReadConsoleInputStream/ConcurrentBoundedQueue.cs:41-47 | Each step keeps the lock with one producer. |

## Left out

- JSON doubles, special floats and locale handling: a double is an opaque value, its text and its parse are functions of the environment.
- JSON comments in values: comments are skipped by the reader and not stored, and the writers print values without comments.
- JSON reader and writer classes marked deprecated: near copies of the modelled ones.
- JSON array indices beyond 2^31 and the pointer stack of the reader: nodes are values that are stored in their parent when popped.
- JSON errors: that a document is rejected is exact; the messages and where reading goes on after one are those of the reading function, about which it is stated that a failed value leaves exactly one error, placed in the document.
- Population count on ARM and other processors, processor detection and inline assembly: flags are parameters.
- Bitset operators on two sets, iterators, allocators, stream operators and capacity functions: easy beside those modelled; sizes are unbounded numbers.
- DynamicBitset.Bitset.CountInMemory: the size is below 2^64, as the size type of the source demands.
- Configuration: quoting and splitting of item values is a function of the configuration, locale dependent character classes are those of the C locale, and the rest of CLI11 is not modelled.
- ConfigSections.FromConfig: promises nothing about texts with an item named like an event, since a reader of the events could not tell them apart.
- Escape.TokeniseJoined: the rule for the program name and text behind a zero character are not modelled.
- CommandlineParser.Arguments.ParseCommandline: switches are kept as a set instead of one field each; the call of `CommandLineToArgvW` is a parameter.
- IntervalTree: overflow of the midpoint sum, the extent that the validity check returns, and visiting in sorted order.
- CommandListPopup: drawing and input are left out, what the history finds for a letter is a parameter, and histories have at most 32767 commands, the largest index type of the history.
- BoundedQueue: the rounding of the capacity to a power of two, and a queue that starts with items in it.
- Threads, I/O, the other popups and the message layouts: not data handling that the model covers.
